/** Byte strings and the few string operations of Go's standard library that
    the pipeline relies on: strings.TrimSpace, strings.ToLower and fmt's %d. */
module Text {

  /** One byte of a Go string. Go's len and slicing count these. */
  type Byte = b: int | 0 <= b < 256
  type Bytes = seq<Byte>

  datatype Option<T> = None | Some(value: T)

  /** The outcome of a Go call that returns a value or an error; the error is
      carried as the text Go's %v would print for it. */
  datatype Result<T> = Ok(value: T) | Err(error: Bytes)

  /** The bytes of a string literal written in ASCII. */
  function Ascii(s: string): (r: Bytes)
    ensures |r| == |s|
  {
    seq(|s|, i requires 0 <= i < |s| => (s[i] as int) % 256)
  }

  /** `w` occurs in `s` at offset `k`. */
  predicate OccursAt(s: Bytes, k: nat, w: Bytes)
  {
    k + |w| <= |s| && s[k..k + |w|] == w
  }

  // ---------------------------------------------------------------------
  // strings.TrimSpace, ASCII part

  /** The ASCII white space that Go's strings.TrimSpace removes:
      tab, line feed, vertical tab, form feed, carriage return and space. */
  predicate IsSpace(b: Byte)
  {
    b == 32 || 9 <= b <= 13
  }

  predicate AllSpace(s: Bytes)
  {
    forall i :: 0 <= i < |s| ==> IsSpace(s[i])
  }

  /** The number of white-space bytes `s` starts with. */
  function LeadingSpace(s: Bytes): (n: nat)
    ensures n <= |s|
    ensures forall i :: 0 <= i < n ==> IsSpace(s[i])
    ensures n < |s| ==> !IsSpace(s[n])
    decreases |s|
  {
    if s != [] && IsSpace(s[0]) then 1 + LeadingSpace(s[1..]) else 0
  }

  /** Where `s[lo..hi]` ends once its trailing white space is removed. */
  function TrailingStart(s: Bytes, lo: nat, hi: nat): (e: nat)
    requires lo <= hi <= |s|
    ensures lo <= e <= hi
    ensures forall i :: e <= i < hi ==> IsSpace(s[i])
    ensures e > lo ==> !IsSpace(s[e - 1])
    decreases hi
  {
    if hi > lo && IsSpace(s[hi - 1]) then TrailingStart(s, lo, hi - 1) else hi
  }

  /** strings.TrimSpace: the result is the part of `s` left after removing
      all leading and trailing white space. */
  function TrimSpace(s: Bytes): (r: Bytes)
    ensures |r| <= |s|
    ensures OccursAt(s, LeadingSpace(s), r)
    ensures forall i :: 0 <= i < LeadingSpace(s) ==> IsSpace(s[i])
    ensures forall i :: LeadingSpace(s) + |r| <= i < |s| ==> IsSpace(s[i])
    ensures r == [] || (!IsSpace(r[0]) && !IsSpace(r[|r| - 1]))
  {
    var lo := LeadingSpace(s);
    s[lo..TrailingStart(s, lo, |s|)]
  }

  /** Trimming removes everything exactly when everything is white space. */
  lemma TrimSpaceEmpty(s: Bytes)
    ensures TrimSpace(s) == [] <==> AllSpace(s)
  {
    if TrimSpace(s) != [] {
      assert s[LeadingSpace(s)] == TrimSpace(s)[0];
    }
  }

  /** Trimming an already trimmed text changes nothing. */
  lemma TrimSpaceIdempotent(s: Bytes)
    ensures TrimSpace(TrimSpace(s)) == TrimSpace(s)
  {
    var r := TrimSpace(s);
    if r != [] {
      assert LeadingSpace(r) == 0;
      assert TrailingStart(r, 0, |r|) == |r|;
      assert r[0..|r|] == r;
    }
  }

  // ---------------------------------------------------------------------
  // strings.ToLower, ASCII part

  function LowerByte(b: Byte): Byte
  {
    if 65 <= b <= 90 then b + 32 else b
  }

  /** strings.ToLower on ASCII: every upper-case letter becomes its lower-case
      letter and every other byte is kept. */
  function ToLower(s: Bytes): (r: Bytes)
    ensures |r| == |s|
    ensures forall i :: 0 <= i < |s| ==> !(65 <= r[i] <= 90) && (r[i] == s[i] || r[i] as int == s[i] as int + 32)
    ensures forall i :: 0 <= i < |s| && r[i] != s[i] ==> 65 <= s[i] <= 90
  {
    seq(|s|, i requires 0 <= i < |s| => LowerByte(s[i]))
  }

  // ---------------------------------------------------------------------
  // fmt's %d for a non-negative int

  predicate IsDigit(b: Byte)
  {
    48 <= b <= 57
  }

  /** The decimal digits of `n`: at least one, all digits, and no leading zero. */
  function Decimal(n: nat): (r: Bytes)
    ensures 1 <= |r|
    ensures forall i :: 0 <= i < |r| ==> IsDigit(r[i])
    ensures r[0] == 48 ==> n == 0
    decreases n
  {
    if n < 10 then [48 + n] else Decimal(n / 10) + [48 + n % 10]
  }

  /** The number a string of decimal digits denotes. */
  function DigitsValue(s: Bytes): nat
    requires forall i :: 0 <= i < |s| ==> IsDigit(s[i])
    decreases |s|
  {
    if s == [] then 0
    else
      assert IsDigit(s[|s| - 1]);
      DigitsValue(s[..|s| - 1]) * 10 + (s[|s| - 1] as int - 48)
  }

  /** Reading back the digits printed for `n` gives `n`: the label printed for
      a number identifies it. */
  lemma {:induction false} DecimalRoundTrip(n: nat)
    ensures DigitsValue(Decimal(n)) == n
    decreases n
  {
    if n >= 10 {
      var d := Decimal(n);
      DecimalRoundTrip(n / 10);
      assert d[..|d| - 1] == Decimal(n / 10);
    }
  }

  /** A larger number never prints with fewer digits. */
  lemma {:induction false} DecimalLengthMonotone(m: nat, n: nat)
    requires m <= n
    ensures |Decimal(m)| <= |Decimal(n)|
    decreases n
  {
    if m >= 10 {
      DecimalLengthMonotone(m / 10, n / 10);
    }
  }
}
