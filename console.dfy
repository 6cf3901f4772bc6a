/** The interactive loop of `main`: each input line is trimmed, blank lines are
    skipped, "exit" in any letter case ends the loop, and every other line is a
    question handed to the pipeline. A question that fails does not end the
    loop. */
module Console {
  import opened Text
  import Pipeline

  const Exit := Ascii("exit")

  /** The trimmed line asks to leave, ignoring the case of its letters. */
  predicate IsExit(q: Bytes)
  {
    ToLower(q) == Exit
  }

  /** The word that ends the loop has four letters, each in either case. */
  lemma ExitSpellings(q: Bytes)
    ensures IsExit(q) <==>
      |q| == 4 && q[0] in {69, 101} && q[1] in {88, 120} && q[2] in {73, 105} && q[3] in {84, 116}
  {
    if |q| == 4 {
      assert ToLower(q)[0] == LowerByte(q[0]);
      assert ToLower(q)[1] == LowerByte(q[1]);
      assert ToLower(q)[2] == LowerByte(q[2]);
      assert ToLower(q)[3] == LowerByte(q[3]);
      if q[0] in {69, 101} && q[1] in {88, 120} && q[2] in {73, 105} && q[3] in {84, 116} {
        assert ToLower(q) == Exit;
      }
    }
  }

  /** What the loop does with one input line. */
  datatype Action = Skip | Stop | Ask(question: Bytes)

  function Classify(line: Bytes): (a: Action)
    ensures a == Skip <==> AllSpace(line)
    ensures a == Stop <==> !AllSpace(line) && IsExit(TrimSpace(line))
    ensures a.Ask? ==> a.question == TrimSpace(line) && a.question != [] && !IsExit(a.question)
  {
    TrimSpaceEmpty(line);
    var q := TrimSpace(line);
    if q == [] then Skip else if IsExit(q) then Stop else Ask(q)
  }

  /** What the loop does with each input line, line by line. */
  function Actions(lines: seq<Bytes>): (acts: seq<Action>)
    ensures |acts| == |lines|
    ensures forall i :: 0 <= i < |lines| ==> acts[i] == Classify(lines[i])
  {
    seq(|lines|, i requires 0 <= i < |lines| => Classify(lines[i]))
  }

  /** The questions asked along a sequence of actions, up to the first Stop. */
  function Asks(acts: seq<Action>): (qs: seq<Bytes>)
    ensures |qs| <= |acts|
    decreases |acts|
  {
    if acts == [] then []
    else
      match acts[0]
      case Skip => Asks(acts[1..])
      case Stop => []
      case Ask(q) => [q] + Asks(acts[1..])
  }

  /** Each question asked comes from an Ask among the actions. */
  lemma {:induction false} AsksFromActions(acts: seq<Action>)
    ensures forall q :: q in Asks(acts) ==> Ask(q) in acts
    decreases |acts|
  {
    if acts != [] {
      AsksFromActions(acts[1..]);
    }
  }

  /** The questions the loop hands to the pipeline for the given input lines,
      in order. */
  function Questions(lines: seq<Bytes>): (qs: seq<Bytes>)
    ensures |qs| <= |lines|
  {
    Asks(Actions(lines))
  }

  /** Every question handed on is trimmed, not empty and not a request to leave. */
  lemma QuestionsWellFormed(lines: seq<Bytes>)
    ensures forall q :: q in Questions(lines) ==>
      q != [] && TrimSpace(q) == q && !IsExit(q) && exists i :: 0 <= i < |lines| && q == TrimSpace(lines[i])
  {
    var acts := Actions(lines);
    AsksFromActions(acts);
    forall q | q in Questions(lines)
      ensures q != [] && TrimSpace(q) == q && !IsExit(q) && exists i :: 0 <= i < |lines| && q == TrimSpace(lines[i])
    {
      var i :| 0 <= i < |acts| && acts[i] == Ask(q);
      TrimSpaceIdempotent(lines[i]);
    }
  }

  /** Reading on past actions that do not stop the loop simply adds their
      questions: lines are handled one at a time, in order. */
  lemma {:induction false} AsksAppend(a: seq<Action>, b: seq<Action>)
    requires Stop !in a
    ensures Asks(a + b) == Asks(a) + Asks(b)
    decreases |a|
  {
    if a != [] {
      var ab := a + b;
      assert ab[0] == a[0];
      assert ab[1..] == a[1..] + b;
      AsksAppend(a[1..], b);
      match a[0]
      case Skip =>
      case Ask(q) =>
        assert [q] + (Asks(a[1..]) + Asks(b)) == ([q] + Asks(a[1..])) + Asks(b);
    } else {
      assert a + b == b;
    }
  }

  lemma ActionsAppend(a: seq<Bytes>, b: seq<Bytes>)
    ensures Actions(a + b) == Actions(a) + Actions(b)
  {
    var ab := a + b;
    forall i | 0 <= i < |ab|
      ensures Actions(ab)[i] == (Actions(a) + Actions(b))[i]
    {
      if i < |a| {
        assert ab[i] == a[i];
      } else {
        assert ab[i] == b[i - |a|];
      }
    }
  }

  /** Lines that do not stop the loop contribute their own questions, and
      the lines after them contribute theirs. */
  lemma QuestionsAppend(a: seq<Bytes>, b: seq<Bytes>)
    requires forall i :: 0 <= i < |a| ==> Classify(a[i]) != Stop
    ensures Questions(a + b) == Questions(a) + Questions(b)
  {
    ActionsAppend(a, b);
    AsksAppend(Actions(a), Actions(b));
  }

  /** Nothing after the first "exit" line is read: the lines that follow it
      contribute no question. */
  lemma QuestionsStopAtExit(before: seq<Bytes>, exit: Bytes, after: seq<Bytes>)
    requires forall i :: 0 <= i < |before| ==> Classify(before[i]) != Stop
    requires Classify(exit) == Stop
    ensures Questions(before + [exit] + after) == Questions(before)
  {
    var rest := [exit] + after;
    assert before + [exit] + after == before + rest;
    QuestionsAppend(before, rest);
    assert Actions(rest)[0] == Stop;
    assert Questions(before) + [] == Questions(before);
  }

  /** The questions from action `i` on, by what action `i` is. */
  lemma AsksFrom(acts: seq<Action>, i: nat)
    requires i < |acts|
    ensures acts[i] == Skip ==> Asks(acts[i..]) == Asks(acts[i + 1..])
    ensures acts[i] == Stop ==> Asks(acts[i..]) == []
    ensures acts[i].Ask? ==> Asks(acts[i..]) == [acts[i].question] + Asks(acts[i + 1..])
  {
    assert acts[i..][0] == acts[i];
    assert acts[i..][1..] == acts[i + 1..];
  }

  /** What line `i` does to the questions still to come, by its trimmed text. */
  lemma LineStep(lines: seq<Bytes>, i: nat)
    requires i < |lines|
    ensures TrimSpace(lines[i]) == [] ==> Asks(Actions(lines)[i..]) == Asks(Actions(lines)[i + 1..])
    ensures TrimSpace(lines[i]) != [] && IsExit(TrimSpace(lines[i])) ==> Asks(Actions(lines)[i..]) == []
    ensures TrimSpace(lines[i]) != [] && !IsExit(TrimSpace(lines[i])) ==> Actions(lines)[i] == Ask(TrimSpace(lines[i]))
  {
    AsksFrom(Actions(lines), i);
  }

  /** Asking the question of action `i` moves it from the questions still to
      come to the questions asked. */
  lemma AskStep(acts: seq<Action>, i: nat, asked: seq<Bytes>, total: seq<Bytes>)
    requires i < |acts| && acts[i].Ask?
    requires total == asked + Asks(acts[i..])
    ensures total == (asked + [acts[i].question]) + Asks(acts[i + 1..])
    ensures |asked| < |total|
  {
    AsksFrom(acts, i);
    assert asked + ([acts[i].question] + Asks(acts[i + 1..])) == (asked + [acts[i].question]) + Asks(acts[i + 1..]);
  }

  /** What the pipeline does for each of the questions `qs`, the k-th of
      them meeting the remote outcomes `remotes[k]`. */
  function RunsOf(qs: seq<Bytes>, model: Bytes, remotes: seq<Pipeline.Remote>): (runs: seq<Pipeline.Run>)
    requires |qs| <= |remotes|
    ensures |runs| == |qs|
    decreases |qs|
  {
    if qs == [] then []
    else
      var n := |qs| - 1;
      RunsOf(qs[..n], model, remotes) + [Pipeline.RagRun(qs[n], model, remotes[n])]
  }

  /** Running one more question appends its run. */
  lemma RunsOfSnoc(qs: seq<Bytes>, q: Bytes, model: Bytes, remotes: seq<Pipeline.Remote>)
    requires |qs| < |remotes|
    ensures RunsOf(qs + [q], model, remotes) == RunsOf(qs, model, remotes) + [Pipeline.RagRun(q, model, remotes[|qs|])]
  {
    assert (qs + [q])[..|qs|] == qs;
    assert (qs + [q])[|qs|] == q;
  }

  lemma {:induction false} RunsOfAt(qs: seq<Bytes>, model: Bytes, remotes: seq<Pipeline.Remote>, k: nat)
    requires |qs| <= |remotes| && k < |qs|
    ensures RunsOf(qs, model, remotes)[k] == Pipeline.RagRun(qs[k], model, remotes[k])
    decreases |qs|
  {
    var n := |qs| - 1;
    if k < n {
      RunsOfAt(qs[..n], model, remotes, k);
    }
  }

  /** The loop of `main` from the first prompt to end of input or "exit". For
      the k-th question asked, `remotes[k]` gives the outcomes of the remote
      calls that question makes. Returns the questions asked and what each one
      did; every question is run whatever became of the ones before it. */
  method Session(lines: seq<Bytes>, model: Bytes, remotes: seq<Pipeline.Remote>)
    returns (asked: seq<Bytes>, runs: seq<Pipeline.Run>)
    requires |Questions(lines)| <= |remotes|
    ensures asked == Questions(lines)
    ensures runs == RunsOf(asked, model, remotes)
  {
    ghost var acts := Actions(lines);
    asked, runs := [], [];
    var i := 0;
    while i < |lines|
      invariant 0 <= i <= |lines|
      invariant Questions(lines) == asked + Asks(acts[i..])
      invariant runs == RunsOf(asked, model, remotes)
    {
      LineStep(lines, i);
      var question := TrimSpace(lines[i]);
      if question == [] {
        i := i + 1;
        continue;
      }
      if IsExit(question) {
        break;
      }
      AskStep(acts, i, asked, Questions(lines));
      var run := Pipeline.PerformRag(question, model, remotes[|asked|]);
      RunsOfSnoc(asked, question, model, remotes);
      asked, runs := asked + [question], runs + [run];
      i := i + 1;
    }
    assert acts[i..] == [] ==> Asks(acts[i..]) == [];
  }
}
