/** The retrieval-augmented generation pipeline of `performRAG`: article
    truncation, context assembly, the prompt template and the outcome of one
    question. Every remote call is replaced by the outcome it had, given as
    input. */
module Pipeline {
  import opened Text

  // ---------------------------------------------------------------------
  // Truncation

  /** The most bytes of an extract that reach the context. */
  const MaxContent := 1000
  /** The marker appended to a truncated extract. */
  const Ellipsis := Ascii("...")

  /** An extract as it enters the context: unchanged when it has at most
      MaxContent bytes, otherwise its first MaxContent bytes and the marker. */
  function Truncate(content: Bytes): (r: Bytes)
    ensures |content| <= MaxContent ==> r == content
    ensures |content| > MaxContent ==>
      |r| == MaxContent + 3 && r[..MaxContent] == content[..MaxContent] && r[MaxContent..] == Ellipsis
    ensures |r| <= MaxContent + 3
  {
    if |content| > MaxContent then content[..MaxContent] + Ellipsis else content
  }

  /** Truncating twice is truncating once: a truncated extract is kept as it is. */
  lemma TruncateIdempotent(content: Bytes)
    ensures Truncate(Truncate(content)) == Truncate(content)
  {
    if |content| > MaxContent {
      var r := Truncate(content);
      assert r == r[..MaxContent] + r[MaxContent..];
    }
  }

  // ---------------------------------------------------------------------
  // One labelled block per retrieved article

  const ArticleOpen := Ascii("\n--- Article ")
  const ArticleColon := Ascii(": ")
  const ArticleClose := Ascii(" ---\n")
  const BlockEnd := Ascii("\n")
  /** The bytes of a block that come from the format string. */
  const BlockOverhead := 21

  /** The block `fmt.Sprintf("\n--- Article %d: %s ---\n%s\n", number, title, content)`
      with the content truncated first. */
  function Block(number: nat, title: Bytes, content: Bytes): Bytes
  {
    ArticleOpen + Decimal(number) + ArticleColon + title + ArticleClose + Truncate(content) + BlockEnd
  }

  /** A block is its label, the title and the truncated content, in that order,
      and its length is the overhead, the number's digits, the title and at
      most MaxContent + 3 bytes of content. */
  lemma BlockShape(number: nat, title: Bytes, content: Bytes)
    ensures OccursAt(Block(number, title, content), 0, ArticleOpen + Decimal(number) + ArticleColon)
    ensures OccursAt(Block(number, title, content), |ArticleOpen| + |Decimal(number)| + |ArticleColon|, title + ArticleClose + Truncate(content))
    ensures |Block(number, title, content)| == BlockOverhead + |Decimal(number)| + |title| + |Truncate(content)|
    ensures |Block(number, title, content)| <= BlockOverhead + |Decimal(number)| + |title| + MaxContent + 3
  {
    var b := Block(number, title, content);
    var head := ArticleOpen + Decimal(number) + ArticleColon;
    var rest := title + ArticleClose + Truncate(content);
    assert b == head + rest + BlockEnd;
    assert b[0..|head|] == head;
    assert b[|head|..|head| + |rest|] == rest;
  }

  /** A title from the search paired with the outcome of fetching its extract. */
  datatype Hit = Hit(title: Bytes, content: Result<Bytes>)

  function Titles(hits: seq<Hit>): (ts: seq<Bytes>)
    ensures |ts| == |hits|
  {
    seq(|hits|, i requires 0 <= i < |hits| => hits[i].title)
  }

  /** What the hit at (0-based) position `i` adds to the context: nothing if
      its retrieval failed, otherwise its block numbered i + 1. */
  function Piece(i: nat, hit: Hit): Bytes
  {
    if hit.content.Ok? then Block(i + 1, hit.title, hit.content.value) else []
  }

  /** The context the builder holds after visiting `hits` in order. */
  function ContextOf(hits: seq<Hit>): Bytes
    decreases |hits|
  {
    if hits == [] then []
    else
      var n := |hits| - 1;
      ContextOf(hits[..n]) + Piece(n, hits[n])
  }

  /** The loop of `performRAG` over the search titles: it asks for the extract
      of every title in order, skips those that fail, and appends the block of
      every other one to the builder. Returns the context and the titles whose
      extract it asked for. */
  method AssembleContext(hits: seq<Hit>) returns (context: Bytes, requested: seq<Bytes>)
    ensures context == ContextOf(hits)
    ensures requested == Titles(hits)
  {
    context, requested := [], [];
    for i := 0 to |hits|
      invariant context == ContextOf(hits[..i])
      invariant requested == Titles(hits[..i])
    {
      assert hits[..i + 1][..i] == hits[..i];
      var title := hits[i].title;
      requested := requested + [title];
      if hits[i].content.Err? {
        continue;
      }
      var content := hits[i].content.value;
      if |content| > MaxContent {
        content := content[..MaxContent] + Ellipsis;
      }
      context := context + (ArticleOpen + Decimal(i + 1) + ArticleColon + title + ArticleClose + content + BlockEnd);
    }
    assert hits[..|hits|] == hits;
  }

  // ---------------------------------------------------------------------
  // The context as a list of numbered blocks

  /** The positions, in increasing order, of the hits whose retrieval succeeded. */
  function Succeeded(hits: seq<Hit>): (ix: seq<nat>)
    ensures forall k :: 0 <= k < |ix| ==> ix[k] < |hits| && hits[ix[k]].content.Ok?
    ensures forall i :: 0 <= i < |hits| && hits[i].content.Ok? ==> i in ix
    ensures |ix| <= |hits|
    decreases |hits|
  {
    if hits == [] then []
    else
      var n := |hits| - 1;
      var ix := Succeeded(hits[..n]);
      assert forall k :: 0 <= k < |ix| ==> hits[ix[k]] == hits[..n][ix[k]];
      ix + (if hits[n].content.Ok? then [n] else [])
  }

  /** The successful positions are listed in increasing order. */
  lemma {:induction false} SucceededIncreasing(hits: seq<Hit>)
    ensures forall k, l :: 0 <= k < l < |Succeeded(hits)| ==> Succeeded(hits)[k] < Succeeded(hits)[l]
    decreases |hits|
  {
    if hits != [] {
      var n := |hits| - 1;
      SucceededIncreasing(hits[..n]);
      assert Succeeded(hits) == Succeeded(hits[..n]) + (if hits[n].content.Ok? then [n] else []);
    }
  }

  /** The block of each successful hit, in search order, numbered by the hit's
      1-based position in the whole search result. */
  function Blocks(hits: seq<Hit>): (bs: seq<Bytes>)
    ensures |bs| == |Succeeded(hits)|
  {
    var ix := Succeeded(hits);
    seq(|ix|, k requires 0 <= k < |ix| => Block(ix[k] + 1, hits[ix[k]].title, hits[ix[k]].content.value))
  }

  function Concat(bs: seq<Bytes>): Bytes
    decreases |bs|
  {
    if bs == [] then [] else Concat(bs[..|bs| - 1]) + bs[|bs| - 1]
  }

  /** Extending the hits by one extends the blocks by that hit's piece, if any. */
  lemma BlocksSnoc(hits: seq<Hit>)
    requires hits != []
    ensures var n := |hits| - 1;
      Blocks(hits) == Blocks(hits[..n]) + (if hits[n].content.Ok? then [Piece(n, hits[n])] else [])
  {
    var n := |hits| - 1;
    var p := hits[..n];
    var ix, ixp := Succeeded(hits), Succeeded(p);
    var bs, bsp := Blocks(hits), Blocks(p);
    assert ix == ixp + (if hits[n].content.Ok? then [n] else []);
    forall k | 0 <= k < |bsp| ensures bs[k] == bsp[k] {
      assert ix[k] == ixp[k];
      assert hits[ix[k]] == p[ixp[k]];
    }
    if hits[n].content.Ok? {
      assert bs[|bsp|] == Piece(n, hits[n]);
      assert bs == bsp + [Piece(n, hits[n])];
    } else {
      assert bs == bsp;
    }
  }

  lemma ConcatSnoc(bs: seq<Bytes>, b: Bytes)
    ensures Concat(bs + [b]) == Concat(bs) + b
  {
    assert (bs + [b])[..|bs|] == bs;
  }

  /** The context is exactly the blocks of the successful hits, one each, in
      search order, each numbered by its position in the search result; a
      failed retrieval contributes nothing. */
  lemma {:induction false} ContextIsBlocks(hits: seq<Hit>)
    ensures ContextOf(hits) == Concat(Blocks(hits))
    decreases |hits|
  {
    if hits != [] {
      var n := |hits| - 1;
      var p := hits[..n];
      ContextIsBlocks(p);
      BlocksSnoc(hits);
      assert ContextOf(hits) == ContextOf(p) + Piece(n, hits[n]);
      if hits[n].content.Ok? {
        ConcatSnoc(Blocks(p), Piece(n, hits[n]));
      } else {
        assert Blocks(hits) == Blocks(p) + [] == Blocks(p);
      }
    }
  }

  /** Block numbers strictly increase along the context. */
  lemma BlockNumbers(hits: seq<Hit>, k: nat, l: nat)
    requires k < l < |Blocks(hits)|
    ensures Succeeded(hits)[k] + 1 < Succeeded(hits)[l] + 1
  {
    SucceededIncreasing(hits);
  }

  /** The k-th block (0-based) carries a number of at least k + 1: numbering
      follows the position in the search result, not the count of successes. */
  lemma BlockRank(hits: seq<Hit>, k: nat)
    requires k < |Blocks(hits)|
    ensures k + 1 <= Succeeded(hits)[k] + 1
  {
    SucceededIncreasing(hits);
    IndexAtLeastRank(Succeeded(hits), k);
  }

  /** A gap between the numbers of two consecutive blocks is made of the
      positions whose retrieval failed. */
  lemma BlockGap(hits: seq<Hit>, k: nat, i: nat)
    requires k + 1 < |Blocks(hits)|
    requires Succeeded(hits)[k] < i < Succeeded(hits)[k + 1]
    ensures i < |hits| && hits[i].content.Err?
  {
    var ix := Succeeded(hits);
    SucceededIncreasing(hits);
    forall m | 0 <= m < |ix| ensures ix[m] != i {
      OutsideConsecutive(ix, k, m);
    }
  }

  /** In an increasing sequence no element lies strictly between two
      consecutive ones. */
  lemma OutsideConsecutive(ix: seq<nat>, k: nat, m: nat)
    requires forall a, b :: 0 <= a < b < |ix| ==> ix[a] < ix[b]
    requires k + 1 < |ix| && m < |ix|
    ensures ix[m] <= ix[k] || ix[k + 1] <= ix[m]
  {
    if m < k {
      assert ix[m] < ix[k];
    } else if k + 1 < m {
      assert ix[k + 1] < ix[m];
    }
  }

  lemma {:induction false} IndexAtLeastRank(ix: seq<nat>, k: nat)
    requires k < |ix|
    requires forall a, b :: 0 <= a < b < |ix| ==> ix[a] < ix[b]
    ensures k <= ix[k]
    decreases k
  {
    if k > 0 {
      IndexAtLeastRank(ix, k - 1);
    }
  }

  /** With no successful retrieval the context is empty. */
  lemma NoSuccessEmptyContext(hits: seq<Hit>)
    requires forall i :: 0 <= i < |hits| ==> hits[i].content.Err?
    ensures ContextOf(hits) == []
  {
    ContextIsBlocks(hits);
    assert Blocks(hits) == [];
  }

  // ---------------------------------------------------------------------
  // Size of the context

  /** The most bytes the block of each successful hit can take, summed. */
  function Budget(hits: seq<Hit>): nat
    decreases |hits|
  {
    if hits == [] then 0
    else
      var n := |hits| - 1;
      Budget(hits[..n])
        + (if hits[n].content.Ok? then BlockOverhead + |Decimal(n + 1)| + |hits[n].title| + MaxContent + 3 else 0)
  }

  lemma {:induction false} ContextWithinBudget(hits: seq<Hit>)
    ensures |ContextOf(hits)| <= Budget(hits)
    decreases |hits|
  {
    if hits != [] {
      var n := |hits| - 1;
      ContextWithinBudget(hits[..n]);
      if hits[n].content.Ok? {
        BlockShape(n + 1, hits[n].title, hits[n].content.value);
      }
    }
  }

  /** When no block can be longer than `w`, the context is at most `w` bytes
      per successful retrieval. */
  lemma {:induction false} ContextBoundBy(hits: seq<Hit>, w: nat)
    requires forall i :: 0 <= i < |hits| && hits[i].content.Ok? ==>
      BlockOverhead + |Decimal(i + 1)| + |hits[i].title| + MaxContent + 3 <= w
    ensures |ContextOf(hits)| <= |Succeeded(hits)| * w
    decreases |hits|
  {
    if hits != [] {
      var n := |hits| - 1;
      var p := hits[..n];
      ContextBoundBy(p, w);
      var sp := |Succeeded(p)|;
      assert |ContextOf(hits)| == |ContextOf(p)| + |Piece(n, hits[n])|;
      if hits[n].content.Ok? {
        BlockShape(n + 1, hits[n].title, hits[n].content.value);
        assert |Succeeded(hits)| == sp + 1;
        MulSucc(sp, w);
      } else {
        assert |Succeeded(hits)| == sp;
      }
    }
  }

  lemma MulSucc(a: nat, w: nat)
    ensures (a + 1) * w == a * w + w
  {
  }

  /** When no title is longer than `maxTitle`, the context has at most one
      block's worth of bytes per successful retrieval: the format overhead, the
      digits of the largest article number, the longest title and the
      truncated extract. */
  lemma ContextBound(hits: seq<Hit>, maxTitle: nat)
    requires forall i :: 0 <= i < |hits| ==> |hits[i].title| <= maxTitle
    ensures |ContextOf(hits)| <= |Succeeded(hits)| * (BlockOverhead + |Decimal(|hits|)| + maxTitle + MaxContent + 3)
  {
    var w := BlockOverhead + |Decimal(|hits|)| + maxTitle + MaxContent + 3;
    forall i | 0 <= i < |hits| && hits[i].content.Ok?
      ensures BlockOverhead + |Decimal(i + 1)| + |hits[i].title| + MaxContent + 3 <= w
    {
      DecimalLengthMonotone(i + 1, |hits|);
    }
    ContextBoundBy(hits, w);
  }

  // ---------------------------------------------------------------------
  // The prompt

  const Opening := Ascii("Based on the following Wikipedia articles, answer this question: ")
  const Gap := Ascii("\n\n")
  const ContextHeading := Ascii("Context:\n")
  const Instruction := Ascii("\n\nAnswer the question based on the context provided. If the context doesn't contain enough information, say so.\n\n")
  const AnswerCue := Ascii("Answer:")

  /** The prompt sent to the model: the fixed opening and the question
      verbatim, then "Context:" and the context verbatim, then the fixed
      instruction, ending with "Answer:". */
  function BuildPrompt(question: Bytes, context: Bytes): (p: Bytes)
    ensures OccursAt(p, 0, Opening + question)
    ensures OccursAt(p, |Opening| + |question| + |Gap|, ContextHeading + context)
    ensures OccursAt(p, |p| - |AnswerCue|, AnswerCue)
    ensures |p| == |Opening| + |question| + |Gap| + |ContextHeading| + |context| + |Instruction| + |AnswerCue|
  {
    Opening + question + Gap + ContextHeading + context + Instruction + AnswerCue
  }

  /** The prompt determines the question and the context it was built from,
      once the question's length is known. */
  lemma PromptDeterminesInputs(q1: Bytes, c1: Bytes, q2: Bytes, c2: Bytes)
    requires BuildPrompt(q1, c1) == BuildPrompt(q2, c2)
    requires |q1| == |q2|
    ensures q1 == q2 && c1 == c2
  {
    var p := BuildPrompt(q1, c1);
    var o := |Opening|;
    assert q1 == (Opening + q1)[o..] == p[o..o + |q1|][..];
    assert q2 == (Opening + q2)[o..] == p[o..o + |q2|][..];
    var h := o + |q1| + |Gap| + |ContextHeading|;
    assert c1 == (ContextHeading + c1)[|ContextHeading|..] == p[h..h + |c1|];
    assert c2 == (ContextHeading + c2)[|ContextHeading|..] == p[h..h + |c2|];
  }

  // ---------------------------------------------------------------------
  // One question

  /** The outcome of every remote call one question makes: the search (its
      titles, each paired with the outcome of fetching its extract) and the
      generation. */
  datatype Remote = Remote(search: Result<seq<Hit>>, generation: Result<Bytes>)

  /** A request to the generation service. */
  datatype GenerationRequest = GenerationRequest(model: Bytes, prompt: Bytes)

  /** What one question does: its outcome (the trimmed answer or the error
      reported), the titles whose extract it asked for, in order, and the
      request it made to the generation service, if any. */
  datatype Run = Run(outcome: Result<Bytes>, retrieved: seq<Bytes>, generated: Option<GenerationRequest>)

  const SearchFailed := Ascii("Wikipedia search error: ")
  const NoResults := Ascii("no Wikipedia results found")
  const GenerationFailed := Ascii("Ollama error: ")

  /** The behaviour of `performRAG` for one question. */
  function RagRun(question: Bytes, model: Bytes, remote: Remote): (run: Run)
    ensures run.outcome.Ok? <==> remote.search.Ok? && |remote.search.value| > 0 && remote.generation.Ok?
    ensures run.generated.Some? <==> remote.search.Ok? && |remote.search.value| > 0
    ensures remote.search.Err? ==> run.outcome == Err(SearchFailed + remote.search.error) && run.retrieved == []
    ensures remote.search == Ok([]) ==> run.outcome == Err(NoResults) && run.retrieved == []
    ensures run.generated.Some? ==>
      run.retrieved == Titles(remote.search.value) &&
      run.generated.value == GenerationRequest(model, BuildPrompt(question, ContextOf(remote.search.value)))
    ensures run.generated.Some? && remote.generation.Err? ==> run.outcome == Err(GenerationFailed + remote.generation.error)
    ensures run.outcome.Ok? ==> run.outcome.value == TrimSpace(remote.generation.value)
  {
    match remote.search
    case Err(e) => Run(Err(SearchFailed + e), [], None)
    case Ok(hits) =>
      if |hits| == 0 then Run(Err(NoResults), [], None)
      else
        var request := GenerationRequest(model, BuildPrompt(question, ContextOf(hits)));
        match remote.generation
        case Err(e) => Run(Err(GenerationFailed + e), Titles(hits), Some(request))
        case Ok(answer) => Run(Ok(TrimSpace(answer)), Titles(hits), Some(request))
  }

  /** `performRAG` step by step. */
  method PerformRag(question: Bytes, model: Bytes, remote: Remote) returns (run: Run)
    ensures run == RagRun(question, model, remote)
  {
    if remote.search.Err? {
      return Run(Err(SearchFailed + remote.search.error), [], None);
    }
    var hits := remote.search.value;
    if |hits| == 0 {
      return Run(Err(NoResults), [], None);
    }
    var context, requested := AssembleContext(hits);
    var request := GenerationRequest(model, BuildPrompt(question, context));
    if remote.generation.Err? {
      return Run(Err(GenerationFailed + remote.generation.error), requested, Some(request));
    }
    return Run(Ok(TrimSpace(remote.generation.value)), requested, Some(request));
  }

  /** When the search finds titles but every retrieval fails, the question still
      reaches the generation service, with an empty context. */
  lemma GeneratesWithoutContent(question: Bytes, model: Bytes, remote: Remote)
    requires remote.search.Ok? && |remote.search.value| > 0
    requires forall i :: 0 <= i < |remote.search.value| ==> remote.search.value[i].content.Err?
    ensures RagRun(question, model, remote).generated == Some(GenerationRequest(model, BuildPrompt(question, [])))
  {
    NoSuccessEmptyContext(remote.search.value);
  }

  /** A successful answer never starts or ends with white space. */
  lemma AnswerTrimmed(question: Bytes, model: Bytes, remote: Remote)
    requires RagRun(question, model, remote).outcome.Ok?
    ensures var a := RagRun(question, model, remote).outcome.value;
      a == [] || (!IsSpace(a[0]) && !IsSpace(a[|a| - 1]))
  {
  }

  /** Two successful retrievals under the size limit give two blocks, numbered
      1 and 2, in search order, without a truncation marker. */
  lemma TwoArticles(t1: Bytes, c1: Bytes, t2: Bytes, c2: Bytes)
    requires |c1| <= MaxContent && |c2| <= MaxContent
    ensures ContextOf([Hit(t1, Ok(c1)), Hit(t2, Ok(c2))]) ==
      ArticleOpen + Ascii("1") + ArticleColon + t1 + ArticleClose + c1 + BlockEnd +
      (ArticleOpen + Ascii("2") + ArticleColon + t2 + ArticleClose + c2 + BlockEnd)
  {
    var hits := [Hit(t1, Ok(c1)), Hit(t2, Ok(c2))];
    assert hits[..1] == [Hit(t1, Ok(c1))];
    assert hits[..1][..0] == [];
    assert ContextOf(hits[..1]) == Piece(0, hits[0]);
    assert Decimal(1) == Ascii("1");
    assert Decimal(2) == Ascii("2");
    assert ContextOf(hits) == Piece(0, hits[0]) + Piece(1, hits[1]);
  }

  /** When the first of two retrievals fails, the context is the second
      article's block alone, still numbered 2. */
  lemma FirstOfTwoFails(e: Bytes, t1: Bytes, t2: Bytes, c2: Bytes)
    ensures ContextOf([Hit(t1, Err(e)), Hit(t2, Ok(c2))]) == Block(2, t2, c2)
  {
    var hits := [Hit(t1, Err(e)), Hit(t2, Ok(c2))];
    assert hits[..1] == [Hit(t1, Err(e))];
    assert hits[..1][..0] == [];
    assert ContextOf(hits[..1]) == [];
    assert ContextOf(hits) == Piece(1, hits[1]);
  }
}
