/** `batch_summarize` and the bullet list of `generate_script`: the slide
    records are cut into batches of `batch_size`, each batch is listed as
    `Slide k: content` entries, the reply to each listing is split into lines
    and cleaned, and the kept lines are the summaries. The language model is a
    function from the listing to the reply. */
module Summarizer {
  import opened Text
  import opened SlideExtraction

  datatype Result<T> = Success(value: T) | Failure(error: string)

  /** The default `batch_size`. */
  const DefaultBatchSize: nat := 5

  function Min(a: int, b: int): int {
    if a <= b then a else b
  }

  // ---------------------------------------------------------------------------
  // Batches

  /** Python's `s[lo:hi]` for `0 <= lo <= hi`: both ends are clamped to the
      length. */
  function Slice<T>(s: seq<T>, lo: nat, hi: nat): seq<T>
    requires lo <= hi
  {
    s[Min(lo, |s|)..Min(hi, |s|)]
  }

  /** The batches taken at `i`, `i + b`, `i + 2b`, ... while below `total`. */
  function BatchesFrom<T>(s: seq<T>, total: nat, b: nat, i: nat): seq<seq<T>>
    requires b > 0
    decreases total - i
  {
    if i >= total then [] else [Slice(s, i, i + b)] + BatchesFrom(s, total, b, i + b)
  }

  /** `slide_content[i:i + batch_size]` for each `i` in `range(0, total_slide, batch_size)`. */
  function Batches<T>(s: seq<T>, total: nat, b: nat): seq<seq<T>>
    requires b > 0
  {
    BatchesFrom(s, total, b, 0)
  }

  /** The batches one after the other. */
  function Concat<T>(ss: seq<seq<T>>): seq<T> {
    if |ss| == 0 then [] else ss[0] + Concat(ss[1..])
  }

  // ---------------------------------------------------------------------------
  // The listing, the reply and the bullet list

  /** One entry of `slides_text`. */
  function Entry(d: SlideData): string {
    "Slide " + NatToString(d.slideNumber) + ": " + d.content
  }

  /** The entries of a batch, in order. */
  function Entries(batch: seq<SlideData>): (es: seq<string>)
    ensures |es| == |batch| && forall k :: 0 <= k < |batch| ==> es[k] == Entry(batch[k])
  {
    seq(|batch|, k requires 0 <= k < |batch| => Entry(batch[k]))
  }

  /** `slides_text`: the entries joined by a blank line. */
  function Listing(batch: seq<SlideData>): string {
    Join(Entries(batch), "\n\n")
  }

  /** One reply line after `strip("-• ")` and `strip()`. */
  function CleanLine(line: string): string {
    Strip(Strip(line, BulletEdge), PySpace)
  }

  /** Every line cleaned, in order. */
  function Cleaned(lines: seq<string>): (cs: seq<string>)
    ensures |cs| == |lines| && forall k :: 0 <= k < |lines| ==> cs[k] == CleanLine(lines[k])
  {
    seq(|lines|, k requires 0 <= k < |lines| => CleanLine(lines[k]))
  }

  /** The texts that are not empty, in order. */
  function NonEmpty(ts: seq<string>): seq<string> {
    if |ts| == 0 then []
    else NonEmpty(ts[..|ts| - 1]) + (if ts[|ts| - 1] != "" then [ts[|ts| - 1]] else [])
  }

  /** The summaries one reply yields: the stripped reply cut at newlines, each
      line cleaned and the empty ones dropped. */
  function ReplyLines(reply: string): seq<string> {
    NonEmpty(Cleaned(SplitOn(Strip(reply, PySpace), "\n")))
  }

  /** The summaries of the given batches, batch after batch. */
  function RepliesOf(batches: seq<seq<SlideData>>, ask: string -> string): seq<string> {
    if |batches| == 0 then [] else ReplyLines(ask(Listing(batches[0]))) + RepliesOf(batches[1..], ask)
  }

  /** What `batch_summarize` returns for a positive batch size. */
  function Summaries(content: seq<SlideData>, total: nat, b: nat, ask: string -> string): seq<string>
    requires b > 0
  {
    RepliesOf(Batches(content, total, b), ask)
  }

  /** The bullet lines of `generate_script`. */
  function Bulleted(ss: seq<string>): (bs: seq<string>)
    ensures |bs| == |ss| && forall k :: 0 <= k < |ss| ==> bs[k] == "- " + ss[k]
  {
    seq(|ss|, k requires 0 <= k < |ss| => "- " + ss[k])
  }

  /** `summaries_text`: one bullet line per summary. */
  function Bullets(ss: seq<string>): string {
    Join(Bulleted(ss), "\n")
  }

  // ---------------------------------------------------------------------------
  // Properties of the batches

  lemma MulStep(m: int, b: int)
    ensures (m + 1) * b == m * b + b && (m - 1) * b == m * b - b
  {
  }

  /** `a <= c` gives `a * b <= c * b` for a non-negative `b`. */
  lemma {:induction false} MulLe(a: nat, c: nat, b: nat)
    requires a <= c
    ensures a * b <= c * b
    decreases c - a
  {
    if a < c {
      MulLe(a + 1, c, b);
      MulStep(a, b);
    }
  }

  /** The number of batches is the ceiling of `(total - i) / b`: the fewest
      batches of `b` that reach `total`. */
  lemma {:induction false} BatchCount<T>(s: seq<T>, total: nat, b: nat, i: nat)
    requires b > 0
    ensures var n := |BatchesFrom(s, total, b, i)|;
      (i >= total ==> n == 0) && (i < total ==> (n - 1) * b < total - i <= n * b)
    decreases total - i
  {
    if i < total {
      var m := |BatchesFrom(s, total, b, i + b)|;
      BatchCount(s, total, b, i + b);
      MulStep(m, b);
    }
  }

  /** Batch `k` is the slice that starts `k` steps after `i`. */
  lemma {:induction false} BatchAt<T>(s: seq<T>, total: nat, b: nat, i: nat, k: nat)
    requires b > 0 && k < |BatchesFrom(s, total, b, i)|
    ensures BatchesFrom(s, total, b, i)[k] == Slice(s, i + k * b, i + k * b + b)
    decreases total - i
  {
    if k > 0 {
      BatchAt(s, total, b, i + b, k - 1);
      MulStep(k - 1, b);
    }
  }

  lemma AdjacentSlices<T>(s: seq<T>, a: nat, c: nat, d: nat)
    requires a <= c <= d
    ensures s[Min(a, |s|)..Min(c, |s|)] + s[Min(c, |s|)..Min(d, |s|)] == s[Min(a, |s|)..Min(d, |s|)]
  {
  }

  /** Where the batches taken at `i` end: the first step at or past `total`. */
  function BatchesEnd(total: nat, b: nat, i: nat): (e: nat)
    requires b > 0
    ensures i <= e
    decreases total - i
  {
    if i >= total then i else BatchesEnd(total, b, i + b)
  }

  /** The batches end `n` steps after `i`, `n` being their number. */
  lemma {:induction false} BatchesEndAt<T>(s: seq<T>, total: nat, b: nat, i: nat)
    requires b > 0
    ensures BatchesEnd(total, b, i) == i + |BatchesFrom(s, total, b, i)| * b
    decreases total - i
  {
    if i < total {
      BatchesEndAt(s, total, b, i + b);
      MulStep(|BatchesFrom(s, total, b, i + b)|, b);
    }
  }

  /** Taken together, the batches are the entries from `i` up to the end of the
      last batch, each once and in order. */
  lemma {:induction false} BatchesFromCover<T>(s: seq<T>, total: nat, b: nat, i: nat)
    requires b > 0
    ensures Concat(BatchesFrom(s, total, b, i)) == s[Min(i, |s|)..Min(BatchesEnd(total, b, i), |s|)]
    decreases total - i
  {
    if i < total {
      var bs := BatchesFrom(s, total, b, i);
      var x := Slice(s, i, i + b);
      var rest := BatchesFrom(s, total, b, i + b);
      assert bs == [x] + rest;
      assert bs[0] == x && bs[1..] == rest;
      assert Concat(bs) == x + Concat(rest);
      BatchesFromCover(s, total, b, i + b);
      AdjacentSlices(s, i, i + b, BatchesEnd(total, b, i + b));
    }
  }

  /** The batches cover the first `total` records exactly once and in order, and
      all the records when `total` is their number. */
  lemma BatchesCover<T>(s: seq<T>, total: nat, b: nat)
    requires b > 0
    ensures total <= |s| ==> s[..total] <= Concat(Batches(s, total, b))
    ensures total == |s| ==> Concat(Batches(s, total, b)) == s
  {
    BatchCount(s, total, b, 0);
    BatchesEndAt(s, total, b, 0);
    BatchesFromCover(s, total, b, 0);
  }

  /** With no more than `|s|` to cover, every batch but the last is full and the
      last is not empty. */
  lemma BatchSizes<T>(s: seq<T>, total: nat, b: nat)
    requires b > 0 && total <= |s|
    ensures var bs := Batches(s, total, b);
      && (forall k :: 0 <= k < |bs| - 1 ==> |bs[k]| == b)
      && (|bs| > 0 ==> 0 < |bs[|bs| - 1]| <= b)
  {
    var bs := Batches(s, total, b);
    var n := |bs|;
    BatchCount(s, total, b, 0);
    forall k | 0 <= k < n - 1 ensures |bs[k]| == b {
      BatchAt(s, total, b, 0, k);
      MulLe(k + 1, n - 1, b);
      MulStep(k, b);
    }
    if n > 0 {
      BatchAt(s, total, b, 0, n - 1);
      MulStep(n - 1, b);
    }
  }

  /** The records of a presentation, as extracted, are summarized in batches of
      the default size that take every record once, in slide order: all batches
      but the last hold five records. */
  lemma ExtractedBatches(data: Extracted)
    requires data.slideCount == |data.slideContent|
    ensures Concat(Batches(data.slideContent, data.slideCount, DefaultBatchSize)) == data.slideContent
    ensures var bs := Batches(data.slideContent, data.slideCount, DefaultBatchSize);
      forall k :: 0 <= k < |bs| - 1 ==> |bs[k]| == DefaultBatchSize
  {
    BatchesCover(data.slideContent, data.slideCount, DefaultBatchSize);
    BatchSizes(data.slideContent, data.slideCount, DefaultBatchSize);
  }

  // ---------------------------------------------------------------------------
  // Properties of the listing, the reply clean-up and the bullet list

  /** The listing of two batches back to back is their listings with a blank
      line between. */
  lemma ListingAppend(a: seq<SlideData>, c: seq<SlideData>)
    requires |a| > 0 && |c| > 0
    ensures Listing(a + c) == Listing(a) + "\n\n" + Listing(c)
  {
    assert Entries(a + c) == Entries(a) + Entries(c);
    JoinAppend(Entries(a), Entries(c), "\n\n");
  }

  /** Dropping empty texts distributes over concatenation: kept texts stay in
      order. */
  lemma {:induction false} NonEmptyAppend(xs: seq<string>, ys: seq<string>)
    ensures NonEmpty(xs + ys) == NonEmpty(xs) + NonEmpty(ys)
    decreases |ys|
  {
    if |ys| == 0 {
      assert xs + ys == xs;
    } else {
      var zs := xs + ys;
      assert zs[..|zs| - 1] == xs + ys[..|ys| - 1];
      NonEmptyAppend(xs, ys[..|ys| - 1]);
      AppendAssoc(NonEmpty(xs), NonEmpty(ys[..|ys| - 1]),
                  if ys[|ys| - 1] != "" then [ys[|ys| - 1]] else []);
    }
  }

  /** What is kept is non-empty and comes from the input, and there is no more
      of it. */
  lemma {:induction false} NonEmptyKeeps(ts: seq<string>)
    ensures |NonEmpty(ts)| <= |ts|
    ensures forall k :: 0 <= k < |NonEmpty(ts)| ==> NonEmpty(ts)[k] != "" && NonEmpty(ts)[k] in ts
  {
    if |ts| > 0 {
      var n := |ts|;
      NonEmptyKeeps(ts[..n - 1]);
      assert ts == ts[..n - 1] + [ts[n - 1]];
      forall x | x in ts[..n - 1] ensures x in ts {
      }
    }
  }

  /** Nothing is dropped from texts that are all non-empty. */
  lemma {:induction false} NonEmptyAll(ts: seq<string>)
    requires forall k :: 0 <= k < |ts| ==> ts[k] != ""
    ensures NonEmpty(ts) == ts
  {
    if |ts| > 0 {
      var n := |ts|;
      var init := ts[..n - 1];
      assert forall k :: 0 <= k < |init| ==> init[k] == ts[k];
      NonEmptyAll(init);
      assert ts == init + [ts[n - 1]];
    }
  }

  /** One more text for the filter. */
  lemma NonEmptyStep(cs: seq<string>, j: nat, next: nat)
    requires j < |cs| && next == j + 1
    ensures NonEmpty(cs[..next]) == NonEmpty(cs[..j]) + (if cs[j] != "" then [cs[j]] else [])
  {
    assert cs[..next][..j] == cs[..j];
  }

  /** A cleaned line is stripped of whitespace, and a line without a newline
      stays without one. */
  lemma CleanLineClean(line: string)
    ensures Stripped(CleanLine(line), PySpace)
    ensures !Contains(line, "\n") ==> !Contains(CleanLine(line), "\n")
  {
    if !Contains(line, "\n") {
      StripKeepsOut(line, BulletEdge, '\n');
      StripKeepsOut(Strip(line, BulletEdge), PySpace, '\n');
    }
  }

  /** Every summary a reply yields is non-empty, stripped and a single line. */
  lemma ReplyLinesClean(reply: string)
    ensures forall k :: 0 <= k < |ReplyLines(reply)| ==>
      ReplyLines(reply)[k] != "" && Stripped(ReplyLines(reply)[k], PySpace)
      && !Contains(ReplyLines(reply)[k], "\n")
  {
    var lines := SplitOn(Strip(reply, PySpace), "\n");
    var cs := Cleaned(lines);
    NonEmptyKeeps(cs);
    forall k | 0 <= k < |ReplyLines(reply)|
      ensures Stripped(ReplyLines(reply)[k], PySpace) && !Contains(ReplyLines(reply)[k], "\n")
    {
      var j :| 0 <= j < |cs| && cs[j] == ReplyLines(reply)[k];
      CleanLineClean(lines[j]);
    }
  }

  /** The summaries of consecutive runs of batches follow each other. */
  lemma {:induction false} RepliesAppend(xs: seq<seq<SlideData>>, ys: seq<seq<SlideData>>, ask: string -> string)
    ensures RepliesOf(xs + ys, ask) == RepliesOf(xs, ask) + RepliesOf(ys, ask)
  {
    if |xs| > 0 {
      assert (xs + ys)[1..] == xs[1..] + ys;
      RepliesAppend(xs[1..], ys, ask);
      AppendAssoc(ReplyLines(ask(Listing(xs[0]))), RepliesOf(xs[1..], ask), RepliesOf(ys, ask));
    } else {
      assert xs + ys == ys;
    }
  }

  /** The bullet list, cut at newlines, gives back one bullet line per summary
      when no summary holds a newline. */
  lemma BulletLines(ss: seq<string>)
    requires |ss| > 0
    requires forall k :: 0 <= k < |ss| ==> !Contains(ss[k], "\n")
    ensures SplitOn(Bullets(ss), "\n") == Bulleted(ss)
  {
    var bs := Bulleted(ss);
    ContainsChar("- ", '\n');
    ContainsChar("", '\n');
    forall k | 0 <= k < |bs| ensures !Contains(bs[k], "\n") {
      NoCharInside("- ", ss[k], "", '\n');
      assert "- " + ss[k] + "" == bs[k];
    }
    SplitJoinChar(bs, "\n");
  }

  /** A bullet line reads back as its summary when the summary neither starts nor
      ends with whitespace, a dash or a bullet. */
  lemma CleanBullet(t: string)
    requires t != "" && Stripped(t, BulletEdge) && Stripped(t, PySpace)
    ensures CleanLine("- " + t) == t
  {
    assert "- " + t == "- " + t + "";
    StripPadded("- ", t, "", BulletEdge);
    StripNothing(t, PySpace);
  }

  /** A non-empty bullet list is already stripped of whitespace when its last
      summary does not end with any. */
  lemma BulletsStripped(ss: seq<string>)
    requires |ss| > 0 && ss[|ss| - 1] != "" && Stripped(ss[|ss| - 1], PySpace)
    ensures Strip(Bullets(ss), PySpace) == Bullets(ss)
  {
    var bs := Bulleted(ss);
    JoinFirst(bs, "\n");
    JoinLast(bs, "\n");
    StripNothing(Bullets(ss), PySpace);
  }

  /** An empty reply yields no summary. */
  lemma ReplyLinesEmpty()
    ensures ReplyLines("") == []
  {
    StripNothing("", PySpace);
    ContainsChar("", '\n');
    SplitNone("", "\n");
    assert Cleaned([""]) == [""];
    assert NonEmpty([""]) == NonEmpty([]) + [];
  }

  /** Cleaning the bullet lines gives the summaries back. */
  lemma CleanedBullets(ss: seq<string>)
    requires forall k :: 0 <= k < |ss| ==> ss[k] != "" && Stripped(ss[k], BulletEdge) && Stripped(ss[k], PySpace)
    ensures Cleaned(Bulleted(ss)) == ss
  {
    forall k | 0 <= k < |ss| ensures Cleaned(Bulleted(ss))[k] == ss[k] {
      CleanBullet(ss[k]);
    }
  }

  /** Read back: a bullet list given as the reply yields its summaries again,
      when each summary is a non-empty single line that neither starts nor ends
      with whitespace, a dash or a bullet. */
  lemma BulletsRoundTrip(ss: seq<string>)
    requires forall k :: 0 <= k < |ss| ==>
      ss[k] != "" && Stripped(ss[k], BulletEdge) && Stripped(ss[k], PySpace) && !Contains(ss[k], "\n")
    ensures ReplyLines(Bullets(ss)) == ss
  {
    if |ss| == 0 {
      assert Bullets(ss) == "";
      ReplyLinesEmpty();
    } else {
      var text := Bullets(ss);
      BulletsStripped(ss);
      BulletLines(ss);
      CleanedBullets(ss);
      NonEmptyAll(ss);
      assert ReplyLines(text) == NonEmpty(Cleaned(Bulleted(ss)));
    }
  }

  // ---------------------------------------------------------------------------
  // The loop

  /** The batches at `i` are the batch at `i` followed by those at `next`. */
  lemma RepliesStep(content: seq<SlideData>, total: nat, b: nat, i: nat, next: nat, ask: string -> string)
    requires b > 0 && i < total && next == i + b
    ensures RepliesOf(BatchesFrom(content, total, b, i), ask)
         == ReplyLines(ask(Listing(Slice(content, i, next)))) + RepliesOf(BatchesFrom(content, total, b, next), ask)
  {
    assert BatchesFrom(content, total, b, i)[1..] == BatchesFrom(content, total, b, next);
  }

  /** The inner loop of `batch_summarize`: the reply is stripped and cut at
      newlines, and each line that is not empty once cleaned is appended. */
  method AppendReplyLines(summaries: seq<string>, reply: string) returns (summaries': seq<string>)
    ensures summaries' == summaries + ReplyLines(reply)
  {
    var batchSummary := Strip(reply, PySpace);
    var lines := SplitOn(batchSummary, "\n");
    ghost var cs := Cleaned(lines);
    summaries' := summaries;
    var j := 0;
    while j < |lines|
      invariant j <= |lines|
      invariant summaries' == summaries + NonEmpty(cs[..j])
    {
      var line := Strip(Strip(lines[j], BulletEdge), PySpace);
      var next := j + 1;
      NonEmptyStep(cs, j, next);
      if line != "" {
        AppendAssoc(summaries, NonEmpty(cs[..j]), [line]);
        summaries' := summaries' + [line];
      } else {
        AppendEmpty(NonEmpty(cs[..j]));
      }
      j := next;
    }
    assert cs[..j] == cs;
  }

  /** One pass of the batch loop: the batch at `i` is listed, the reply to the
      listing is cleaned and its kept lines are appended. */
  method SummarizeBatch(summaries: seq<string>, content: seq<SlideData>, total: nat, b: nat, i: nat,
                        ask: string -> string)
    returns (summaries': seq<string>, next: nat)
    requires b > 0 && i < total
    ensures next == i + b
    ensures summaries' + RepliesOf(BatchesFrom(content, total, b, next), ask)
         == summaries + RepliesOf(BatchesFrom(content, total, b, i), ask)
  {
    next := i + b;
    var batch := Slice(content, i, next);
    var slidesText := Listing(batch);
    summaries' := AppendReplyLines(summaries, ask(slidesText));
    RepliesStep(content, total, b, i, next, ask);
    AppendAssoc(summaries, ReplyLines(ask(slidesText)), RepliesOf(BatchesFrom(content, total, b, next), ask));
  }

  /** `batch_summarize`: a zero batch size is the `ValueError` of `range`; a
      negative one gives no batches; otherwise each batch's reply is cleaned
      and its kept lines are appended in order. */
  method BatchSummarize(content: seq<SlideData>, total: nat, batchSize: int, ask: string -> string)
    returns (r: Result<seq<string>>)
    ensures batchSize == 0 <==> r.Failure?
    ensures batchSize < 0 ==> r == Success([])
    ensures batchSize > 0 ==> r == Success(Summaries(content, total, batchSize, ask))
  {
    if batchSize == 0 {
      return Failure("range() arg 3 must not be zero");
    }
    if batchSize < 0 {
      // a negative step never goes from 0 up to a stop that is not negative
      return Success([]);
    }
    var summaries: seq<string> := [];
    var i: nat := 0;
    while i < total
      invariant summaries + RepliesOf(BatchesFrom(content, total, batchSize, i), ask)
             == Summaries(content, total, batchSize, ask)
      decreases total - i
    {
      summaries, i := SummarizeBatch(summaries, content, total, batchSize, i, ask);
    }
    AppendEmpty(summaries);
    return Success(summaries);
  }
}
