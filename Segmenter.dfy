/** The narration-script segmenter of the script panel: `parseSlides`, which cuts
    a flat script into per-slide records, and the reconstruction that
    `handleSaveEdit` writes back from the records. */
module ScriptSegmenter {
  import opened Text

  /** One entry of `parsedSlides`. */
  datatype ParsedSlide = ParsedSlide(slideNumber: string, content: string)

  const Marker: string := "Slide(s)"
  const BlockSeparator: string := "\n\n"

  // ---------------------------------------------------------------------------
  // Markers and the split

  /** `\s*\d` matches at the start of `s`. */
  predicate DigitAfterSpaces(s: string)
    decreases |s|
  {
    |s| > 0 && (IsDigit(s[0]) || (InClass(s[0], JsSpace) && DigitAfterSpaces(s[1..])))
  }

  /** The split pattern's lookahead `Slide\(s\)\s*\d+` matches at the start of `s`. */
  predicate StartsMarker(s: string) {
    HasPrefix(s, Marker) && DigitAfterSpaces(s[|Marker|..])
  }

  /** A marker starts at position `q` of `s`. */
  predicate MarkerAt(s: string, q: nat) {
    q <= |s| && StartsMarker(s[q..])
  }

  /** No marker starts anywhere inside `s`. */
  predicate NoMarker(s: string) {
    forall j :: 0 <= j < |s| ==> !MarkerAt(s, j)
  }

  /** The first position at or after `i` where a marker starts, or `|s|`. */
  function NextMarker(s: string, i: nat): (k: nat)
    requires i <= |s|
    ensures i <= k <= |s|
    ensures k < |s| ==> MarkerAt(s, k)
    ensures forall j :: i <= j < k ==> !MarkerAt(s, j)
    decreases |s| - i
  {
    if i == |s| then |s|
    else if MarkerAt(s, i) then i
    else NextMarker(s, i + 1)
  }

  /** `script.split(/(?=Slide\(s\)\s*\d+)/)`: `s` cut just before every marker. A
      marker at position 0 yields no cut, because the zero-width match there ends
      where the previous piece began; the empty string is one empty piece. */
  function Split(s: string): (parts: seq<string>)
    ensures |parts| >= 1
    decreases |s|
  {
    if |s| == 0 then [s]
    else
      var k := NextMarker(s, 1);
      if k == |s| then [s] else [s[..k]] + Split(s[k..])
  }

  /** The pieces of the split put back together are the script. */
  lemma {:induction false} SplitCovers(s: string)
    ensures Join(Split(s), "") == s
    decreases |s|
  {
    if |s| > 0 {
      var k := NextMarker(s, 1);
      if k < |s| {
        SplitCovers(s[k..]);
        JoinCons(s[..k], Split(s[k..]), "");
        AppendEmpty(s[..k]);
        TakeDrop(s, k);
      }
    }
  }

  /** A run of whitespace and a digit keeps matching when the text is cut where
      an `S` begins, or at its end: `S` is neither whitespace nor a digit. */
  lemma {:induction false} DigitAfterSpacesCut(d: string, j: nat)
    requires DigitAfterSpaces(d) && j <= |d| && (j == |d| || d[j] == 'S')
    ensures DigitAfterSpaces(d[..j])
    decreases |d|
  {
    if j == |d| {
      assert d[..j] == d;
    } else if !IsDigit(d[0]) {
      assert j > 0;
      DigitAfterSpacesCut(d[1..], j - 1);
      assert d[..j][1..] == d[1..][..j - 1];
    }
  }

  /** The first part of the split of a text that starts with a marker starts
      with that marker: the next cut lies after the whole of it. */
  lemma FirstPartMarker(t: string)
    requires StartsMarker(t)
    ensures StartsMarker(Split(t)[0])
  {
    var k := NextMarker(t, 1);
    if k < |t| {
      assert t[k..][0] == 'S';
      var d := t[|Marker|..];
      assert k > |Marker|;
      assert d[k - |Marker|] == 'S';
      DigitAfterSpacesCut(d, k - |Marker|);
      assert t[..k][..|Marker|] == Marker;
      assert t[..k][|Marker|..] == d[..k - |Marker|];
    }
  }

  /** Every part of the split after the first starts with a marker: the split
      cuts only where the lookahead matches. */
  lemma {:induction false} SplitCutsAtMarkers(s: string)
    ensures forall i :: 0 < i < |Split(s)| ==> StartsMarker(Split(s)[i])
    decreases |s|
  {
    if |s| > 0 {
      var k := NextMarker(s, 1);
      if k < |s| {
        var rest := s[k..];
        SplitCutsAtMarkers(rest);
        FirstPartMarker(rest);
        assert Split(s) == [s[..k]] + Split(rest);
      }
    }
  }

  // ---------------------------------------------------------------------------
  // Matching one piece

  /** Length of the run of decimal digits at the start of `s` (`\d+` is greedy). */
  function DigitRun(s: string): (k: nat)
    ensures k <= |s| && AllDigits(s[..k])
    ensures k < |s| ==> !IsDigit(s[k])
  {
    if |s| == 0 || !IsDigit(s[0]) then 0
    else
      var k := 1 + DigitRun(s[1..]);
      assert s[..k] == [s[0]] + s[1..][..k - 1];
      k
  }

  /** The captures of `/^Slide\(s\)\s*(\d+)(?:-(\d+))?:\s*([\s\S]*)$/`: the start
      number, the end number when a range is given, and capture 3, the text after
      the colon without its leading whitespace. */
  datatype Header = Header(start: nat, end: Option<nat>, body: string)

  /** The text after the leading whitespace that `\s*` consumes. */
  function SkipSpaces(s: string): string {
    s[LeadRun(s, JsSpace)..]
  }

  /** `part.match(...)` for the header pattern. Digits, whitespace, `-` and `:`
      are disjoint, so the greedy match is the only one and no backtracking can
      change the captures. */
  function MatchHeader(part: string): Option<Header> {
    if !HasPrefix(part, Marker) then None
    else MatchNumbers(SkipSpaces(part[|Marker|..]))
  }

  /** The rest of the header pattern, `(\d+)(?:-(\d+))?:\s*([\s\S]*)$`, at the start
      of `d`. */
  function MatchNumbers(d: string): Option<Header> {
    var n := DigitRun(d);
    if n == 0 || n == |d| then None
    else if d[n] == ':' then Some(Header(DigitsValue(d[..n]), None, SkipSpaces(d[n + 1..])))
    else if d[n] == '-' then
      match MatchEnd(d[n + 1..])
      case None => None
      case Some(tail) => Some(Header(DigitsValue(d[..n]), Some(tail.0), tail.1))
    else None
  }

  /** The range end and what follows it, `(\d+):\s*([\s\S]*)$`, at the start of `e`. */
  function MatchEnd(e: string): Option<(nat, string)> {
    var m := DigitRun(e);
    if m == 0 || m == |e| || e[m] != ':' then None
    else Some((DigitsValue(e[..m]), SkipSpaces(e[m + 1..])))
  }

  lemma {:induction false} DigitAfterLead(a: string)
    requires LeadRun(a, JsSpace) < |a| && IsDigit(SkipSpaces(a)[0])
    ensures DigitAfterSpaces(a)
    decreases |a|
  {
    if !IsDigit(a[0]) {
      assert InClass(a[0], JsSpace);
      DigitAfterLead(a[1..]);
    }
  }

  lemma MatchNumbersDigit(d: string)
    requires MatchNumbers(d).Some?
    ensures |d| > 0 && IsDigit(d[0])
  {
  }

  /** Only a piece that starts with a marker can match the header pattern. */
  lemma MatchHeaderMarker(part: string)
    requires MatchHeader(part).Some?
    ensures StartsMarker(part)
  {
    var a := part[|Marker|..];
    MatchNumbersDigit(SkipSpaces(a));
    DigitAfterLead(a);
  }

  /** `end` in `parseSlides`: the range end, or the start when there is no range. */
  function LastNumber(h: Header): nat {
    if h.end.Some? then h.end.value else h.start
  }

  /** The records the counting loop pushes for `i` from `start` up to `end`. */
  function Expand(i: nat, end: nat, content: string): seq<ParsedSlide>
    decreases if i <= end then end + 1 - i else 0
  {
    if i > end then [] else [ParsedSlide(NatToString(i), content)] + Expand(i + 1, end, content)
  }

  /** The records one piece of the split contributes. */
  function PieceSlides(part: string): seq<ParsedSlide> {
    match MatchHeader(part)
    case None => []
    case Some(h) => Expand(h.start, LastNumber(h), Strip(h.body, JsSpace))
  }

  function ParsePieces(parts: seq<string>): seq<ParsedSlide> {
    if |parts| == 0 then [] else PieceSlides(parts[0]) + ParsePieces(parts[1..])
  }

  /** What `parseSlides(script)` returns. */
  function Parse(text: string): seq<ParsedSlide> {
    ParsePieces(Split(text))
  }

  /** Parsing distributes over the pieces of a split. */
  lemma {:induction false} ParsePiecesAppend(xs: seq<string>, ys: seq<string>)
    ensures ParsePieces(xs + ys) == ParsePieces(xs) + ParsePieces(ys)
  {
    if |xs| == 0 {
      assert xs + ys == ys;
    } else {
      assert (xs + ys)[1..] == xs[1..] + ys;
      ParsePiecesAppend(xs[1..], ys);
      AppendAssoc(PieceSlides(xs[0]), ParsePieces(xs[1..]), ParsePieces(ys));
    }
  }

  /** One more piece parsed: the records of the next piece follow those so far. */
  lemma ParsePiecesStep(parts: seq<string>, p: nat)
    requires p < |parts|
    ensures ParsePieces(parts[..p + 1]) == ParsePieces(parts[..p]) + PieceSlides(parts[p])
  {
    assert parts[..p + 1] == parts[..p] + [parts[p]];
    ParsePiecesAppend(parts[..p], [parts[p]]);
    assert [parts[p]][1..] == [];
    AppendEmpty(PieceSlides(parts[p]));
  }

  /** `parseSlides`: the split at the lookahead, then the loop of ParseParts over
      the pieces. */
  method ParseSlides(text: string) returns (slides: seq<ParsedSlide>)
    ensures slides == Parse(text)
  {
    slides := ParseParts(Split(text));
  }

  /** The `for (const part of parts)` loop: ParsePiece does the work for each
      piece, in turn. */
  method ParseParts(parts: seq<string>) returns (slides: seq<ParsedSlide>)
    ensures slides == ParsePieces(parts)
  {
    slides := [];
    var p := 0;
    while p < |parts|
      invariant p <= |parts|
      invariant slides == ParsePieces(parts[..p])
    {
      ParsePiecesStep(parts, p);
      slides := ParsePiece(slides, parts[p]);
      p := p + 1;
    }
    assert parts[..p] == parts;
  }

  /** The body of the loop of `parseSlides` for one piece: a piece matching the
      header pattern hands its numbers and trimmed body to the counting loop of
      PushRange; any other piece adds nothing. */
  method ParsePiece(slides: seq<ParsedSlide>, part: string) returns (pushed: seq<ParsedSlide>)
    ensures pushed == slides + PieceSlides(part)
  {
    var m := MatchHeader(part);
    if m.Some? {
      var start := m.value.start;
      var end := if m.value.end.Some? then m.value.end.value else start;
      pushed := PushRange(slides, start, end, Strip(m.value.body, JsSpace));
      PieceSlidesOf(part, m.value);
    } else {
      pushed := slides;
      AppendEmpty(slides);
    }
  }

  /** The inner loop of `parseSlides`: push one record per slide number from
      `start` up to `end`, all with the same content. */
  method PushRange(slides: seq<ParsedSlide>, start: nat, end: nat, content: string)
    returns (pushed: seq<ParsedSlide>)
    ensures pushed == slides + Expand(start, end, content)
  {
    pushed := slides;
    var i := start;
    while i <= end
      invariant start <= i
      invariant pushed + Expand(i, end, content) == slides + Expand(start, end, content)
      decreases end + 1 - i
    {
      pushed := pushed + [ParsedSlide(NatToString(i), content)];
      i := i + 1;
    }
  }

  // ---------------------------------------------------------------------------
  // Reconstruction

  /** The header line `handleSaveEdit` writes for one record: `Slide(s) N:` and a
      newline. */
  function HeaderOf(r: ParsedSlide): string {
    Marker + " " + r.slideNumber + ":\n"
  }

  /** The block `handleSaveEdit` writes for one record. */
  function Block(r: ParsedSlide): string {
    HeaderOf(r) + r.content
  }

  /** `updatedSlides.map(...)`: the block of every record, in order. */
  function Blocks(rs: seq<ParsedSlide>): (bs: seq<string>)
    ensures |bs| == |rs|
  {
    if |rs| == 0 then [] else [Block(rs[0])] + Blocks(rs[1..])
  }

  /** The reconstructed script: one block per record, in order, joined by a blank
      line. Records that came from one range each get their own header. */
  function Reconstruct(rs: seq<ParsedSlide>): string {
    Join(Blocks(rs), BlockSeparator)
  }

  /** Reconstruction format: block `i` is the header and content of record `i`,
      so every record contributes its own header and ranges are never merged
      back. */
  lemma {:induction false} BlocksIndex(rs: seq<ParsedSlide>, i: nat)
    requires i < |rs|
    ensures Blocks(rs)[i] == HeaderOf(rs[i]) + rs[i].content
  {
    if i > 0 {
      BlocksIndex(rs[1..], i - 1);
    }
  }

  // ---------------------------------------------------------------------------
  // Range expansion and the header grammar

  /** `rs` holds one record per number from `lo` to `hi`, ascending, all with the
      same content; nothing when `hi < lo`. */
  predicate CountsUp(rs: seq<ParsedSlide>, lo: nat, hi: nat, content: string) {
    && |rs| == (if lo <= hi then hi - lo + 1 else 0)
    && forall k :: 0 <= k < |rs| ==> rs[k] == ParsedSlide(NatToString(lo + k), content)
  }

  /** What the counting loop yields. */
  lemma {:induction false} ExpandSpec(i: nat, end: nat, content: string)
    ensures CountsUp(Expand(i, end, content), i, end, content)
    decreases if i <= end then end + 1 - i else 0
  {
    if i <= end {
      ExpandSpec(i + 1, end, content);
      var rs := Expand(i, end, content);
      forall k | 0 < k < |rs| ensures rs[k] == ParsedSlide(NatToString(i + k), content) {
        assert rs[k] == Expand(i + 1, end, content)[k - 1];
      }
    }
  }

  lemma {:induction false} DigitRunOf(n: string, rest: string)
    requires AllDigits(n) && (rest == [] || !IsDigit(rest[0]))
    ensures DigitRun(n + rest) == |n|
    decreases |n|
  {
    if |n| == 0 {
      assert n + rest == rest;
    } else {
      assert (n + rest)[1..] == n[1..] + rest;
      DigitRunOf(n[1..], rest);
    }
  }

  /** Capture 3 is trimmed afterwards, so skipping its leading whitespace first
      changes nothing. */
  lemma SkipThenStrip(s: string)
    ensures Strip(SkipSpaces(s), JsSpace) == Strip(s, JsSpace)
  {
    var t := SkipSpaces(s);
    assert LeadRun(t, JsSpace) == 0;
    assert t[0..] == t;
  }

  /** After the marker text, the whitespace before the first number is skipped. */
  lemma MatchAfterSpaces(sp: string, d: string)
    requires AllIn(sp, JsSpace) && |d| > 0 && IsDigit(d[0])
    ensures MatchHeader(Marker + sp + d) == MatchNumbers(d)
  {
    var part := Marker + sp + d;
    assert part[..|Marker|] == Marker;
    assert part[|Marker|..] == sp + d;
    LeadRunPadded(sp, d, JsSpace);
    assert (sp + d)[|sp|..] == d;
  }

  /** The parts of a string cut at one character. */
  lemma CutAt(n: string, c: char, rest: string)
    ensures var d := n + [c] + rest; d[..|n|] == n && d[|n|] == c && d[|n| + 1..] == rest
  {
  }

  lemma MatchNumbersSingle(n: string, body: string)
    requires |n| > 0 && AllDigits(n)
    ensures MatchNumbers(n + ":" + body) == Some(Header(DigitsValue(n), None, SkipSpaces(body)))
  {
    var d := n + ":" + body;
    CutAt(n, ':', body);
    DigitRunOf(n, ":" + body);
    AppendAssoc(n, ":", body);
    MatchNumbersAt(d, |n|);
  }

  /** MatchNumbers in terms of where the first run of digits ends. */
  lemma MatchNumbersAt(d: string, k: nat)
    requires 0 < k < |d| && DigitRun(d) == k
    ensures d[k] == ':' ==> MatchNumbers(d) == Some(Header(DigitsValue(d[..k]), None, SkipSpaces(d[k + 1..])))
    ensures d[k] == '-' && MatchEnd(d[k + 1..]).Some? ==>
      MatchNumbers(d) == Some(Header(DigitsValue(d[..k]), Some(MatchEnd(d[k + 1..]).value.0),
                                     MatchEnd(d[k + 1..]).value.1))
  {
  }

  /** MatchEnd in terms of where its run of digits ends. */
  lemma MatchEndAt(e: string, k: nat)
    requires 0 < k < |e| && DigitRun(e) == k && e[k] == ':'
    ensures MatchEnd(e) == Some((DigitsValue(e[..k]), SkipSpaces(e[k + 1..])))
  {
  }

  lemma MatchEndOf(m: string, body: string)
    requires |m| > 0 && AllDigits(m)
    ensures MatchEnd(m + ":" + body) == Some((DigitsValue(m), SkipSpaces(body)))
  {
    var e := m + ":" + body;
    CutAt(m, ':', body);
    DigitRunOf(m, ":" + body);
    AppendAssoc(m, ":", body);
    MatchEndAt(e, |m|);
  }

  lemma MatchNumbersRange(n: string, m: string, body: string)
    requires |n| > 0 && AllDigits(n) && |m| > 0 && AllDigits(m)
    ensures MatchNumbers(n + "-" + (m + ":" + body))
         == Some(Header(DigitsValue(n), Some(DigitsValue(m)), SkipSpaces(body)))
  {
    var e := m + ":" + body;
    var d := n + "-" + e;
    MatchEndOf(m, body);
    CutAt(n, '-', e);
    DigitRunOf(n, "-" + e);
    AppendAssoc(n, "-", e);
    MatchNumbersAt(d, |n|);
  }

  /** A single-number header `Slide(s) N: body` is accepted, with N read as
      decimal (leading zeros lost) and no end number. */
  lemma MatchSingle(sp: string, n: string, body: string)
    requires AllIn(sp, JsSpace) && |n| > 0 && AllDigits(n)
    ensures MatchHeader(Marker + sp + n + ":" + body)
         == Some(Header(DigitsValue(n), None, SkipSpaces(body)))
  {
    MatchNumbersSingle(n, body);
    SeqAssoc(Marker + sp, n, ":", body);
    MatchAfterSpaces(sp, n + ":" + body);
  }

  /** A range header `Slide(s) N-M: body` is accepted, with both numbers read as
      decimal. */
  lemma MatchRange(sp: string, n: string, m: string, body: string)
    requires AllIn(sp, JsSpace) && |n| > 0 && AllDigits(n) && |m| > 0 && AllDigits(m)
    ensures MatchHeader(Marker + sp + n + "-" + m + ":" + body)
         == Some(Header(DigitsValue(n), Some(DigitsValue(m)), SkipSpaces(body)))
  {
    MatchNumbersRange(n, m, body);
    SeqAssoc(Marker + sp + n + "-", m, ":", body);
    SeqAssoc(Marker + sp, n, "-", m + ":" + body);
    MatchAfterSpaces(sp, n + "-" + (m + ":" + body));
  }

  /** A string is its prefix, the character at `k` and the rest. */
  lemma AroundAt(d: string, k: nat)
    requires k < |d|
    ensures d == d[..k] + [d[k]] + d[k + 1..]
  {
  }

  /** The pieces of a text the number pattern accepts: the start digits, the end
      digits when there is a range, and the text after the colon. */
  lemma MatchNumbersShape(d: string) returns (n: string, m: string, body: string)
    requires MatchNumbers(d).Some?
    ensures |n| > 0 && AllDigits(n)
    ensures MatchNumbers(d).value.end.None? ==>
      d == n + ":" + body && MatchNumbers(d).value == Header(DigitsValue(n), None, SkipSpaces(body))
    ensures MatchNumbers(d).value.end.Some? ==>
      && |m| > 0 && AllDigits(m) && d == n + "-" + (m + ":" + body)
      && MatchNumbers(d).value == Header(DigitsValue(n), Some(DigitsValue(m)), SkipSpaces(body))
  {
    var k := DigitRun(d);
    n := d[..k];
    AroundAt(d, k);
    if d[k] == ':' {
      m, body := "", d[k + 1..];
    } else {
      var e := d[k + 1..];
      var j := DigitRun(e);
      AroundAt(e, j);
      m, body := e[..j], e[j + 1..];
    }
  }

  /** `part` is `Slide(s)`, whitespace `sp`, digits `n`, a colon and `body`. */
  predicate SingleHeaderShape(part: string, sp: string, n: string, body: string) {
    AllIn(sp, JsSpace) && |n| > 0 && AllDigits(n) && part == Marker + sp + n + ":" + body
  }

  /** `part` is `Slide(s)`, whitespace `sp`, digits `n`, a dash, digits `m`, a
      colon and `body`. */
  predicate RangeHeaderShape(part: string, sp: string, n: string, m: string, body: string) {
    && AllIn(sp, JsSpace) && |n| > 0 && AllDigits(n) && |m| > 0 && AllDigits(m)
    && part == Marker + sp + n + "-" + m + ":" + body
  }

  /** The converse of MatchSingle and MatchRange: the header pattern accepts only
      `Slide(s)`, whitespace, digits, an optional dash and digits, and a colon, and
      its captures are the values of those digits and the body after the colon. */
  lemma MatchHeaderShape(part: string)
    requires MatchHeader(part).Some?
    ensures MatchHeader(part).value.end.None? ==>
      exists sp, n, body :: SingleHeaderShape(part, sp, n, body)
        && MatchHeader(part) == Some(Header(DigitsValue(n), None, SkipSpaces(body)))
    ensures MatchHeader(part).value.end.Some? ==>
      exists sp, n, m, body :: RangeHeaderShape(part, sp, n, m, body)
        && MatchHeader(part) == Some(Header(DigitsValue(n), Some(DigitsValue(m)), SkipSpaces(body)))
  {
    var sp, d := HeaderParts(part);
    var n, m, body := MatchNumbersShape(d);
    if MatchHeader(part).value.end.None? {
      RegroupSingle(part, sp, d, n, body);
      assert SingleHeaderShape(part, sp, n, body);
    } else {
      RegroupRange(part, sp, d, n, m, body);
      assert RangeHeaderShape(part, sp, n, m, body);
    }
  }

  /** An accepted part is the marker, a run of whitespace and the text the
      number pattern matched. */
  lemma HeaderParts(part: string) returns (sp: string, d: string)
    requires MatchHeader(part).Some?
    ensures AllIn(sp, JsSpace) && part == Marker + (sp + d) && MatchHeader(part) == MatchNumbers(d)
  {
    var a := part[|Marker|..];
    var l := LeadRun(a, JsSpace);
    sp, d := a[..l], a[l..];
    TakeDrop(part, |Marker|);
    TakeDrop(a, l);
  }

  lemma RegroupSingle(part: string, sp: string, d: string, n: string, body: string)
    requires part == Marker + (sp + d) && d == n + ":" + body
    ensures part == Marker + sp + n + ":" + body
  {
  }

  lemma RegroupRange(part: string, sp: string, d: string, n: string, m: string, body: string)
    requires part == Marker + (sp + d) && d == n + "-" + (m + ":" + body)
    ensures part == Marker + sp + n + "-" + m + ":" + body
  {
  }

  /** The records of a piece whose header matched. */
  lemma PieceSlidesOf(part: string, h: Header)
    requires MatchHeader(part) == Some(h)
    ensures PieceSlides(part) == Expand(h.start, LastNumber(h), Strip(h.body, JsSpace))
  {
  }

  /** Range expansion: a piece `Slide(s) N-M: body` yields M-N+1 records numbered
      N..M in ascending order (none when M < N), each holding the trimmed body. */
  lemma RangeExpansion(sp: string, n: string, m: string, body: string)
    requires AllIn(sp, JsSpace) && |n| > 0 && AllDigits(n) && |m| > 0 && AllDigits(m)
    ensures CountsUp(PieceSlides(Marker + sp + n + "-" + m + ":" + body),
                     DigitsValue(n), DigitsValue(m), Strip(body, JsSpace))
  {
    RangePiece(sp, n, m, body);
    ExpandSpec(DigitsValue(n), DigitsValue(m), Strip(body, JsSpace));
  }

  lemma RangePiece(sp: string, n: string, m: string, body: string)
    requires AllIn(sp, JsSpace) && |n| > 0 && AllDigits(n) && |m| > 0 && AllDigits(m)
    ensures PieceSlides(Marker + sp + n + "-" + m + ":" + body)
         == Expand(DigitsValue(n), DigitsValue(m), Strip(body, JsSpace))
  {
    MatchRange(sp, n, m, body);
    PieceSlidesOf(Marker + sp + n + "-" + m + ":" + body,
                  Header(DigitsValue(n), Some(DigitsValue(m)), SkipSpaces(body)));
    SkipThenStrip(body);
  }

  /** Without `-M` a piece yields exactly one record. */
  lemma SingleExpansion(sp: string, n: string, body: string)
    requires AllIn(sp, JsSpace) && |n| > 0 && AllDigits(n)
    ensures PieceSlides(Marker + sp + n + ":" + body)
         == [ParsedSlide(NatToString(DigitsValue(n)), Strip(body, JsSpace))]
  {
    var lo := DigitsValue(n);
    MatchSingle(sp, n, body);
    PieceSlidesOf(Marker + sp + n + ":" + body, Header(lo, None, SkipSpaces(body)));
    SkipThenStrip(body);
    ExpandSpec(lo, lo, Strip(body, JsSpace));
  }

  // ---------------------------------------------------------------------------
  // Where the split cuts

  /** No marker starts at any position from `lo` up to (not including) `hi`. */
  predicate NoCutIn(s: string, lo: nat, hi: nat) {
    forall q :: lo <= q < hi ==> !MarkerAt(s, q)
  }

  lemma {:induction false} NextMarkerIs(s: string, i: nat, k: nat)
    requires i <= k <= |s| && NoCutIn(s, i, k) && (k < |s| ==> MarkerAt(s, k))
    ensures NextMarker(s, i) == k
    decreases k - i
  {
    if i < k {
      NextMarkerIs(s, i + 1, k);
    }
  }

  /** The first cut of the split falls at the first marker after position 0. */
  lemma SplitCut(s: string, k: nat)
    requires 0 < k < |s| && NoCutIn(s, 1, k) && MarkerAt(s, k)
    ensures Split(s) == [s[..k]] + Split(s[k..])
  {
    NextMarkerIs(s, 1, k);
  }

  /** A text with no marker after position 0 is one piece. */
  lemma SplitWhole(s: string)
    requires |s| > 0 && NoCutIn(s, 1, |s|)
    ensures Split(s) == [s]
  {
    NextMarkerIs(s, 1, |s|);
  }

  /** Parsing a text whose first cut is at `k`. */
  lemma ParseCut(s: string, k: nat)
    requires 0 < k < |s| && NoCutIn(s, 1, k) && MarkerAt(s, k)
    ensures Parse(s) == PieceSlides(s[..k]) + Parse(s[k..])
  {
    SplitCut(s, k);
    assert ([s[..k]] + Split(s[k..]))[1..] == Split(s[k..]);
  }

  /** Parsing a text that is one piece. */
  lemma ParseWhole(s: string)
    requires |s| > 0 && NoCutIn(s, 1, |s|)
    ensures Parse(s) == PieceSlides(s)
  {
    SplitWhole(s);
    assert ParsePieces([s]) == PieceSlides(s) + ParsePieces([s][1..]);
    assert [s][1..] == [];
  }

  /** The empty script has no records. */
  lemma ParseEmpty()
    ensures Parse("") == []
  {
    assert Split("") == [""];
    assert [""][1..] == [];
  }

  /** Whitespace followed by a digit cannot straddle two texts neither of which
      has one at its start. */
  lemma {:induction false} NoDigitAfterSpacesJoined(y: string, z: string)
    requires !DigitAfterSpaces(y) && !DigitAfterSpaces(z)
    ensures !DigitAfterSpaces(y + z)
    decreases |y|
  {
    if |y| == 0 {
      assert y + z == z;
    } else if InClass(y[0], JsSpace) {
      assert (y + z)[1..] == y[1..] + z;
      NoDigitAfterSpacesJoined(y[1..], z);
    }
  }

  /** Appending text after a marker keeps it a marker. */
  lemma {:induction false} DigitAfterSpacesExtends(y: string, z: string)
    requires DigitAfterSpaces(y)
    ensures DigitAfterSpaces(y + z)
    decreases |y|
  {
    if !IsDigit(y[0]) {
      assert (y + z)[1..] == y[1..] + z;
      DigitAfterSpacesExtends(y[1..], z);
    }
  }

  /** Appending text after a marker keeps it a marker; so a text that does not
      start with a marker does not start with one once text is removed from its
      end. */
  lemma MarkerExtends(x: string, z: string)
    ensures StartsMarker(x) ==> StartsMarker(x + z)
    ensures !StartsMarker(x + z) ==> !StartsMarker(x)
  {
    if StartsMarker(x) {
      MarkerPrefix(x, z);
    }
  }

  lemma MarkerPrefix(x: string, z: string)
    requires StartsMarker(x)
    ensures StartsMarker(x + z)
  {
    assert (x + z)[..|Marker|] == x[..|Marker|];
    assert (x + z)[|Marker|..] == x[|Marker|..] + z;
    DigitAfterSpacesExtends(x[|Marker|..], z);
  }

  /** A marker-free text followed by a text that starts with a newline and cannot
      complete a marker gains no marker inside it. */
  lemma ContentNoCut(c: string, rest: string)
    requires NoMarker(c) && !DigitAfterSpaces(rest) && (rest == [] || rest[0] == '\n')
    ensures NoCutIn(c + rest, 0, |c|)
  {
    forall j | 0 <= j < |c| ensures !MarkerAt(c + rest, j) {
      var x := c[j..];
      assert (c + rest)[j..] == x + rest;
      if |x| >= |Marker| {
        if HasPrefix(x + rest, Marker) {
          assert x[..|Marker|] == (x + rest)[..|Marker|];
          assert !MarkerAt(c, j);
          assert !DigitAfterSpaces(x[|Marker|..]);
          assert (x + rest)[|Marker|..] == x[|Marker|..] + rest;
          NoDigitAfterSpacesJoined(x[|Marker|..], rest);
        }
      } else if |x + rest| >= |Marker| {
        assert (x + rest)[|x|] == '\n';
        assert (x + rest)[..|Marker|][|x|] != Marker[|x|];
      }
    }
  }

  /** Only the first character of a header can start a marker. */
  lemma HeaderNoMarker(r: ParsedSlide, q: nat)
    requires IsCanonicalNumeral(r.slideNumber) && 1 <= q < |HeaderOf(r)|
    ensures HeaderOf(r)[q] != Marker[0]
  {
  }

  /** Inside a block no marker starts after its own header. */
  lemma BlockNoCut(r: ParsedSlide, rest: string)
    requires IsCanonicalNumeral(r.slideNumber) && NoMarker(r.content)
    requires !DigitAfterSpaces(rest) && (rest == [] || rest[0] == '\n')
    ensures NoCutIn(Block(r) + rest, 1, |Block(r)|)
  {
    var h, c := HeaderOf(r), r.content;
    var s := Block(r) + rest;
    AppendAssoc(h, c, rest);
    forall q | 1 <= q < |h| ensures !MarkerAt(s, q) {
      HeaderNoMarker(r, q);
      assert s[q..][0] == h[q];
    }
    ContentNoCut(c, rest);
    forall q | |h| <= q < |Block(r)| ensures !MarkerAt(s, q) {
      DropPast(h, c + rest, q - |h|);
      assert !MarkerAt(c + rest, q - |h|);
    }
  }

  /** A piece that does not start a marker, even with the rest of the text after
      it, yields no records. */
  lemma PreambleSlides(pre: string, rest: string)
    requires !MarkerAt(pre + rest, 0)
    ensures PieceSlides(pre) == []
  {
    MarkerExtends(pre, rest);
    assert (pre + rest)[0..] == pre + rest;
    if MatchHeader(pre).Some? {
      MatchHeaderMarker(pre);
    }
  }

  /** Silent drop: text ahead of the first marker contributes no records, whether
      the rest is empty or starts with a marker. */
  lemma DropsPreamble(pre: string, rest: string)
    requires NoCutIn(pre + rest, 0, |pre|) && (rest == [] || StartsMarker(rest))
    ensures Parse(pre + rest) == Parse(rest)
  {
    var s := pre + rest;
    if |pre| == 0 {
      assert s == rest;
    } else {
      PreambleSlides(pre, rest);
      if rest == [] {
        AppendEmpty(pre);
        ParseWhole(s);
        ParseEmpty();
      } else {
        DropPast(pre, rest, 0);
        TakeAppend(pre, rest, |pre|);
        assert MarkerAt(s, |pre|);
        ParseCut(s, |pre|);
      }
    }
  }

  // ---------------------------------------------------------------------------
  // Reconstruction followed by parsing

  /** A record that reconstruction and re-parsing give back unchanged: a canonical
      slide number, content without surrounding whitespace, and no marker inside
      the content. */
  predicate SafeRecord(r: ParsedSlide) {
    IsCanonicalNumeral(r.slideNumber) && Stripped(r.content, JsSpace) && NoMarker(r.content)
  }

  /** A block followed by whitespace reads back as its own record. */
  lemma BlockPiece(r: ParsedSlide, t: string)
    requires SafeRecord(r) && AllIn(t, JsSpace)
    ensures PieceSlides(Block(r) + t) == [r]
  {
    var n, c := r.slideNumber, r.content;
    var body := "\n" + c + t;
    BlockRegrouped(r, t);
    SpaceIsSpace();
    SingleExpansion(" ", n, body);
    NumeralRoundTrip(n);
    BodyStrips(c, t);
  }

  lemma SpaceIsSpace()
    ensures AllIn(" ", JsSpace)
  {
  }

  /** The body of a block after its header: trimming restores the content. */
  lemma BodyStrips(c: string, t: string)
    requires Stripped(c, JsSpace) && AllIn(t, JsSpace)
    ensures Strip("\n" + c + t, JsSpace) == c
  {
    assert AllIn("\n", JsSpace);
    if c == [] {
      assert AllIn("\n" + t, JsSpace);
    }
    StripPadded("\n", c, t, JsSpace);
  }

  lemma BlockRegrouped(r: ParsedSlide, t: string)
    ensures Block(r) + t == Marker + " " + r.slideNumber + ":" + ("\n" + r.content + t)
  {
    var p, c := Marker + " " + r.slideNumber, r.content;
    calc {
      Block(r) + t;
      p + ":\n" + c + t;
      { assert ":\n" == ":" + "\n"; AppendAssoc(p, ":", "\n"); }
      p + ":" + "\n" + c + t;
      { SeqAssoc(p + ":", "\n", c, t); }
      p + ":" + ("\n" + c + t);
    }
  }

  /** `Slide(s)`, a space and a digit make a marker. */
  lemma MarkerByIndex(s: string)
    requires |s| > |Marker| + 1 && s[..|Marker|] == Marker
    requires s[|Marker|] == ' ' && IsDigit(s[|Marker| + 1])
    ensures StartsMarker(s)
  {
    var d := s[|Marker|..];
    assert d[0] == ' ' && d[1..][0] == s[|Marker| + 1];
  }

  lemma BlockStartsMarker(r: ParsedSlide, x: string)
    requires IsCanonicalNumeral(r.slideNumber)
    ensures StartsMarker(Block(r) + x)
  {
    var s := Block(r) + x;
    assert s[|Marker|] == ' ' && s[|Marker| + 1] == r.slideNumber[0];
    assert s[..|Marker|] == Marker;
    MarkerByIndex(s);
  }

  lemma ReconstructCons(rs: seq<ParsedSlide>)
    requires |rs| > 0
    ensures |rs| == 1 ==> Reconstruct(rs) == Block(rs[0])
    ensures |rs| > 1 ==> Reconstruct(rs) == Block(rs[0]) + BlockSeparator + Reconstruct(rs[1..])
  {
  }

  lemma ReconstructStartsMarker(rs: seq<ParsedSlide>)
    requires |rs| > 0 && IsCanonicalNumeral(rs[0].slideNumber)
    ensures StartsMarker(Reconstruct(rs))
  {
    ReconstructCons(rs);
    if |rs| == 1 {
      BlockStartsMarker(rs[0], "");
      AppendEmpty(Block(rs[0]));
    } else {
      AppendAssoc(Block(rs[0]), BlockSeparator, Reconstruct(rs[1..]));
      BlockStartsMarker(rs[0], BlockSeparator + Reconstruct(rs[1..]));
    }
  }

  /** The last block of a script reads back as its record. */
  lemma ParseBlock(r: ParsedSlide)
    requires SafeRecord(r)
    ensures Parse(Block(r)) == [r]
  {
    var b := Block(r);
    AppendEmpty(b);
    BlockNoCut(r, "");
    ParseWhole(b);
    BlockPiece(r, "");
  }

  /** The blank line between two blocks cannot complete a marker. */
  lemma SeparatorNoMarker(tail: string)
    requires StartsMarker(tail)
    ensures !DigitAfterSpaces(BlockSeparator + tail) && (BlockSeparator + tail)[0] == '\n'
  {
    var rest := BlockSeparator + tail;
    assert tail[0] == Marker[0];
    DropPast(BlockSeparator, tail, 0);
    assert rest[1..][1..] == rest[2..];
    assert !DigitAfterSpaces(rest[2..]);
  }

  /** A block, a blank line and a script that starts with a marker: the block
      reads back as its record, ahead of the records of the rest. */
  lemma ParseCons(r: ParsedSlide, tail: string)
    requires SafeRecord(r) && StartsMarker(tail)
    ensures Parse(Block(r) + BlockSeparator + tail) == [r] + Parse(tail)
  {
    var a := Block(r) + BlockSeparator;
    ConsCut(r, tail);
    ParseCut(a + tail, |a|);
    BlockPiece(r, BlockSeparator);
  }

  /** In a block, a separator and a script that starts with a marker, the first
      cut of the split is where that script begins. */
  lemma ConsCut(r: ParsedSlide, tail: string)
    requires SafeRecord(r) && StartsMarker(tail)
    ensures var a := Block(r) + BlockSeparator;
      && 0 < |a| < |a + tail| && NoCutIn(a + tail, 1, |a|) && MarkerAt(a + tail, |a|)
      && (a + tail)[..|a|] == a && (a + tail)[|a|..] == tail
  {
    var a := Block(r) + BlockSeparator;
    var s := a + tail;
    AppendAssoc(Block(r), BlockSeparator, tail);
    SeparatorNoMarker(tail);
    BlockNoCut(r, BlockSeparator + tail);
    forall q | |Block(r)| <= q < |a| ensures !MarkerAt(s, q) {
      assert s[q..][0] == s[q] == '\n';
    }
    TakeAppend(a, tail, |a|);
    DropPast(a, tail, 0);
  }

  /** Round trip: re-parsing the reconstruction of safe records gives them back. */
  lemma {:induction false} RoundTrip(rs: seq<ParsedSlide>)
    requires AllSafe(rs)
    ensures Parse(Reconstruct(rs)) == rs
  {
    if |rs| == 0 {
      ParseEmpty();
    } else if |rs| == 1 {
      ReconstructCons(rs);
      ParseBlock(rs[0]);
    } else {
      ReconstructCons(rs);
      RoundTrip(rs[1..]);
      RoundTripCons(rs[0], rs[1..]);
      assert [rs[0]] + rs[1..] == rs;
    }
  }

  /** The inductive step of the round trip: a safe record put in front of
      records that read back unchanged reads back in front of them. */
  lemma RoundTripCons(r: ParsedSlide, rest: seq<ParsedSlide>)
    requires SafeRecord(r) && |rest| > 0 && IsCanonicalNumeral(rest[0].slideNumber)
    requires Parse(Reconstruct(rest)) == rest
    ensures Parse(Block(r) + BlockSeparator + Reconstruct(rest)) == [r] + rest
  {
    ReconstructStartsMarker(rest);
    ParseCons(r, Reconstruct(rest));
  }

  // ---------------------------------------------------------------------------
  // What parsing produces

  /** Every record is safe: what the effect stores can be reconstructed and
      re-parsed without change. */
  predicate AllSafe(rs: seq<ParsedSlide>) {
    forall i :: 0 <= i < |rs| ==> SafeRecord(rs[i])
  }

  lemma AllSafeAppend(a: seq<ParsedSlide>, b: seq<ParsedSlide>)
    requires AllSafe(a) && AllSafe(b)
    ensures AllSafe(a + b)
  {
  }

  /** A piece of the split has no marker after its first character. */
  predicate PieceClean(p: string) {
    NoCutIn(p, 1, |p|)
  }

  /** Cutting a text just before its first later marker leaves a clean piece. */
  lemma PrefixClean(s: string, k: nat)
    requires k <= |s| && NoCutIn(s, 1, k)
    ensures PieceClean(s[..k])
  {
    forall j | 1 <= j < k ensures !MarkerAt(s[..k], j) {
      assert !MarkerAt(s, j);
      SliceThenRest(s, 0, j, k);
      assert s[0..k] == s[..k];
      MarkerExtends(s[..k][j..], s[k..]);
    }
  }

  lemma {:induction false} SplitClean(s: string)
    ensures forall i :: 0 <= i < |Split(s)| ==> PieceClean(Split(s)[i])
    decreases |s|
  {
    if |s| > 0 {
      var k := NextMarker(s, 1);
      if k < |s| {
        SplitClean(s[k..]);
        PrefixClean(s, k);
        var parts := Split(s);
        assert parts == [s[..k]] + Split(s[k..]);
        forall i | 0 < i < |parts| ensures PieceClean(parts[i]) {
          assert parts[i] == Split(s[k..])[i - 1];
        }
      }
    }
  }

  /** No marker starts inside a slice of a clean piece that leaves out its first
      character. */
  lemma SliceNoMarker(p: string, o: nat, n: nat)
    requires PieceClean(p) && 1 <= o && o + n <= |p|
    ensures NoMarker(p[o..o + n])
  {
    var x := p[o..o + n];
    forall j | 0 <= j < n ensures !MarkerAt(x, j) {
      assert !MarkerAt(p, o + j);
      SliceThenRest(p, o, j, n);
      MarkerExtends(x[j..], p[o + n..]);
    }
  }

  lemma MatchEndSuffix(e: string)
    requires MatchEnd(e).Some?
    ensures var b := MatchEnd(e).value.1; |b| < |e| && b == e[|e| - |b|..]
  {
    var m := DigitRun(e);
    DropDrop(e, m + 1, LeadRun(e[m + 1..], JsSpace));
  }

  /** Where capture 3 comes from when the numbers matched. */
  lemma MatchNumbersBody(d: string)
    requires MatchNumbers(d).Some?
    ensures var n, b := DigitRun(d), MatchNumbers(d).value.body;
      && 0 < n < |d|
      && (|| (d[n] == ':' && b == SkipSpaces(d[n + 1..]))
          || (d[n] == '-' && MatchEnd(d[n + 1..]).Some? && b == MatchEnd(d[n + 1..]).value.1))
  {
  }

  lemma ColonBodySuffix(d: string, n: nat)
    requires n < |d|
    ensures var b := SkipSpaces(d[n + 1..]); |b| < |d| && b == d[|d| - |b|..]
  {
    DropDrop(d, n + 1, LeadRun(d[n + 1..], JsSpace));
  }

  lemma DashBodySuffix(d: string, n: nat)
    requires n < |d| && MatchEnd(d[n + 1..]).Some?
    ensures var b := MatchEnd(d[n + 1..]).value.1; |b| < |d| && b == d[|d| - |b|..]
  {
    var u := d[n + 1..];
    MatchEndSuffix(u);
    DropDrop(d, n + 1, |u| - |MatchEnd(u).value.1|);
  }

  lemma MatchNumbersSuffix(d: string)
    requires MatchNumbers(d).Some?
    ensures var b := MatchNumbers(d).value.body; |b| < |d| && b == d[|d| - |b|..]
  {
    MatchNumbersBody(d);
    var n := DigitRun(d);
    if d[n] == ':' {
      ColonBodySuffix(d, n);
    } else {
      DashBodySuffix(d, n);
    }
  }

  /** MatchHeader reads the numbers after the marker's whitespace. */
  lemma MatchHeaderBody(part: string)
    requires MatchHeader(part).Some?
    ensures |Marker| <= |part| && MatchHeader(part) == MatchNumbers(SkipSpaces(part[|Marker|..]))
  {
  }

  lemma SkipSpacesSuffix(s: string, i: nat)
    requires i <= |s|
    ensures var t := SkipSpaces(s[i..]); |t| <= |s| - i && t == s[|s| - |t|..]
  {
    DropDrop(s, i, LeadRun(s[i..], JsSpace));
  }

  /** Capture 3 is a suffix of the piece that leaves out at least its header. */
  lemma MatchHeaderSuffix(part: string)
    requires MatchHeader(part).Some?
    ensures var b := MatchHeader(part).value.body; |b| < |part| && b == part[|part| - |b|..]
  {
    MatchHeaderBody(part);
    var d := SkipSpaces(part[|Marker|..]);
    SkipSpacesSuffix(part, |Marker|);
    MatchNumbersSuffix(d);
    var b := MatchNumbers(d).value.body;
    DropDrop(part, |part| - |d|, |d| - |b|);
  }

  /** A text equal to a slice of a clean piece that leaves out its first
      character has no marker in it. */
  lemma SliceNoMarkerAs(p: string, o: nat, n: nat, x: string)
    requires PieceClean(p) && 1 <= o && o + n <= |p| && x == p[o..o + n]
    ensures NoMarker(x)
  {
    SliceNoMarker(p, o, n);
  }

  /** The trimmed text after position `o` of a clean piece has no marker in it. */
  lemma ContentClean(p: string, o: nat)
    requires PieceClean(p) && 1 <= o <= |p|
    ensures NoMarker(Strip(p[o..], JsSpace))
  {
    var t := Strip(p[o..], JsSpace);
    var l := LeadRun(p[o..], JsSpace);
    StripOfSuffix(p, o, JsSpace);
    SliceNoMarkerAs(p, o + l, |t|, t);
  }

  /** A proper suffix of a clean piece trims to text with no marker in it. */
  lemma SuffixClean(p: string, b: string)
    requires PieceClean(p) && |b| < |p| && b == p[|p| - |b|..]
    ensures NoMarker(Strip(b, JsSpace))
  {
    ContentClean(p, |p| - |b|);
  }

  /** The records of the counting loop are safe when their content is. */
  lemma ExpandSafe(i: nat, end: nat, c: string)
    requires Stripped(c, JsSpace) && NoMarker(c)
    ensures AllSafe(Expand(i, end, c))
  {
    ExpandSpec(i, end, c);
  }

  /** Every record a clean piece yields is safe. */
  lemma PieceSafe(p: string)
    requires PieceClean(p)
    ensures AllSafe(PieceSlides(p))
  {
    var m := MatchHeader(p);
    if m.Some? {
      var h := m.value;
      PieceSlidesOf(p, h);
      MatchHeaderSuffix(p);
      SuffixClean(p, h.body);
      ExpandSafe(h.start, LastNumber(h), Strip(h.body, JsSpace));
    }
  }

  lemma {:induction false} ParsePiecesSafe(parts: seq<string>)
    requires forall i :: 0 <= i < |parts| ==> PieceClean(parts[i])
    ensures AllSafe(ParsePieces(parts))
  {
    if |parts| > 0 {
      PieceSafe(parts[0]);
      ParsePiecesSafe(parts[1..]);
      AllSafeAppend(PieceSlides(parts[0]), ParsePieces(parts[1..]));
    }
  }

  /** Record shape: every record has a canonical slide number, trimmed content,
      and no marker inside its content. */
  lemma ParseSafe(text: string)
    ensures AllSafe(Parse(text))
  {
    SplitClean(text);
    ParsePiecesSafe(Split(text));
  }

  /** Reconstructing the parsed records and parsing again gives the same records:
      saving an unedited script changes nothing the panel shows. */
  lemma ParseStable(text: string)
    ensures Parse(Reconstruct(Parse(text))) == Parse(text)
  {
    ParseSafe(text);
    RoundTrip(Parse(text));
  }
}
