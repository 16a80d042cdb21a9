/** The normalisation the script panel applies to generated text before it stores
    it: `cleanScriptWithRegex` and `formatScriptWithRegex`. Their regular
    expressions and string literals are written with doubled backslashes, so they
    act on the two characters backslash and `n`, not on newline characters; the
    class `[ \\t]` is the three characters space, backslash and `t`. */
module ScriptFormat {
  import opened Text
  import ScriptSegmenter

  /** The two characters backslash and `n` that the literal `"\\n"` denotes. */
  const EscapedNewline: string := [Backslash, 'n']

  // ---------------------------------------------------------------------------
  // Step 1: `.replace(/\\n\\s*\\n/g, "\\n")`

  /** Length of the run of `c` at the start of `t`. */
  function RunOf(t: string, c: char): (k: nat)
    ensures k <= |t| && (k < |t| ==> t[k] != c)
    ensures forall i :: 0 <= i < k ==> t[i] == c
  {
    if |t| == 0 || t[0] != c then 0 else 1 + RunOf(t[1..], c)
  }

  /** Length of the match of `\\n\\s*\\n` at the start of `t` (backslash, `n`,
      backslash, a run of letters `s`, backslash, `n`), or 0 when it does not
      match there. The run of `s` must be followed by a backslash, so the greedy
      run is the only candidate. */
  function BlankRunAt(t: string): (m: nat)
    ensures m == 0 || 5 <= m <= |t|
  {
    if |t| < 3 || t[0] != Backslash || t[1] != 'n' || t[2] != Backslash then 0
    else
      var k := RunOf(t[3..], 's');
      if 5 + k <= |t| && t[3 + k] == Backslash && t[4 + k] == 'n' then 5 + k else 0
  }

  /** The first pattern matches at position `j` of `t`. */
  predicate BlankRunMatchAt(t: string, j: nat) {
    j <= |t| && BlankRunAt(t[j..]) > 0
  }

  /** The global replacement: scanning left to right, each match becomes
      backslash-`n` and the scan resumes after it. */
  function CollapseBlankRuns(t: string): (r: string)
    ensures |r| <= |t|
    decreases |t|
  {
    if |t| == 0 then []
    else
      var m := BlankRunAt(t);
      if m > 0 then EscapedNewline + CollapseBlankRuns(t[m..])
      else [t[0]] + CollapseBlankRuns(t[1..])
  }

  /** Text in which the pattern matches nowhere comes through unchanged. */
  lemma {:induction false} CollapseNoMatch(t: string)
    requires forall j :: 0 <= j < |t| ==> !BlankRunMatchAt(t, j)
    ensures CollapseBlankRuns(t) == t
    decreases |t|
  {
    if |t| > 0 {
      assert !BlankRunMatchAt(t, 0) && t[0..] == t;
      forall j | 0 <= j < |t| - 1 ensures !BlankRunMatchAt(t[1..], j) {
        assert !BlankRunMatchAt(t, j + 1);
        assert t[1..][j..] == t[j + 1..];
      }
      CollapseNoMatch(t[1..]);
    }
  }

  /** Text in which the pattern matches somewhere gets strictly shorter. */
  lemma {:induction false} CollapseShrinks(t: string, j: nat)
    requires j < |t| && BlankRunMatchAt(t, j)
    ensures |CollapseBlankRuns(t)| < |t|
    decreases |t|
  {
    if BlankRunAt(t) == 0 {
      assert t[1..][j - 1..] == t[j..];
      CollapseShrinks(t[1..], j - 1);
    }
  }

  /** Step 1 leaves the text as it is exactly when the pattern matches nowhere. */
  lemma CollapseFixed(t: string)
    ensures CollapseBlankRuns(t) == t <==> forall j :: 0 <= j < |t| ==> !BlankRunMatchAt(t, j)
  {
    if forall j :: 0 <= j < |t| ==> !BlankRunMatchAt(t, j) {
      CollapseNoMatch(t);
    } else {
      var j :| 0 <= j < |t| && BlankRunMatchAt(t, j);
      CollapseShrinks(t, j);
    }
  }

  // ---------------------------------------------------------------------------
  // Lines under the `m` flag

  /** No JavaScript line terminator in `s`. */
  predicate NoLineBreak(s: string) {
    forall i :: 0 <= i < |s| ==> !IsJsLineTerminator(s[i])
  }

  /** Index of the first line terminator in `t`, or `|t|`. */
  function LineEnd(t: string): (k: nat)
    ensures k <= |t| && (k < |t| ==> IsJsLineTerminator(t[k]))
    ensures NoLineBreak(t[..k])
  {
    if |t| == 0 || IsJsLineTerminator(t[0]) then 0
    else
      var k := 1 + LineEnd(t[1..]);
      assert t[..k] == [t[0]] + t[1..][..k - 1];
      k
  }

  /** The lines of `t`: the text between line terminators, where `^` and `$` match
      under the `m` flag. */
  function Lines(t: string): (ls: seq<string>)
    ensures |ls| >= 1 && forall i :: 0 <= i < |ls| ==> NoLineBreak(ls[i])
    decreases |t|
  {
    var k := LineEnd(t);
    if k == |t| then [t] else [t[..k]] + Lines(t[k + 1..])
  }

  /** A replacement whose pattern is anchored by `^` and `$` under the `m` flag:
      `f` rewrites the text of every line and the terminators stay as they are. */
  function EachLine(t: string, f: string -> string): string
    decreases |t|
  {
    var k := LineEnd(t);
    if k == |t| then f(t) else f(t[..k]) + [t[k]] + EachLine(t[k + 1..], f)
  }

  lemma {:induction false} LineEndAt(x: string, c: char, y: string)
    requires NoLineBreak(x) && IsJsLineTerminator(c)
    ensures LineEnd(x + [c] + y) == |x|
    decreases |x|
  {
    if |x| > 0 {
      assert (x + [c] + y)[1..] == x[1..] + [c] + y;
      LineEndAt(x[1..], c, y);
    }
  }

  /** The lines of a line, a terminator and more text. */
  lemma LinesCons(x: string, c: char, y: string)
    requires NoLineBreak(x) && IsJsLineTerminator(c)
    ensures Lines(x + [c] + y) == [x] + Lines(y)
  {
    var t := x + [c] + y;
    LineEndAt(x, c, y);
    assert t[..|x|] == x;
    assert t[|x| + 1..] == y;
  }

  /** A text without terminators is one line. */
  lemma LinesSingle(x: string)
    requires NoLineBreak(x)
    ensures Lines(x) == [x]
  {
    assert x[..|x|] == x;
  }

  /** The lines of a line-by-line replacement are the rewritten lines of the
      input, one for one, when the rewriting adds no terminator. */
  lemma {:induction false} EachLineLines(t: string, f: string -> string)
    requires forall i :: 0 <= i < |Lines(t)| ==> NoLineBreak(f(Lines(t)[i]))
    ensures |Lines(EachLine(t, f))| == |Lines(t)|
    ensures forall i :: 0 <= i < |Lines(t)| ==> Lines(EachLine(t, f))[i] == f(Lines(t)[i])
    decreases |t|
  {
    if LineEnd(t) == |t| {
      EachLineSingle(t, f);
    } else {
      var b := t[LineEnd(t) + 1..];
      LineStep(t, f);
      TailNoBreak(t[..LineEnd(t)], Lines(b), f);
      EachLineLines(b, f);
      EachLineCons(t, f);
    }
  }

  /** The base case of EachLineLines: a text that is one line. */
  lemma EachLineSingle(t: string, f: string -> string)
    requires LineEnd(t) == |t|
    requires forall i :: 0 <= i < |Lines(t)| ==> NoLineBreak(f(Lines(t)[i]))
    ensures Lines(t) == [t] && Lines(EachLine(t, f)) == [f(t)]
  {
    assert Lines(t) == [t];
    assert NoLineBreak(f(Lines(t)[0]));
    LinesSingle(f(t));
  }

  /** The step of EachLineLines: from the lines after the first terminator to the
      lines of the whole text. */
  lemma EachLineCons(t: string, f: string -> string)
    requires LineEnd(t) < |t|
    requires forall i :: 0 <= i < |Lines(t)| ==> NoLineBreak(f(Lines(t)[i]))
    requires var b := t[LineEnd(t) + 1..];
      && |Lines(EachLine(b, f))| == |Lines(b)|
      && forall i :: 0 <= i < |Lines(b)| ==> Lines(EachLine(b, f))[i] == f(Lines(b)[i])
    ensures |Lines(EachLine(t, f))| == |Lines(t)|
    ensures forall i :: 0 <= i < |Lines(t)| ==> Lines(EachLine(t, f))[i] == f(Lines(t)[i])
  {
    var k := LineEnd(t);
    var a, b := t[..k], t[k + 1..];
    LineStep(t, f);
    assert Lines(t)[0] == a;
    assert NoLineBreak(f(a));
    LinesCons(f(a), t[k], EachLine(b, f));
    ConsPointwise(a, Lines(b), Lines(EachLine(b, f)), f);
  }

  /** Rewritten lines free of terminators stay so without the first line. */
  lemma TailNoBreak(x: string, ls: seq<string>, f: string -> string)
    requires forall i :: 0 <= i < |[x] + ls| ==> NoLineBreak(f(([x] + ls)[i]))
    ensures forall i :: 0 <= i < |ls| ==> NoLineBreak(f(ls[i]))
  {
    forall i | 0 <= i < |ls| ensures NoLineBreak(f(ls[i])) {
      assert ls[i] == ([x] + ls)[i + 1];
    }
  }

  /** A rewrite that holds pointwise on `ls` also holds on `[x] + ls`. */
  lemma ConsPointwise(x: string, ls: seq<string>, rs: seq<string>, f: string -> string)
    requires |rs| == |ls| && forall i :: 0 <= i < |ls| ==> rs[i] == f(ls[i])
    ensures forall i :: 0 <= i < |[x] + ls| ==> ([f(x)] + rs)[i] == f(([x] + ls)[i])
  {
    forall i | 0 < i < |[x] + ls| ensures ([f(x)] + rs)[i] == f(([x] + ls)[i]) {
      assert ([x] + ls)[i] == ls[i - 1];
    }
  }

  /** One unfolding of `Lines` and `EachLine` at the first terminator. */
  lemma LineStep(t: string, f: string -> string)
    requires LineEnd(t) < |t|
    ensures Lines(t) == [t[..LineEnd(t)]] + Lines(t[LineEnd(t) + 1..])
    ensures EachLine(t, f) == f(t[..LineEnd(t)]) + [t[LineEnd(t)]] + EachLine(t[LineEnd(t) + 1..], f)
  {
  }

  // ---------------------------------------------------------------------------
  // Step 2: `.replace(/^[ \\t]+|[ \\t]+$/gm, "")`

  /** The first alternative removes the run of `[ \\t]` at the start of a line and
      the second a run that reaches the end of one: together, each line loses the
      space, backslash and `t` characters at both of its ends. */
  function TrimLine(line: string): string {
    Strip(line, LineEdge)
  }

  function TrimLines(t: string): string {
    EachLine(t, TrimLine)
  }

  lemma StripNoLineBreak(s: string, cs: CharClass)
    requires NoLineBreak(s)
    ensures NoLineBreak(Strip(s, cs))
  {
    StripSlice(s, cs);
    var l := LeadRun(s, cs);
    forall i | 0 <= i < |Strip(s, cs)| ensures !IsJsLineTerminator(Strip(s, cs)[i]) {
      assert Strip(s, cs)[i] == s[l + i];
    }
  }

  /** Step 2 keeps the lines and trims each: the lines of the result are the
      input's lines without space, backslash or `t` at either end. */
  lemma TrimLinesSpec(t: string)
    ensures |Lines(TrimLines(t))| == |Lines(t)|
    ensures forall i :: 0 <= i < |Lines(t)| ==>
      Lines(TrimLines(t))[i] == Strip(Lines(t)[i], LineEdge)
      && Stripped(Lines(TrimLines(t))[i], LineEdge)
  {
    forall i | 0 <= i < |Lines(t)| ensures NoLineBreak(TrimLine(Lines(t)[i])) {
      StripNoLineBreak(Lines(t)[i], LineEdge);
    }
    EachLineLines(t, TrimLine);
  }

  // ---------------------------------------------------------------------------
  // Step 3: `.replace(/^\\s*$/gm, "")`

  /** The pattern `^\\s*$`: a whole line made of one backslash followed by letters
      `s`. */
  predicate IsEscapeRun(line: string) {
    |line| >= 1 && line[0] == Backslash && forall i :: 1 <= i < |line| ==> line[i] == 's'
  }

  /** A line the pattern matches becomes empty; any other line is kept. */
  function ClearLine(line: string): string {
    if IsEscapeRun(line) then "" else line
  }

  function ClearLines(t: string): string {
    EachLine(t, ClearLine)
  }

  /** Step 3 keeps the number of lines, empties exactly the lines the pattern
      matches, keeps every other line, and leaves no line it would match again. */
  lemma ClearLinesSpec(t: string)
    ensures |Lines(ClearLines(t))| == |Lines(t)|
    ensures forall i :: 0 <= i < |Lines(t)| ==>
      && Lines(ClearLines(t))[i] == (if IsEscapeRun(Lines(t)[i]) then "" else Lines(t)[i])
      && !IsEscapeRun(Lines(ClearLines(t))[i])
  {
    EachLineLines(t, ClearLine);
  }

  // ---------------------------------------------------------------------------
  // Step 4: `.replace(/\\n+/g, "\\n")`

  /** A backslash followed by two letters `n` starts at position `j`. */
  predicate SquashableAt(s: string, j: nat) {
    j + 3 <= |s| && s[j] == Backslash && s[j + 1] == 'n' && s[j + 2] == 'n'
  }

  /** No backslash in `s` is followed by two letters `n`. */
  predicate Squashed(s: string) {
    forall j :: 0 <= j < |s| ==> !SquashableAt(s, j)
  }

  /** The pattern is a backslash followed by one or more letters `n`, and each
      match becomes backslash-`n`. */
  function SquashEscapes(t: string): (r: string)
    ensures |r| <= |t|
    ensures |t| > 0 ==> |r| > 0 && r[0] == t[0]
    decreases |t|
  {
    if HasPrefix(t, EscapedNewline) then
      EscapedNewline + SquashEscapes(t[1 + RunOf(t[1..], 'n')..])
    else if |t| == 0 then []
    else [t[0]] + SquashEscapes(t[1..])
  }

  /** One more character in front of a squashed text keeps it squashed unless it
      is a backslash in front of two letters `n`. */
  lemma SquashedCons(c: char, r: string)
    requires Squashed(r) && !(c == Backslash && |r| >= 2 && r[0] == 'n' && r[1] == 'n')
    ensures Squashed([c] + r)
  {
    forall j | 1 <= j < |r| + 1 ensures !SquashableAt([c] + r, j) {
      assert !SquashableAt(r, j - 1);
    }
  }

  /** After step 4 no backslash is followed by two letters `n`. */
  lemma {:induction false} SquashEscapesSquashed(t: string)
    ensures Squashed(SquashEscapes(t))
    decreases |t|
  {
    if HasPrefix(t, EscapedNewline) {
      var k := RunOf(t[1..], 'n');
      var u := t[1 + k..];
      SquashEscapesSquashed(u);
      var ru := SquashEscapes(u);
      assert u == [] || u[0] != 'n' by {
        if u != [] { assert u[0] == t[1..][k]; }
      }
      SquashedCons('n', ru);
      SquashedCons(Backslash, ['n'] + ru);
      assert EscapedNewline + ru == [Backslash] + (['n'] + ru);
    } else if |t| > 0 {
      SquashEscapesSquashed(t[1..]);
      SquashedCons(t[0], SquashEscapes(t[1..]));
    }
  }

  /** Text in which no backslash is followed by two letters `n` comes through
      step 4 unchanged. */
  lemma {:induction false} SquashEscapesKeeps(t: string)
    requires Squashed(t)
    ensures SquashEscapes(t) == t
    decreases |t|
  {
    if HasPrefix(t, EscapedNewline) {
      assert !SquashableAt(t, 0);
      assert RunOf(t[1..], 'n') == 1;
      forall j | 0 <= j < |t| - 2 ensures !SquashableAt(t[2..], j) {
        assert !SquashableAt(t, j + 2);
      }
      SquashEscapesKeeps(t[2..]);
      assert t == t[..2] + t[2..];
    } else if |t| > 0 {
      forall j | 0 <= j < |t| - 1 ensures !SquashableAt(t[1..], j) {
        assert !SquashableAt(t, j + 1);
      }
      SquashEscapesKeeps(t[1..]);
      assert t == [t[0]] + t[1..];
    }
  }

  /** Step 4 leaves the text as it is exactly when no backslash is followed by two
      letters `n`, and applying it twice is the same as applying it once. */
  lemma SquashEscapesFixed(t: string)
    ensures SquashEscapes(t) == t <==> Squashed(t)
    ensures SquashEscapes(SquashEscapes(t)) == SquashEscapes(t)
  {
    SquashEscapesSquashed(t);
    SquashEscapesKeeps(SquashEscapes(t));
    if Squashed(t) {
      SquashEscapesKeeps(t);
    }
  }

  /** A slice of a squashed text is squashed. */
  lemma SquashedSlice(s: string, lo: nat, hi: nat)
    requires lo <= hi <= |s| && Squashed(s)
    ensures Squashed(s[lo..hi])
  {
    forall j | 0 <= j < hi - lo ensures !SquashableAt(s[lo..hi], j) {
      assert !SquashableAt(s, lo + j);
    }
  }

  /** Trimming keeps a text squashed. */
  lemma StripSquashed(s: string)
    requires Squashed(s)
    ensures Squashed(Strip(s, JsSpace))
  {
    StripSlice(s, JsSpace);
    var l := LeadRun(s, JsSpace);
    SquashedSlice(s, l, l + |Strip(s, JsSpace)|);
  }

  // ---------------------------------------------------------------------------
  // The two helpers

  /** `cleanScriptWithRegex(text)`: the four replacements in order, then `trim()`.
      The result has no whitespace at either end and no backslash followed by two
      letters `n`. */
  function Clean(text: string): (r: string)
    ensures Stripped(r, JsSpace) && Squashed(r)
  {
    var u := ClearLines(TrimLines(CollapseBlankRuns(text)));
    SquashEscapesSquashed(u);
    StripSquashed(SquashEscapes(u));
    Strip(SquashEscapes(u), JsSpace)
  }

  /** The `map` callback of `formatScriptWithRegex`: a piece that starts with
      `Slide(s)` gets backslash-`n` in front of it unless it is the first. */
  function MarkPiece(line: string, index: nat): string {
    if HasPrefix(line, ScriptSegmenter.Marker) then (if index > 0 then EscapedNewline else "") + line
    else line
  }

  /** The callback applied to `ps`, whose first element has index `i`. */
  function MarkPieces(ps: seq<string>, i: nat): (r: seq<string>)
    ensures |r| == |ps|
  {
    if |ps| == 0 then [] else [MarkPiece(ps[0], i)] + MarkPieces(ps[1..], i + 1)
  }

  /** Piece `k` of the mapping: backslash-`n` goes in front of it exactly when it
      starts with `Slide(s)` and is not the first piece of the split. */
  lemma {:induction false} MarkPiecesAt(ps: seq<string>, i: nat, k: nat)
    requires k < |ps|
    ensures MarkPieces(ps, i)[k] ==
      if i + k > 0 && HasPrefix(ps[k], ScriptSegmenter.Marker) then EscapedNewline + ps[k] else ps[k]
    decreases k
  {
    if k == 0 {
      assert "" + ps[0] == ps[0];
    } else {
      MarkPiecesAt(ps[1..], i + 1, k - 1);
      assert ps[1..][k - 1] == ps[k];
    }
  }

  /** The split, map and join that `formatScriptWithRegex` applies to the cleaned
      text. */
  function Reflow(c: string): string {
    Join(MarkPieces(SplitOn(c, EscapedNewline), 0), EscapedNewline)
  }

  /** `formatScriptWithRegex(text)`. */
  function Format(text: string): string {
    Reflow(Clean(text))
  }

  /** How many of `ps` start with `Slide(s)` at an index above 0, when the first of
      them has index `i`. */
  function LaterHeaders(ps: seq<string>, i: nat): nat {
    if |ps| == 0 then 0
    else (if i > 0 && HasPrefix(ps[0], ScriptSegmenter.Marker) then 1 else 0) + LaterHeaders(ps[1..], i + 1)
  }

  /** Each marked piece adds exactly one backslash-`n` to the joined text. */
  lemma {:induction false} MarkPiecesLength(ps: seq<string>, i: nat, sep: string)
    ensures |Join(MarkPieces(ps, i), sep)| == |Join(ps, sep)| + |EscapedNewline| * LaterHeaders(ps, i)
  {
    if |ps| == 1 {
      assert ps[1..] == [];
    } else if |ps| > 1 {
      var ms := MarkPieces(ps, i);
      assert ms[0] == MarkPiece(ps[0], i) && ms[1..] == MarkPieces(ps[1..], i + 1);
      MarkPiecesLength(ps[1..], i + 1, sep);
    }
  }

  /** With no later piece starting with `Slide(s)` the callback changes nothing. */
  lemma {:induction false} MarkPiecesKeep(ps: seq<string>, i: nat)
    requires LaterHeaders(ps, i) == 0
    ensures MarkPieces(ps, i) == ps
  {
    if |ps| > 0 {
      MarkPiecesKeep(ps[1..], i + 1);
      assert MarkPiece(ps[0], i) == ps[0] by {
        if i == 0 && HasPrefix(ps[0], ScriptSegmenter.Marker) {
          assert "" + ps[0] == ps[0];
        }
      }
      assert ps == [ps[0]] + ps[1..];
    }
  }

  /** The output is longer than the cleaned text by one backslash-`n` per later
      piece that starts with `Slide(s)`, and equal to it exactly when there is
      none. */
  lemma ReflowSpec(c: string)
    ensures |Reflow(c)| == |c| + |EscapedNewline| * LaterHeaders(SplitOn(c, EscapedNewline), 0)
    ensures Reflow(c) == c <==> LaterHeaders(SplitOn(c, EscapedNewline), 0) == 0
  {
    var ps := SplitOn(c, EscapedNewline);
    JoinSplitOn(c, EscapedNewline);
    MarkPiecesLength(ps, 0, EscapedNewline);
    if LaterHeaders(ps, 0) == 0 {
      MarkPiecesKeep(ps, 0);
    }
  }

  /** Without any backslash-`n` in the cleaned text the split has one piece, and
      the output is the cleaned text itself. */
  lemma ReflowNoEscape(c: string)
    requires !Contains(c, EscapedNewline)
    ensures Reflow(c) == c
  {
    assert SplitOn(c, EscapedNewline) == [c];
    assert MarkPieces([c], 0) == [MarkPiece(c, 0)];
  }

  // ---------------------------------------------------------------------------
  // Normalising twice

  /** No backslash anywhere in `s`. */
  predicate NoBackslash(s: string) {
    forall i :: 0 <= i < |s| ==> s[i] != Backslash
  }

  /** A line-by-line replacement on text without line terminators rewrites it as
      one line. */
  lemma OneLine(t: string, f: string -> string)
    requires NoLineBreak(t)
    ensures EachLine(t, f) == f(t)
  {
    assert LineEnd(t) == |t|;
  }

  /** Step 1 finds nothing to collapse in text without backslashes. */
  lemma CollapsePlain(t: string)
    requires NoBackslash(t)
    ensures CollapseBlankRuns(t) == t
  {
    forall j | 0 <= j < |t| ensures !BlankRunMatchAt(t, j) {
      assert t[j..][0] == t[j];
    }
    CollapseNoMatch(t);
  }

  /** Stripping adds no backslash. */
  lemma StripPlain(t: string, cs: CharClass)
    requires NoBackslash(t)
    ensures NoBackslash(Strip(t, cs))
  {
    StripSlice(t, cs);
    var a, l := Strip(t, cs), LeadRun(t, cs);
    forall i | 0 <= i < |a| ensures a[i] != Backslash {
      assert a[i] == t[l + i];
    }
  }

  /** On one line without backslashes only step 2 and the final `trim()` do
      anything: the clean-up strips space, backslash and `t` from both ends, then
      whitespace. */
  lemma CleanPlain(t: string)
    requires NoBackslash(t) && NoLineBreak(t)
    ensures Clean(t) == Strip(Strip(t, LineEdge), JsSpace)
  {
    CollapsePlain(t);
    OneLine(t, TrimLine);
    var a := TrimLine(t);
    StripNoLineBreak(t, LineEdge);
    StripPlain(t, LineEdge);
    OneLine(a, ClearLine);
    assert ClearLine(a) == a;
    SquashEscapesKeeps(a);
  }

  /** Normalising is not idempotent. A tab in front of `t` is only removed by the
      final `trim()`, after step 2 has run, so the letter `t` it shields survives
      the first pass and the second pass strips it as a member of `[ \\t]`. The
      reflow has nothing to add to such a line, so `formatScriptWithRegex`
      inherits the difference. With `u == "a"`: `"\tta"` becomes `"ta"`, and
      `"ta"` becomes `"a"`. */
  lemma NormaliseNotIdempotent(u: string)
    requires u != [] && NoBackslash(u) && NoLineBreak(u)
    requires Stripped(u, LineEdge) && Stripped(u, JsSpace)
    ensures Clean("\tt" + u) == "t" + u && Clean(Clean("\tt" + u)) == u
    ensures Format("\tt" + u) == "t" + u && Format(Format("\tt" + u)) == u
  {
    CleanTwice(u);
    NoEscapePlain(u);
    NoEscapePlain("t" + u);
    ReflowNoEscape("t" + u);
    ReflowNoEscape(u);
  }

  /** The two passes of the clean-up on a tab, `t` and a plain line. */
  lemma CleanTwice(u: string)
    requires u != [] && NoBackslash(u) && NoLineBreak(u)
    requires Stripped(u, LineEdge) && Stripped(u, JsSpace)
    ensures Clean("\tt" + u) == "t" + u && Clean("t" + u) == u
  {
    var y := "t" + u;
    assert "\t" + y == "\tt" + u;
    PlainCons('t', u);
    CleanLetterT(u);
    assert Stripped(y, JsSpace) && y[|y| - 1] == u[|u| - 1];
    CleanTab(y);
  }

  /** The first pass: step 2 cannot reach past the tab, and `trim()` removes it. */
  lemma CleanTab(y: string)
    requires |y| > 0 && y[0] == 't' && NoBackslash(y) && NoLineBreak(y) && Stripped(y, JsSpace)
    requires !InClass(y[|y| - 1], LineEdge)
    ensures Clean("\t" + y) == y
  {
    var x := "\t" + y;
    PlainCons('\t', y);
    CleanPlain(x);
    StripNothing(x, LineEdge);
    StripTab(y);
  }

  /** The second pass: step 2 strips the leading `t`. */
  lemma CleanLetterT(u: string)
    requires NoBackslash(u) && NoLineBreak(u) && Stripped(u, LineEdge) && Stripped(u, JsSpace)
    ensures Clean("t" + u) == u
  {
    PlainCons('t', u);
    CleanPlain("t" + u);
    StripLetterT(u);
    StripNothing(u, JsSpace);
  }

  /** One more plain character in front of a plain line. */
  lemma PlainCons(c: char, u: string)
    requires c != Backslash && !IsJsLineTerminator(c) && NoBackslash(u) && NoLineBreak(u)
    ensures NoBackslash([c] + u) && NoLineBreak([c] + u)
  {
  }

  /** `trim()` removes the tab in front of `t` and nothing else. */
  lemma StripTab(y: string)
    requires |y| > 0 && y[0] == 't' && Stripped(y, JsSpace)
    ensures Strip("\t" + y, JsSpace) == y
  {
    var x := "\t" + y;
    assert x[1..] == y;
    assert LeadRun(x, JsSpace) == 1 + LeadRun(y, JsSpace);
    StripNothing(y, JsSpace);
  }

  /** Step 2 removes a leading `t`. */
  lemma StripLetterT(u: string)
    requires Stripped(u, LineEdge)
    ensures Strip("t" + u, LineEdge) == u
  {
    var y := "t" + u;
    assert y[1..] == u;
    assert LeadRun(y, LineEdge) == 1 + LeadRun(u, LineEdge);
    StripNothing(u, LineEdge);
  }

  /** Text without backslashes holds no backslash-`n`. */
  lemma NoEscapePlain(s: string)
    requires NoBackslash(s)
    ensures !Contains(s, EscapedNewline)
  {
    forall k: nat | k <= |s| ensures !OccursAt(s, EscapedNewline, k) {
      NoEscapeAt(s, k);
    }
  }

  lemma NoEscapeAt(s: string, k: nat)
    requires NoBackslash(s) && k <= |s|
    ensures !OccursAt(s, EscapedNewline, k)
  {
    if k + 2 <= |s| {
      assert s[k..k + 2][0] == s[k];
    }
  }
}
