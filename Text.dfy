/** Character classes and the string operations (strip, split, join, decimal
    numerals) that the JavaScript front end and the Python back end both use. */
module Text {

  datatype Option<T> = None | Some(value: T)

  const Backslash: char := '\\'

  /** ECMAScript WhiteSpace and LineTerminator code points: what `\s` matches in a
      regular expression and what `String.prototype.trim` removes. */
  predicate IsJsSpace(c: char) {
    || '\t' <= c <= '\r' || c == ' ' || c == '\U{A0}' || c == '\U{1680}'
    || '\U{2000}' <= c <= '\U{200A}' || c == '\U{2028}' || c == '\U{2029}'
    || c == '\U{202F}' || c == '\U{205F}' || c == '\U{3000}' || c == '\U{FEFF}'
  }

  /** ECMAScript LineTerminator code points: where `^` and `$` also match when a
      regular expression carries the `m` flag. */
  predicate IsJsLineTerminator(c: char) {
    c == '\n' || c == '\r' || c == '\U{2028}' || c == '\U{2029}'
  }

  /** Characters for which Python's `str.isspace` holds: what `str.strip()` with no
      argument removes. */
  predicate IsPySpace(c: char) {
    || '\t' <= c <= '\r' || '\U{1C}' <= c <= '\U{1F}' || c == ' ' || c == '\U{85}'
    || c == '\U{A0}' || c == '\U{1680}' || '\U{2000}' <= c <= '\U{200A}'
    || c == '\U{2028}' || c == '\U{2029}' || c == '\U{202F}' || c == '\U{205F}'
    || c == '\U{3000}'
  }

  /** The character sets the source strips or matches runs of. */
  datatype CharClass =
    | JsSpace        // `\s` and `trim()` in JavaScript
    | PySpace        // `strip()` in Python
    | BulletEdge     // the argument of `strip("-\u2022 ")` in Python
    | LineEdge       // the regular-expression class `[ \\t]`: space, backslash, letter t

  predicate InClass(c: char, k: CharClass) {
    match k
    case JsSpace => IsJsSpace(c)
    case PySpace => IsPySpace(c)
    case BulletEdge => c == '-' || c == '\U{2022}' || c == ' '
    case LineEdge => c == ' ' || c == Backslash || c == 't'
  }

  predicate IsDigit(c: char) {
    '0' <= c <= '9'
  }

  predicate HasPrefix(s: string, p: string) {
    |p| <= |s| && s[..|p|] == p
  }

  predicate AllIn(s: string, cs: CharClass) {
    forall i :: 0 <= i < |s| ==> InClass(s[i], cs)
  }

  /** Regrouping a concatenation of four strings. */
  lemma SeqAssoc(a: string, b: string, c: string, d: string)
    ensures a + b + c + d == a + (b + c + d)
  {
  }

  /** Concatenation is associative; stated once so that proofs about long
      sequences can use it without comparing them element by element. */
  lemma AppendAssoc<T>(a: seq<T>, b: seq<T>, c: seq<T>)
    ensures a + (b + c) == (a + b) + c
  {
  }

  lemma AppendEmpty<T>(a: seq<T>)
    ensures a + [] == a
  {
  }

  lemma DropAppend<T>(a: seq<T>, b: seq<T>, i: nat)
    requires i <= |a|
    ensures (a + b)[i..] == a[i..] + b
  {
  }

  lemma DropPast<T>(a: seq<T>, b: seq<T>, i: nat)
    requires i <= |b|
    ensures (a + b)[|a| + i..] == b[i..]
  {
  }

  lemma TakeAppend<T>(a: seq<T>, b: seq<T>, i: nat)
    requires i <= |a|
    ensures (a + b)[..i] == a[..i]
  {
  }

  lemma DropDrop<T>(s: seq<T>, i: nat, j: nat)
    requires i + j <= |s|
    ensures s[i..][j..] == s[i + j..]
  {
  }

  lemma SliceOfDrop<T>(s: seq<T>, i: nat, j: nat, k: nat)
    requires j <= k && i + k <= |s|
    ensures s[i..][j..k] == s[i + j..i + k]
  {
  }

  /** A slice followed by what comes after it in `s` is a suffix of `s`. */
  lemma SliceThenRest<T>(s: seq<T>, i: nat, j: nat, k: nat)
    requires i + k <= |s| && j <= k
    ensures s[i..i + k][j..] + s[i + k..] == s[i + j..]
  {
  }

  lemma TakeDrop<T>(s: seq<T>, k: nat)
    requires k <= |s|
    ensures s[..k] + s[k..] == s
  {
  }

  lemma SplitLast<T>(s: seq<T>)
    requires |s| > 0
    ensures s == s[..|s| - 1] + [s[|s| - 1]]
  {
  }

  /** A sequence is its three slices at `i` and `j` put back together. */
  lemma Reassemble<T>(s: seq<T>, i: nat, j: nat)
    requires i <= j <= |s|
    ensures s == s[..i] + s[i..j] + s[j..]
  {
  }

  // ---------------------------------------------------------------------------
  // Stripping

  /** Length of the longest prefix of `s` made of characters in `cs`. */
  function LeadRun(s: string, cs: CharClass): (k: nat)
    ensures k <= |s| && AllIn(s[..k], cs)
    ensures k < |s| ==> !InClass(s[k], cs)
  {
    if |s| == 0 || !InClass(s[0], cs) then 0 else 1 + LeadRun(s[1..], cs)
  }

  /** Length of the longest suffix of `s` made of characters in `cs`. */
  function TrailRun(s: string, cs: CharClass): (k: nat)
    ensures k <= |s| && AllIn(s[|s| - k..], cs)
    ensures k < |s| ==> !InClass(s[|s| - 1 - k], cs)
  {
    if |s| == 0 || !InClass(s[|s| - 1], cs) then 0
    else
      var init := s[..|s| - 1];
      var k := TrailRun(init, cs);
      assert s[|s| - (k + 1)..] == init[|init| - k..] + [s[|s| - 1]];
      assert k < |init| ==> s[|s| - 1 - (k + 1)] == init[|init| - 1 - k];
      1 + k
  }

  /** Neither end of `s` is a character of `cs`. */
  predicate Stripped(s: string, cs: CharClass) {
    s == [] || (!InClass(s[0], cs) && !InClass(s[|s| - 1], cs))
  }

  /** Removes the leading and trailing characters that belong to `cs`: JavaScript
      `trim()` when `cs` is JsSpace, Python `strip()` when it is PySpace and
      Python `strip("-\u2022 ")` when it is BulletEdge. */
  function Strip(s: string, cs: CharClass): (r: string)
    ensures Stripped(r, cs) && |r| <= |s|
  {
    var t := s[LeadRun(s, cs)..];
    t[..|t| - TrailRun(t, cs)]
  }

  /** Stripping a text made only of characters of `cs` leaves nothing. */
  lemma StripAll(s: string, cs: CharClass)
    requires AllIn(s, cs)
    ensures Strip(s, cs) == []
  {
  }

  /** Stripping a text whose ends are not in `cs` changes nothing. */
  lemma StripNothing(s: string, cs: CharClass)
    requires Stripped(s, cs)
    ensures Strip(s, cs) == s
  {
  }

  /** The stripped text is the slice of `s` between the two runs. */
  lemma StripSlice(s: string, cs: CharClass)
    ensures LeadRun(s, cs) + |Strip(s, cs)| <= |s|
    ensures Strip(s, cs) == s[LeadRun(s, cs)..LeadRun(s, cs) + |Strip(s, cs)|]
  {
  }

  /** Stripping a suffix of `p` gives a slice of `p`. */
  lemma StripOfSuffix(p: string, o: nat, cs: CharClass)
    requires o <= |p|
    ensures o + LeadRun(p[o..], cs) + |Strip(p[o..], cs)| <= |p|
    ensures Strip(p[o..], cs)
         == p[o + LeadRun(p[o..], cs)..o + LeadRun(p[o..], cs) + |Strip(p[o..], cs)|]
  {
    var l := LeadRun(p[o..], cs);
    StripSlice(p[o..], cs);
    SliceOfDrop(p, o, l, l + |Strip(p[o..], cs)|);
  }

  lemma {:induction false} LeadRunPadded(a: string, s: string, cs: CharClass)
    requires AllIn(a, cs) && (s == [] || !InClass(s[0], cs))
    ensures LeadRun(a + s, cs) == |a|
  {
    if |a| > 0 {
      assert (a + s)[1..] == a[1..] + s;
      LeadRunPadded(a[1..], s, cs);
    } else {
      assert a + s == s;
    }
  }

  lemma {:induction false} TrailRunPadded(s: string, b: string, cs: CharClass)
    requires AllIn(b, cs) && (s == [] || !InClass(s[|s| - 1], cs))
    ensures TrailRun(s + b, cs) == |b|
  {
    if |b| > 0 {
      assert (s + b)[..|s + b| - 1] == s + b[..|b| - 1];
      TrailRunPadded(s, b[..|b| - 1], cs);
    } else {
      assert s + b == s;
    }
  }

  /** Stripping undoes any padding made of characters of `cs`. */
  lemma StripPadded(a: string, s: string, b: string, cs: CharClass)
    requires AllIn(a, cs) && AllIn(b, cs) && Stripped(s, cs)
    requires s != [] || AllIn(a + b, cs)
    ensures Strip(a + s + b, cs) == s
  {
    if s == [] {
      assert a + s + b == a + b;
    } else {
      LeadRunPadded(a, s + b, cs);
      assert a + s + b == a + (s + b);
      assert (a + s + b)[|a|..] == s + b;
      TrailRunPadded(s, b, cs);
    }
  }

  // ---------------------------------------------------------------------------
  // Splitting on a string separator and joining

  predicate OccursAt(s: string, sep: string, k: nat) {
    k + |sep| <= |s| && s[k..k + |sep|] == sep
  }

  predicate Contains(s: string, sep: string) {
    exists k: nat | k <= |s| :: OccursAt(s, sep, k)
  }

  /** The first position at or after `i` where `sep` occurs in `s`, or `|s|` when
      there is none. */
  function FindFrom(s: string, sep: string, i: nat): (k: nat)
    requires |sep| > 0 && i <= |s|
    ensures i <= k <= |s|
    ensures k < |s| ==> OccursAt(s, sep, k)
    ensures forall j: nat :: i <= j < k ==> !OccursAt(s, sep, j)
    decreases |s| - i
  {
    if i == |s| then |s|
    else if OccursAt(s, sep, i) then i
    else FindFrom(s, sep, i + 1)
  }

  /** `s.split(sep)` for a non-empty separator string: the text between the
      non-overlapping occurrences of `sep`, found left to right. JavaScript's
      `String.prototype.split` and Python's `str.split` agree on this case. */
  function SplitOn(s: string, sep: string): (r: seq<string>)
    requires |sep| > 0
    ensures |r| >= 1
    ensures forall i :: 0 <= i < |r| ==> !Contains(r[i], sep)
    decreases |s|
  {
    var k := FindFrom(s, sep, 0);
    if k == |s| then
      assert !Contains(s, sep) by {
        forall j: nat ensures !OccursAt(s, sep, j) {
          if j >= |s| { assert j + |sep| > |s|; }
        }
      }
      [s]
    else
      assert !Contains(s[..k], sep) by {
        forall j: nat | j <= k ensures !OccursAt(s[..k], sep, j) {
          if j + |sep| <= k {
            assert s[..k][j..j + |sep|] == s[j..j + |sep|];
            assert !OccursAt(s, sep, j);
          }
        }
      }
      [s[..k]] + SplitOn(s[k + |sep|..], sep)
  }

  /** `sep.join(parts)` in Python, `parts.join(sep)` in JavaScript. */
  function Join(parts: seq<string>, sep: string): string {
    if |parts| == 0 then ""
    else if |parts| == 1 then parts[0]
    else parts[0] + sep + Join(parts[1..], sep)
  }

  /** One more part in front of a non-empty list. */
  lemma JoinCons(x: string, ys: seq<string>, sep: string)
    requires |ys| > 0
    ensures Join([x] + ys, sep) == x + sep + Join(ys, sep)
  {
    assert ([x] + ys)[1..] == ys;
  }

  /** The first piece of a split and the split of the rest. */
  lemma SplitOnCons(s: string, sep: string, k: nat)
    requires |sep| > 0 && k == FindFrom(s, sep, 0) && k < |s|
    ensures SplitOn(s, sep) == [s[..k]] + SplitOn(s[k + |sep|..], sep)
    ensures s == s[..k] + sep + s[k + |sep|..]
  {
    assert OccursAt(s, sep, k);
    Reassemble(s, k, k + |sep|);
  }

  /** Joining the pieces of a split with the same separator gives back the text. */
  lemma {:induction false} JoinSplitOn(s: string, sep: string)
    requires |sep| > 0
    ensures Join(SplitOn(s, sep), sep) == s
    decreases |s|
  {
    var k := FindFrom(s, sep, 0);
    if k < |s| {
      var rest := s[k + |sep|..];
      SplitOnCons(s, sep, k);
      JoinSplitOn(rest, sep);
      JoinCons(s[..k], SplitOn(rest, sep), sep);
    }
  }

  /** A text without the separator is not split. */
  lemma SplitNone(s: string, sep: string)
    requires |sep| > 0 && !Contains(s, sep)
    ensures SplitOn(s, sep) == [s]
  {
  }

  /** FindFrom is determined by its properties. */
  lemma FindFromIs(s: string, sep: string, k: nat)
    requires |sep| > 0 && k < |s| && OccursAt(s, sep, k)
    requires forall j: nat :: j < k ==> !OccursAt(s, sep, j)
    ensures FindFrom(s, sep, 0) == k
  {
  }

  /** A one-character separator occurs in a text exactly where its character
      does. */
  lemma ContainsChar(s: string, c: char)
    ensures Contains(s, [c]) <==> exists k :: 0 <= k < |s| && s[k] == c
  {
    if exists k :: 0 <= k < |s| && s[k] == c {
      var k :| 0 <= k < |s| && s[k] == c;
      assert OccursAt(s, [c], k);
    }
    if Contains(s, [c]) {
      var k: nat :| k <= |s| && OccursAt(s, [c], k);
      assert s[k..k + 1][0] == s[k];
    }
  }

  /** Removing element `k` and putting it back. */
  lemma RemoveAt<T>(s: seq<T>, k: nat)
    requires k < |s|
    ensures (s[..k] + s[k + 1..])[..k] == s[..k] && (s[..k] + s[k + 1..])[k..] == s[k + 1..]
    ensures s == s[..k] + [s[k]] + s[k + 1..]
  {
  }

  /** Three texts without a character concatenate to a text without it. */
  lemma NoCharInside(a: string, b: string, d: string, c: char)
    requires !Contains(a, [c]) && !Contains(b, [c]) && !Contains(d, [c])
    ensures !Contains(a + b + d, [c])
  {
    ContainsChar(a, c);
    ContainsChar(b, c);
    ContainsChar(d, c);
    ContainsChar(a + b + d, c);
    forall k | 0 <= k < |a + b + d| ensures (a + b + d)[k] != c {
      if k < |a| {
        assert (a + b + d)[k] == a[k];
      } else if k < |a| + |b| {
        assert (a + b + d)[k] == b[k - |a|];
      } else {
        assert (a + b + d)[k] == d[k - |a| - |b|];
      }
    }
  }

  /** Splitting at a one-character separator undoes joining with it when no part
      holds that character. */
  lemma {:induction false} SplitJoinChar(ps: seq<string>, sep: string)
    requires |sep| == 1 && |ps| >= 1
    requires forall i :: 0 <= i < |ps| ==> !Contains(ps[i], sep)
    ensures SplitOn(Join(ps, sep), sep) == ps
    decreases |ps|
  {
    var p := ps[0];
    if |ps| == 1 {
      SplitNone(p, sep);
    } else {
      var rest := Join(ps[1..], sep);
      var s := p + sep + rest;
      assert Join(ps, sep) == s;
      assert s[..|p|] == p && s[|p|..|p| + 1] == sep && s[|p| + 1..] == rest;
      forall j: nat | j < |p| ensures !OccursAt(s, sep, j) {
        if OccursAt(s, sep, j) {
          assert s[j..j + 1] == p[j..j + 1];
          assert OccursAt(p, sep, j);
        }
      }
      FindFromIs(s, sep, |p|);
      SplitOnCons(s, sep, |p|);
      SplitJoinChar(ps[1..], sep);
      assert ps == [p] + ps[1..];
    }
  }

  /** A joined text starts where its first part starts. */
  lemma JoinFirst(ps: seq<string>, sep: string)
    requires |ps| > 0 && ps[0] != []
    ensures Join(ps, sep) != [] && Join(ps, sep)[0] == ps[0][0]
  {
  }

  /** A joined text ends where its last part ends. */
  lemma {:induction false} JoinLast(ps: seq<string>, sep: string)
    requires |ps| > 0 && ps[|ps| - 1] != []
    ensures Join(ps, sep) != [] && Join(ps, sep)[|Join(ps, sep)| - 1] == ps[|ps| - 1][|ps[|ps| - 1]| - 1]
  {
    if |ps| > 1 {
      JoinLast(ps[1..], sep);
    }
  }

  /** Stripping adds no character: a character absent from a text is absent from
      its stripped form. */
  lemma StripKeepsOut(s: string, cs: CharClass, c: char)
    requires !Contains(s, [c])
    ensures !Contains(Strip(s, cs), [c])
  {
    var t := Strip(s, cs);
    var a := LeadRun(s, cs);
    StripSlice(s, cs);
    ContainsChar(s, c);
    ContainsChar(t, c);
    forall k | 0 <= k < |t| ensures t[k] != c {
      assert t[k] == s[a + k];
    }
  }

  /** Joining splits at the seam between two non-empty lists of parts. */
  lemma {:induction false} JoinAppend(xs: seq<string>, ys: seq<string>, sep: string)
    requires |xs| > 0 && |ys| > 0
    ensures Join(xs + ys, sep) == Join(xs, sep) + sep + Join(ys, sep)
  {
    if |xs| == 1 {
      assert (xs + ys)[1..] == ys;
    } else {
      assert (xs + ys)[1..] == xs[1..] + ys;
      JoinAppend(xs[1..], ys, sep);
    }
  }

  // ---------------------------------------------------------------------------
  // Decimal numerals

  predicate AllDigits(s: string) {
    forall i :: 0 <= i < |s| ==> IsDigit(s[i])
  }

  /** A non-empty digit string without leading zeros, as `toString` writes one. */
  predicate IsCanonicalNumeral(s: string) {
    |s| > 0 && AllDigits(s) && (s[0] == '0' ==> |s| == 1)
  }

  function DigitValue(c: char): nat
    requires IsDigit(c)
  {
    c as int - '0' as int
  }

  function DigitChar(d: nat): (c: char)
    requires d < 10
    ensures IsDigit(c) && DigitValue(c) == d
  {
    ('0' as int + d) as char
  }

  /** `parseInt(s, 10)` of a string of decimal digits. */
  function DigitsValue(s: string): nat
    requires AllDigits(s)
  {
    if |s| == 0 then 0 else 10 * DigitsValue(s[..|s| - 1]) + DigitValue(s[|s| - 1])
  }

  /** `n.toString()`: the canonical decimal numeral of `n`, which reads back as `n`. */
  function NatToString(n: nat): (r: string)
    ensures IsCanonicalNumeral(r) && DigitsValue(r) == n
  {
    if n < 10 then [DigitChar(n)]
    else
      var r := NatToString(n / 10) + [DigitChar(n % 10)];
      assert r[..|r| - 1] == NatToString(n / 10);
      r
  }

  lemma {:induction false} LeadingDigitPositive(s: string)
    requires |s| > 0 && AllDigits(s) && s[0] != '0'
    ensures DigitsValue(s) >= 1
  {
    if |s| > 1 {
      LeadingDigitPositive(s[..|s| - 1]);
    }
  }

  /** A canonical numeral is the `toString` of its own value: `parseInt` followed by
      `toString` loses nothing but leading zeros. */
  lemma {:induction false} NumeralRoundTrip(s: string)
    requires IsCanonicalNumeral(s)
    ensures NatToString(DigitsValue(s)) == s
  {
    if |s| > 1 {
      var init := s[..|s| - 1];
      LeadingDigitPositive(init);
      NumeralRoundTrip(init);
      SplitLast(s);
    }
  }
}
