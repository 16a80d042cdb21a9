/** `extract_text_from_ppt`: one record per slide of a presentation, with a
    title, the remaining text, the speaker notes and all of the slide's text.
    A slide is given as the texts of its shapes and of its notes frame, as the
    presentation library reports them. */
module SlideExtraction {
  import opened Text

  /** A slide: for each shape, its text when the shape has a `text` attribute;
      the text of the notes frame when the slide has one. */
  datatype Slide = Slide(shapes: seq<Option<string>>, notes: Option<string>)

  /** `slide_data`. */
  datatype SlideData = SlideData(
    slideNumber: nat, title: string, content: string, notes: string, allText: string)

  /** `extracted_data`: the records and `slide_count`. */
  datatype Extracted = Extracted(slideContent: seq<SlideData>, slideCount: nat)

  /** A kept text shorter than this can become the title. */
  const TitleLimit: nat := 100

  // ---------------------------------------------------------------------------
  // Reference definitions

  /** What one shape contributes to `slide_texts`: its stripped text, unless the
      shape has none or it strips to nothing. */
  function Keep(shape: Option<string>): seq<string> {
    if shape.Some? && Strip(shape.value, PySpace) != "" then [Strip(shape.value, PySpace)] else []
  }

  /** The kept texts of the shapes, in shape order. */
  function KeptTexts(shapes: seq<Option<string>>): (ts: seq<string>)
    ensures forall i :: 0 <= i < |ts| ==> ts[i] != ""
  {
    if |shapes| == 0 then [] else KeptTexts(shapes[..|shapes| - 1]) + Keep(shapes[|shapes| - 1])
  }

  /** Index of the first text shorter than the title limit, or `|ts|`. */
  function FirstShort(ts: seq<string>): (k: nat)
    ensures k <= |ts| && (k < |ts| ==> |ts[k]| < TitleLimit)
    ensures forall j :: 0 <= j < k ==> |ts[j]| >= TitleLimit
  {
    if |ts| == 0 || |ts[0]| < TitleLimit then 0 else 1 + FirstShort(ts[1..])
  }

  /** `ts` without its element at `k`, when there is one. */
  function Without<T>(ts: seq<T>, k: nat): seq<T> {
    if k < |ts| then ts[..k] + ts[k + 1..] else ts
  }

  /** Each text followed by a newline, in order. */
  function Terminated(ts: seq<string>): string {
    if |ts| == 0 then "" else Terminated(ts[..|ts| - 1]) + ts[|ts| - 1] + "\n"
  }

  /** The title: the first kept text shorter than the limit, or empty. */
  function TitleOf(ts: seq<string>): string {
    var k := FirstShort(ts);
    if k < |ts| then ts[k] else ""
  }

  /** The content: every kept text but the title, each followed by a newline. */
  function ContentOf(ts: seq<string>): string {
    Terminated(Without(ts, FirstShort(ts)))
  }

  /** The stored notes: the stripped notes text, empty without a notes frame. */
  function NotesOf(notes: Option<string>): string {
    if notes.Some? then Strip(notes.value, PySpace) else ""
  }

  /** The entry the notes add to `slide_texts`. */
  function NoteEntries(notes: Option<string>): seq<string> {
    if NotesOf(notes) != "" then ["[Speaker Notes: " + NotesOf(notes) + "]"] else []
  }

  /** The record of `slide` numbered `number`. */
  function SlideRecord(slide: Slide, number: nat): SlideData {
    var ts := KeptTexts(slide.shapes);
    SlideData(number, TitleOf(ts), ContentOf(ts), NotesOf(slide.notes),
              Join(ts + NoteEntries(slide.notes), "\n"))
  }

  // ---------------------------------------------------------------------------
  // Properties of the reference definitions

  /** The first short text of two lists back to back: that of the first list,
      or else that of the second. */
  lemma {:induction false} FirstShortAppend(xs: seq<string>, ys: seq<string>)
    ensures FirstShort(xs + ys) == if FirstShort(xs) < |xs| then FirstShort(xs) else |xs| + FirstShort(ys)
  {
    if |xs| == 0 {
      assert xs + ys == ys;
    } else if |xs[0]| < TitleLimit {
      assert (xs + ys)[0] == xs[0];
    } else {
      assert (xs + ys)[0] == xs[0];
      assert (xs + ys)[1..] == xs[1..] + ys;
      FirstShortAppend(xs[1..], ys);
    }
  }

  /** One more text at the end of the content. */
  lemma TerminatedSnoc(xs: seq<string>, t: string)
    ensures Terminated(xs + [t]) == Terminated(xs) + t + "\n"
  {
    assert (xs + [t])[..|xs|] == xs;
  }

  /** Removing an element before the end commutes with appending. */
  lemma WithoutSnoc<T>(s: seq<T>, k: nat, x: T)
    requires k < |s|
    ensures Without(s + [x], k) == Without(s, k) + [x]
  {
  }

  /** Removing the last element. */
  lemma WithoutLast<T>(s: seq<T>, x: T)
    ensures Without(s + [x], |s|) == s
  {
    assert (s + [x])[..|s|] == s;
  }

  /** Once there is a title, a further text keeps it and goes to the content. */
  lemma TitleStays(ts: seq<string>, t: string)
    requires FirstShort(ts) < |ts|
    ensures TitleOf(ts + [t]) == TitleOf(ts) && ContentOf(ts + [t]) == ContentOf(ts) + t + "\n"
  {
    var k := FirstShort(ts);
    FirstShortAppend(ts, [t]);
    WithoutSnoc(ts, k, t);
    TerminatedSnoc(Without(ts, k), t);
  }

  /** Without a title yet, a short text becomes the title. */
  lemma TitleFound(ts: seq<string>, t: string)
    requires FirstShort(ts) == |ts| && |t| < TitleLimit
    ensures TitleOf(ts + [t]) == t && ContentOf(ts + [t]) == ContentOf(ts)
  {
    var us := ts + [t];
    FirstShortAppend(ts, [t]);
    assert FirstShort([t]) == 0;
    var k := FirstShort(us);
    assert k == |ts|;
    WithoutLast(ts, t);
    assert us[k] == t;
  }

  /** Without a title yet, a long text goes to the content. */
  lemma TitleStillMissing(ts: seq<string>, t: string)
    requires FirstShort(ts) == |ts| && |t| >= TitleLimit
    ensures TitleOf(ts + [t]) == "" && ContentOf(ts + [t]) == ContentOf(ts) + t + "\n"
  {
    var us := ts + [t];
    FirstShortAppend(ts, [t]);
    assert FirstShort([t]) == 1 by {
      assert [t][1..] == [];
    }
    assert Without(us, |us|) == us && Without(ts, |ts|) == ts;
    TerminatedSnoc(ts, t);
  }

  /** One more kept text: the title stays once found; otherwise a short text
      becomes the title and a long one goes to the content. */
  lemma TitleStep(ts: seq<string>, t: string)
    requires forall i :: 0 <= i < |ts| ==> ts[i] != ""
    ensures TitleOf(ts) == "" && |t| < TitleLimit ==>
      TitleOf(ts + [t]) == t && ContentOf(ts + [t]) == ContentOf(ts)
    ensures !(TitleOf(ts) == "" && |t| < TitleLimit) ==>
      TitleOf(ts + [t]) == TitleOf(ts) && ContentOf(ts + [t]) == ContentOf(ts) + t + "\n"
  {
    if FirstShort(ts) < |ts| {
      TitleStays(ts, t);
    } else if |t| < TitleLimit {
      TitleFound(ts, t);
    } else {
      TitleStillMissing(ts, t);
    }
  }

  /** Title rule: the title is empty exactly when no kept text is shorter than the
      limit; otherwise it is such a text and every kept text before it is
      longer. */
  lemma TitleRule(ts: seq<string>)
    requires forall i :: 0 <= i < |ts| ==> ts[i] != ""
    ensures TitleOf(ts) == "" <==> forall i :: 0 <= i < |ts| ==> |ts[i]| >= TitleLimit
    ensures TitleOf(ts) != "" ==> exists k :: 0 <= k < |ts| && ts[k] == TitleOf(ts)
                                     && |ts[k]| < TitleLimit
                                     && forall j :: 0 <= j < k ==> |ts[j]| >= TitleLimit
  {
    var k := FirstShort(ts);
    if k < |ts| {
      assert ts[k] != "";
    }
  }

  /** No text is lost or duplicated: the kept texts are the content's texts with
      the title put back in its place, when there is one. */
  lemma ContentPartition(ts: seq<string>)
    ensures var k := FirstShort(ts);
      k < |ts| ==> ts == Without(ts, k)[..k] + [TitleOf(ts)] + Without(ts, k)[k..]
    ensures FirstShort(ts) == |ts| ==> ContentOf(ts) == Terminated(ts)
  {
    var k := FirstShort(ts);
    if k < |ts| {
      RemoveAt(ts, k);
    }
  }

  /** Every kept text is stored stripped. */
  lemma {:induction false} KeptStripped(shapes: seq<Option<string>>)
    ensures forall i :: 0 <= i < |KeptTexts(shapes)| ==> Stripped(KeptTexts(shapes)[i], PySpace)
  {
    if |shapes| > 0 {
      KeptStripped(shapes[..|shapes| - 1]);
    }
  }

  /** One more shape in the loop. */
  lemma KeptStep(shapes: seq<Option<string>>, i: nat)
    requires i < |shapes|
    ensures KeptTexts(shapes[..i + 1]) == KeptTexts(shapes[..i]) + Keep(shapes[i])
  {
    assert shapes[..i + 1][..i] == shapes[..i];
  }

  /** The content's texts concatenate in order. */
  lemma {:induction false} TerminatedAppend(xs: seq<string>, ys: seq<string>)
    ensures Terminated(xs + ys) == Terminated(xs) + Terminated(ys)
    decreases |ys|
  {
    if |ys| == 0 {
      assert xs + ys == xs;
    } else {
      var zs := xs + ys;
      assert zs[..|zs| - 1] == xs + ys[..|ys| - 1];
      TerminatedAppend(xs, ys[..|ys| - 1]);
    }
  }

  // ---------------------------------------------------------------------------
  // The loops

  /** One pass of the shape loop: a shape with text that does not strip to
      nothing is kept; it becomes the title when there is none yet and it is
      short, and goes to the content otherwise. */
  method KeepShape(texts: seq<string>, title: string, content: string, shape: Option<string>)
    returns (texts': seq<string>, title': string, content': string)
    requires forall i :: 0 <= i < |texts| ==> texts[i] != ""
    requires title == TitleOf(texts) && content == ContentOf(texts)
    ensures texts' == texts + Keep(shape)
    ensures title' == TitleOf(texts') && content' == ContentOf(texts')
  {
    texts', title', content' := texts, title, content;
    if shape.Some? && Strip(shape.value, PySpace) != "" {
      var text := Strip(shape.value, PySpace);
      TitleStep(texts, text);
      texts' := texts + [text];
      if title == "" && |text| < TitleLimit {
        title' := text;
      } else {
        content' := content + text + "\n";
      }
    } else {
      AppendEmpty(texts);
    }
  }

  /** The shape loop of one slide: the kept texts in shape order, the title and
      the content. */
  method ExtractShapes(shapes: seq<Option<string>>) returns (texts: seq<string>, title: string, content: string)
    ensures texts == KeptTexts(shapes)
    ensures title == TitleOf(texts) && content == ContentOf(texts)
  {
    title := "";
    content := "";
    texts := [];
    var i := 0;
    while i < |shapes|
      invariant i <= |shapes|
      invariant texts == KeptTexts(shapes[..i])
      invariant title == TitleOf(texts) && content == ContentOf(texts)
    {
      KeptStep(shapes, i);
      texts, title, content := KeepShape(texts, title, content, shapes[i]);
      i := i + 1;
    }
    assert shapes[..i] == shapes;
  }

  /** The body of the slide loop: the shape loop fills the title, the content
      and `slide_texts`, then the notes are added and `all_text` is joined. */
  method ExtractSlide(slide: Slide, number: nat) returns (d: SlideData)
    ensures d == SlideRecord(slide, number)
  {
    var texts, title, content := ExtractShapes(slide.shapes);
    var notes := "";
    var lines := texts;
    if slide.notes.Some? {
      var notesText := Strip(slide.notes.value, PySpace);
      if notesText != "" {
        notes := notesText;
        lines := texts + ["[Speaker Notes: " + notesText + "]"];
      }
    }
    if notes == "" {
      AppendEmpty(texts);
    }
    assert lines == texts + NoteEntries(slide.notes);
    d := SlideData(number, title, content, notes, Join(lines, "\n"));
  }

  /** The records of the slides, numbered from 1 in slide order. */
  function Records(slides: seq<Slide>): seq<SlideData> {
    if |slides| == 0 then []
    else Records(slides[..|slides| - 1]) + [SlideRecord(slides[|slides| - 1], |slides|)]
  }

  /** One record per slide. */
  lemma {:induction false} RecordsLength(slides: seq<Slide>)
    ensures |Records(slides)| == |slides|
  {
    if |slides| > 0 {
      RecordsLength(slides[..|slides| - 1]);
    }
  }

  /** Record `i` is that of slide `i`, numbered `i + 1`. */
  lemma {:induction false} RecordAt(slides: seq<Slide>, i: nat)
    requires i < |slides|
    ensures |Records(slides)| == |slides| && Records(slides)[i] == SlideRecord(slides[i], i + 1)
  {
    var n := |slides|;
    var init := slides[..n - 1];
    var last := SlideRecord(slides[n - 1], n);
    RecordsLength(slides);
    RecordsLength(init);
    assert Records(slides) == Records(init) + [last];
    if i < n - 1 {
      RecordAt(init, i);
      assert init[i] == slides[i];
      assert Records(slides)[i] == Records(init)[i];
    } else {
      assert Records(slides)[i] == last;
    }
  }

  /** One more slide for the loop. */
  lemma RecordsStep(slides: seq<Slide>, n: nat, next: nat)
    requires n < |slides| && next == n + 1
    ensures Records(slides[..next]) == Records(slides[..n]) + [SlideRecord(slides[n], next)]
  {
    assert slides[..next][..n] == slides[..n];
  }

  /** `extract_text_from_ppt`: the records of the slides and the slide count. */
  method ExtractText(slides: seq<Slide>) returns (data: Extracted)
    ensures data.slideContent == Records(slides) && data.slideCount == |slides|
  {
    var records: seq<SlideData> := [];
    var n := 0;
    while n < |slides|
      invariant n <= |slides|
      invariant records == Records(slides[..n])
    {
      var next := n + 1;
      var d := ExtractSlide(slides[n], next);
      RecordsStep(slides, n, next);
      records := records + [d];
      n := next;
    }
    assert slides[..n] == slides;
    data := Extracted(records, |slides|);
  }

  /** The notes entry holds a newline only if the notes do. */
  lemma EntryNoNewline(n: string)
    requires !Contains(n, "\n")
    ensures !Contains("[Speaker Notes: " + n + "]", "\n")
  {
    ContainsChar("[Speaker Notes: ", '\n');
    ContainsChar("]", '\n');
    NoCharInside("[Speaker Notes: ", n, "]", '\n');
  }

  /** Read back: when no kept text and no notes text holds a newline, splitting
      `all_text` at newlines gives the kept texts in shape order followed by the
      notes entry when there are notes. */
  lemma AllTextLines(ts: seq<string>, notes: Option<string>)
    requires forall i :: 0 <= i < |ts| ==> !Contains(ts[i], "\n")
    requires !Contains(NotesOf(notes), "\n")
    requires |ts| + |NoteEntries(notes)| > 0
    ensures SplitOn(Join(ts + NoteEntries(notes), "\n"), "\n") == ts + NoteEntries(notes)
  {
    var ps := ts + NoteEntries(notes);
    if NotesOf(notes) != "" {
      EntryNoNewline(NotesOf(notes));
    }
    forall i | 0 <= i < |ps| ensures !Contains(ps[i], "\n") {
      if i < |ts| {
        assert ps[i] == ts[i];
      }
    }
    SplitJoinChar(ps, "\n");
  }
}
