/** The state of the script panel: the script and the records parsed from it,
    which the application context holds, and the editing state of the panel
    itself. The effect that re-parses the script and the save, edit, cancel and
    selection handlers are the methods of one class. */
module ScriptPanel {
  import opened Text
  import opened ScriptSegmenter

  /** `parseSlides.length`: the number of declared parameters of the arrow
      function `parseSlides`, which the effect stores as the slide total. */
  const ParseSlidesArity: nat := 1

  /** The slide total the effect stores, as written: the arity of `parseSlides`
      for a non-empty script and 0 for the empty one. The contract pins the
      result down completely; it is the as-written half of the arity finding,
      set against the record count in SyncScriptCounted and ArityMismatch. */
  function EffectTotal(script: string): (n: nat)
    ensures n <= 1 && (n == 0 <==> script == "")
  {
    if script != "" then ParseSlidesArity else 0
  }

  /** `updatedSlides` in `handleSaveEdit`: record `i` with its content replaced by
      `c` and its slide number kept. */
  function WithContent(rs: seq<ParsedSlide>, i: nat, c: string): (us: seq<ParsedSlide>)
    requires i < |rs|
    ensures |us| == |rs| && us[i] == ParsedSlide(rs[i].slideNumber, c)
    ensures forall j :: 0 <= j < |rs| && j != i ==> us[j] == rs[j]
  {
    rs[i := ParsedSlide(rs[i].slideNumber, c)]
  }

  /** Replacing one record replaces exactly one block of the reconstruction:
      the saved script differs from the old reconstruction only in the block of
      the edited slide. */
  lemma {:induction false} BlocksUpdate(rs: seq<ParsedSlide>, i: nat, r: ParsedSlide)
    requires i < |rs|
    ensures Blocks(rs[i := r]) == Blocks(rs)[i := Block(r)]
  {
    var us := rs[i := r];
    if i == 0 {
      assert us[1..] == rs[1..];
    } else {
      assert us[1..] == rs[1..][i - 1 := r];
      BlocksUpdate(rs[1..], i - 1, r);
    }
  }

  /** A save whose new content is trimmed and has no marker in it reads back,
      after the effect re-parses the saved script, as exactly the edited
      records. */
  lemma EditRoundTrip(rs: seq<ParsedSlide>, i: nat, c: string)
    requires AllSafe(rs) && i < |rs| && Stripped(c, JsSpace) && NoMarker(c)
    ensures Parse(Reconstruct(WithContent(rs, i, c))) == WithContent(rs, i, c)
  {
    var us := WithContent(rs, i, c);
    assert SafeRecord(us[i]) by {
      assert us[i].slideNumber == rs[i].slideNumber && SafeRecord(rs[i]);
    }
    RoundTrip(us);
  }

  /** The slide total as written disagrees with the number of records: two
      records parse from a reconstructed script while the effect stores 1. */
  lemma ArityMismatch()
    ensures var s := Reconstruct([ParsedSlide("1", "a"), ParsedSlide("2", "b")]);
      |Parse(s)| == 2 && EffectTotal(s) == 1
  {
    var rs := [ParsedSlide("1", "a"), ParsedSlide("2", "b")];
    assert NoMarker("a") by {
      assert !MarkerAt("a", 0);
    }
    assert NoMarker("b") by {
      assert !MarkerAt("b", 0);
    }
    assert SafeRecord(rs[0]) && SafeRecord(rs[1]);
    RoundTrip(rs);
    var s := Reconstruct(rs);
    assert |s| > 0 by {
      ReconstructCons(rs);
    }
  }

  class ScriptDisplayPanel {
    /** The generated script, `script` in the application context. */
    var script: string
    /** The records shown in the slide list, `parsedSlides` in the context. */
    var parsedSlides: seq<ParsedSlide>
    /** Index of the selected record; JavaScript numbers become integers. */
    var selectedSlide: int
    /** `totalSlides` in the context. */
    var totalSlides: int
    var isEditing: bool
    /** The text of the edit box. */
    var editingContent: string

    /** The initial state: an empty script, no records, slide 0 selected, not
        editing. */
    constructor ()
      ensures script == "" && parsedSlides == [] && selectedSlide == 0 && totalSlides == 0
      ensures !isEditing && editingContent == ""
    {
      script := "";
      parsedSlides := [];
      selectedSlide := 0;
      totalSlides := 0;
      isEditing := false;
      editingContent := "";
    }

    /** `parsedSlides[selectedSlide]` is a record, which is what the handlers
        test. */
    predicate HasSelection()
      reads this
    {
      0 <= selectedSlide < |parsedSlides|
    }

    /** The slide total matches the records. */
    predicate Counted()
      reads this
    {
      totalSlides == |parsedSlides|
    }

    /** The effect that runs whenever `script` changes, as written: a non-empty
        script is parsed and the total becomes the arity of `parseSlides`; the
        empty script clears the records and resets the selection and the total. */
    method SyncScript()
      modifies this
      ensures script != "" ==> parsedSlides == Parse(script) && selectedSlide == old(selectedSlide)
      ensures script == "" ==> parsedSlides == [] && selectedSlide == 0
      ensures totalSlides == EffectTotal(script)
      ensures script == old(script) && isEditing == old(isEditing)
      ensures editingContent == old(editingContent)
    {
      if script != "" {
        parsedSlides := ParseSlides(script);
        totalSlides := ParseSlidesArity;
      } else {
        parsedSlides := [];
        selectedSlide := 0;
        totalSlides := 0;
      }
    }

    /** The effect with the total counted from the records, as `handleSaveEdit`
        does: afterwards the total matches the records. */
    method SyncScriptCounted()
      modifies this
      ensures parsedSlides == Parse(script) && Counted()
      ensures script == "" ==> parsedSlides == [] && selectedSlide == 0 && totalSlides == 0
      ensures script != "" ==> selectedSlide == old(selectedSlide)
      ensures script == old(script) && isEditing == old(isEditing)
      ensures editingContent == old(editingContent)
    {
      if script != "" {
        parsedSlides := ParseSlides(script);
        totalSlides := |parsedSlides|;
      } else {
        ParseEmpty();
        parsedSlides := [];
        selectedSlide := 0;
        totalSlides := 0;
      }
    }

    /** `handleSaveEdit`: with a record selected, its content becomes the edit
        box's text, the total is counted, the script becomes the reconstruction
        of the records and editing ends; otherwise nothing changes. */
    method SaveEdit()
      modifies this
      ensures old(HasSelection()) ==>
        && parsedSlides == WithContent(old(parsedSlides), old(selectedSlide), old(editingContent))
        && Counted() && script == Reconstruct(parsedSlides)
        && !isEditing && editingContent == "" && selectedSlide == old(selectedSlide)
      ensures !old(HasSelection()) ==> unchanged(this)
    {
      if 0 <= selectedSlide < |parsedSlides| {
        var updated := parsedSlides[selectedSlide := ParsedSlide(parsedSlides[selectedSlide].slideNumber, editingContent)];
        parsedSlides := updated;
        totalSlides := |updated|;
        script := Reconstruct(updated);
        isEditing := false;
        editingContent := "";
      }
    }

    /** A save followed by the effect it triggers. React runs the effect when the
        saved script differs from the old one; the records are then re-parsed from
        the saved script and the total becomes the arity of `parseSlides` again.
        When the edit is safe the re-parse gives the edited records back, so the
        records are right while the total is 1. */
    method SaveAndSync()
      modifies this
      ensures !old(HasSelection()) ==> unchanged(this)
      ensures old(HasSelection()) ==>
        var us := WithContent(old(parsedSlides), old(selectedSlide), old(editingContent));
        && script == Reconstruct(us) && !isEditing && editingContent == ""
        && selectedSlide == old(selectedSlide)
        && (script == old(script) ==> parsedSlides == us && Counted())
        && (script != old(script) ==> parsedSlides == Parse(script) && totalSlides == ParseSlidesArity)
      ensures old(HasSelection()) && AllSafe(old(parsedSlides))
              && Stripped(old(editingContent), JsSpace) && NoMarker(old(editingContent)) ==>
        parsedSlides == WithContent(old(parsedSlides), old(selectedSlide), old(editingContent))
    {
      var before := script;
      if HasSelection() && AllSafe(parsedSlides) && Stripped(editingContent, JsSpace) && NoMarker(editingContent) {
        EditRoundTrip(parsedSlides, selectedSlide, editingContent);
      }
      SaveEdit();
      if script != before {
        SyncScript();
      }
    }

    /** `handleEditClick`: with a record selected, the edit box gets its content
        and editing starts; otherwise nothing changes. */
    method EditClick()
      modifies this
      ensures old(HasSelection()) ==>
        && editingContent == old(parsedSlides[selectedSlide].content) && isEditing
        && script == old(script) && parsedSlides == old(parsedSlides)
        && selectedSlide == old(selectedSlide) && totalSlides == old(totalSlides)
      ensures !old(HasSelection()) ==> unchanged(this)
    {
      if 0 <= selectedSlide < |parsedSlides| {
        editingContent := parsedSlides[selectedSlide].content;
        isEditing := true;
      }
    }

    /** `handleCancelEdit`: editing ends and the edit box is emptied; the records
        and the script stay as they are. */
    method CancelEdit()
      modifies this
      ensures !isEditing && editingContent == ""
      ensures script == old(script) && parsedSlides == old(parsedSlides)
      ensures selectedSlide == old(selectedSlide) && totalSlides == old(totalSlides)
    {
      isEditing := false;
      editingContent := "";
    }

    /** The Edit/Cancel button next to the title flips the editing flag and
        nothing else. */
    method ToggleEdit()
      modifies this
      ensures isEditing == !old(isEditing) && editingContent == old(editingContent)
      ensures script == old(script) && parsedSlides == old(parsedSlides)
      ensures selectedSlide == old(selectedSlide) && totalSlides == old(totalSlides)
    {
      isEditing := !isEditing;
    }

    /** A click on entry `index` of the slide list selects it; the buttons are
        disabled while editing. */
    method SelectSlide(index: int)
      requires 0 <= index < |parsedSlides|
      modifies this
      ensures selectedSlide == (if old(isEditing) then old(selectedSlide) else index)
      ensures HasSelection() || old(isEditing)
      ensures script == old(script) && parsedSlides == old(parsedSlides)
      ensures isEditing == old(isEditing) && editingContent == old(editingContent)
      ensures totalSlides == old(totalSlides)
    {
      if !isEditing {
        selectedSlide := index;
      }
    }

    /** Typing in the edit box replaces its text. */
    method SetEditingContent(text: string)
      modifies this
      ensures editingContent == text
      ensures script == old(script) && parsedSlides == old(parsedSlides)
      ensures selectedSlide == old(selectedSlide) && totalSlides == old(totalSlides)
      ensures isEditing == old(isEditing)
    {
      editingContent := text;
    }
  }
}
