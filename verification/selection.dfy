/** The formatting buttons as text edits: a button replaces the selected text of the comment
    and leaves part of what it inserted selected. */
module Selection {
  import opened Text
  import opened Markup
  import opened SuperscriptTable
  import opened Superscript

  /** A half-open range `[start, end)` of character offsets. */
  datatype Span = Span(start: nat, end: nat)

  predicate Within(sp: Span, t: string) {
    sp.start <= sp.end <= |t|
  }

  /** What a button does to the selected text: the text that replaces it, and the part of that
      text selected afterwards. */
  datatype Edit = Edit(text: string, selection: Span)

  /** The four formatting buttons, in the order they appear. */
  datatype Button = BoldButton | ItalicButton | StrikethroughButton | SuperscriptButton

  /** The style a wrapping button marks up; the superscript button does not wrap. */
  function WrapStyle(b: Button): (st: Option<Style>)
    ensures st.None? <==> b == SuperscriptButton
  {
    match b
    case BoldButton => Some(Bold)
    case ItalicButton => Some(Italic)
    case StrikethroughButton => Some(Strikethrough)
    case SuperscriptButton => None
  }

  /** Wrapping: the selected text gets the symbol on both sides, and only the text between the
      two symbols stays selected. */
  function WrapSelection(symbol: char, t: string): (e: Edit)
    ensures |e.text| == |t| + 2 && e.text[0] == symbol && e.text[|e.text| - 1] == symbol
    ensures Within(e.selection, e.text) && e.text[e.selection.start..e.selection.end] == t
    ensures e.selection.start == 1
  {
    var text := [symbol] + t + [symbol];
    assert text[1..1 + |t|] == t;
    Edit(text, Span(1, 1 + |t|))
  }

  /** The superscript button: the selected text is toggled and all of the result is selected. */
  function SuperscriptSelection(t: string): (e: Edit)
    ensures e.text == ToggleSuperscript(t)
    ensures e.selection == Span(0, |e.text|)
    ensures t != [] ==> |e.text| == |t|
  {
    var r := ToggleSuperscript(t);
    Edit(r, Span(0, |r|))
  }

  /** The edit a button makes to the selected text `t`. */
  function Press(b: Button, t: string): (e: Edit)
    ensures Within(e.selection, e.text)
  {
    match WrapStyle(b)
    case Some(st) => WrapSelection(Delimiter(st), t)
    case None => SuperscriptSelection(t)
  }

  /** The comment being written: its text and the current selection within it. */
  datatype Draft = Draft(text: string, selection: Span)

  predicate ValidDraft(d: Draft) {
    Within(d.selection, d.text)
  }

  function SelectedText(d: Draft): string
    requires ValidDraft(d)
  {
    d.text[d.selection.start..d.selection.end]
  }

  /** Replaces the selection of `d` with the edit's text and moves the selection into it. */
  function Apply(d: Draft, e: Edit): (r: Draft)
    requires ValidDraft(d) && Within(e.selection, e.text)
    ensures ValidDraft(r)
    ensures |r.text| == |d.text| - (d.selection.end - d.selection.start) + |e.text|
    ensures r.text[..d.selection.start] == d.text[..d.selection.start]
    ensures r.text[d.selection.start..d.selection.start + |e.text|] == e.text
    ensures r.text[d.selection.start + |e.text|..] == d.text[d.selection.end..]
    ensures SelectedText(r) == e.text[e.selection.start..e.selection.end]
  {
    var a := d.selection.start;
    var text := d.text[..a] + e.text + d.text[d.selection.end..];
    assert text[a..a + |e.text|] == e.text;
    assert text[a + e.selection.start..a + e.selection.end] == e.text[e.selection.start..e.selection.end];
    Draft(text, Span(a + e.selection.start, a + e.selection.end))
  }

  /** Pressing a button on a draft. */
  function PressOn(d: Draft, b: Button): (r: Draft)
    requires ValidDraft(d)
    ensures ValidDraft(r)
  {
    Apply(d, Press(b, SelectedText(d)))
  }

  /** A wrapping button puts its symbol around the selection, changes nothing else, and keeps
      the same text selected. */
  lemma WrapKeepsSelection(d: Draft, b: Button)
    requires ValidDraft(d) && b != SuperscriptButton
    ensures var sym := Delimiter(WrapStyle(b).value);
      PressOn(d, b).text
        == d.text[..d.selection.start] + [sym] + SelectedText(d) + [sym] + d.text[d.selection.end..]
    ensures SelectedText(PressOn(d, b)) == SelectedText(d)
    ensures PressOn(d, b).selection.start == d.selection.start + 1
  {
    var t := SelectedText(d);
    var e := Press(b, t);
    var r := PressOn(d, b);
    var a := d.selection.start;
    assert r.text == r.text[..a] + r.text[a..a + |e.text|] + r.text[a + |e.text|..];
  }

  /** Pressing a wrapping button twice doubles its symbol on both sides of the selection, which
      is still the original text. */
  lemma WrapTwice(d: Draft, b: Button)
    requires ValidDraft(d) && b != SuperscriptButton
    ensures var sym := Delimiter(WrapStyle(b).value);
      PressOn(PressOn(d, b), b).text
        == d.text[..d.selection.start] + [sym, sym] + SelectedText(d) + [sym, sym] + d.text[d.selection.end..]
    ensures SelectedText(PressOn(PressOn(d, b), b)) == SelectedText(d)
  {
    var sym := Delimiter(WrapStyle(b).value);
    var d1 := PressOn(d, b);
    var t := SelectedText(d);
    var before, after := d.text[..d.selection.start], d.text[d.selection.end..];
    WrapKeepsSelection(d, b);
    WrapKeepsSelection(d1, b);
    var p, q := before + [sym], [sym] + after;
    Regroup(before + [sym] + t, [sym], after);
    assert d1.text == p + t + q;
    assert d1.selection.start == |p| && d1.selection.end == |p| + |t|;
    Slices(p, t, q);
    var x := before + [sym, sym] + t;
    assert [sym] + [sym] == [sym, sym];
    Regroup(before, [sym], [sym]);
    Regroup(x, [sym], [sym]);
    Regroup(x + [sym], [sym], after);
  }

  /** Wrapping an empty selection inserts the two symbols side by side and leaves an empty
      selection between them. */
  lemma WrapEmpty(b: Button)
    requires b != SuperscriptButton
    ensures var sym := Delimiter(WrapStyle(b).value);
      Press(b, []) == Edit([sym, sym], Span(1, 1))
  {
  }

  /** Pressing the superscript button twice restores a draft whose selection is non-empty and
      holds no plain key, or holds a plain key, no glyph and no `S`: text and selection are
      both as before. */
  lemma SuperscriptTwice(d: Draft)
    requires ValidDraft(d) && d.selection.start < d.selection.end
    requires var t := SelectedText(d);
      !HasKey(Forward(), t)
      || (HasKey(Forward(), t) && (forall k :: 0 <= k < |t| ==> t[k] !in Inverse()) && 'S' !in t)
    ensures PressOn(PressOn(d, SuperscriptButton), SuperscriptButton) == d
  {
    var t := SelectedText(d);
    if HasKey(Forward(), t) {
      RoundTripPlainIff(t);
    } else {
      RoundTripSuperscript(t);
    }
    var r := ToggleSuperscript(t);
    ReplaceTwice(d, r);
  }

  /** Replacing the selection with `r`, all selected, and then replacing that with the text
      first selected gives back the original draft. */
  lemma ReplaceTwice(d: Draft, r: string)
    requires ValidDraft(d)
    ensures var d1 := Apply(d, Edit(r, Span(0, |r|)));
      SelectedText(d1) == r && Apply(d1, Edit(SelectedText(d), Span(0, |SelectedText(d)|))) == d
  {
    var t := SelectedText(d);
    var a := d.selection.start;
    var d1 := Apply(d, Edit(r, Span(0, |r|)));
    var d2 := Apply(d1, Edit(t, Span(0, |t|)));
    assert d1.selection == Span(a, a + |r|);
    assert d2.text[..a] == d.text[..a];
    assert d2.text[a + |t|..] == d.text[d.selection.end..];
    Rebuild(d2.text, a, |t|);
    Rebuild(d.text, a, |t|);
  }

  /** What a wrapping button inserts is what the preview renders in its style: a non-empty,
      single-line selection free of the three symbols (and, for strikethrough, of `>`) comes out
      of the preview as exactly one span of that style around the selected text. */
  lemma WrappedTextRendersStyled(b: Button, t: string)
    requires b != SuperscriptButton
    requires |t| > 0 && forall k :: 0 <= k < |t| ==> !IsLineTerminator(t[k])
    requires '*' !in t && '_' !in t && '-' !in t
    requires b == StrikethroughButton ==> '>' !in t
    ensures var st := WrapStyle(b).value;
      FormatText(Press(b, t).text) == OpenTag(st) + t + CloseTag
  {
    var st := WrapStyle(b).value;
    var d := Delimiter(st);
    assert Press(b, t).text == [d] + t + [d];
    if st == Bold {
      FormatTextBoldRun(t);
    } else if st == Italic {
      FormatTextItalicRun(t);
    } else {
      FormatTextStrikethroughRun(t);
    }
  }
}
