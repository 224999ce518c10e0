/** Worked inputs of the superscript toggle. */
module SuperscriptExamples {
  import opened SuperscriptTable
  import opened Superscript

  /** An empty selection becomes a superscript two. */
  lemma EmptyBecomesTwo(s: string)
    requires s == ""
    ensures ToggleSuperscript(s) == "\U{B2}"
  {
  }

  /** A lone superscript two is lowered to `2`. */
  lemma SuperscriptTwoLowers(s: string)
    requires s == "\U{B2}"
    ensures ToggleSuperscript(s) == "2"
  {
    assert s[0] == Glyph(2);
    InverseAt(2);
    assert !HasKey(Forward(), s);
  }

  /** A lone `2` is raised to `²`. */
  lemma TwoRaises(s: string)
    requires s == "2"
    ensures ToggleSuperscript(s) == "\U{B2}"
  {
    assert s[0] == Key(2);
    ForwardAt(2);
    assert HasKey(Forward(), s);
  }

  /** One plain key is enough to raise the whole string; `!` is in neither table and is copied. */
  lemma MixedInputRaises(s: string)
    requires s == "a1!"
    ensures ToggleSuperscript(s) == "\U{1D43}\U{B9}!"
  {
    assert s[0] == Key(36) && s[1] == Key(1) && s[2] == '!';
    ForwardAt(36);
    ForwardAt(1);
    assert '!' !in Forward() && '!' !in Inverse();
    assert HasKey(Forward(), s);
  }

  /** A glyph next to a plain key stays a glyph: the string is raised, and the glyph is no key. */
  lemma GlyphBesidePlainKeyStays(s: string)
    requires s == "x\U{B2}"
    ensures ToggleSuperscript(s) == "\U{2E3}\U{B2}"
  {
    assert s[0] == Key(59) && s[1] == Glyph(2);
    ForwardAt(59);
    assert s[1] !in Forward();
    assert HasKey(Forward(), s);
  }

  /** The empty string does not survive two toggles: it becomes `²`, which lowers to `2`. */
  lemma EmptyComesBackAsTwo(s: string)
    requires s == ""
    ensures ToggleSuperscript(ToggleSuperscript(s)) == "2"
  {
    EmptyBecomesTwo(s);
    SuperscriptTwoLowers("\U{B2}");
  }

  /** `ˣ²` holds no plain key, so both glyphs are lowered. */
  lemma GlyphsLower(g: string)
    requires g == "\U{2E3}\U{B2}"
    ensures ToggleSuperscript(g) == "x2"
  {
    assert g[0] == Glyph(59) && g[1] == Glyph(2);
    InverseAt(59);
    InverseAt(2);
    if g[0] in Forward() { KeysAreNotGlyphs(g[0]); }
    if g[1] in Forward() { KeysAreNotGlyphs(g[1]); }
    assert !HasKey(Forward(), g);
  }

  /** A glyph beside a plain key does not survive two toggles: `x²` is raised to `ˣ²`, and
      lowering that turns the glyph that was already there into `2`. */
  lemma MixedInputComesBackPlain(s: string)
    requires s == "x\U{B2}"
    ensures ToggleSuperscript(ToggleSuperscript(s)) == "x2"
  {
    GlyphBesidePlainKeyStays(s);
    GlyphsLower("\U{2E3}\U{B2}");
  }

  /** `S` and `s` both raise to the same glyph, and that glyph lowers to `s`, so toggling `S`
      twice gives `s`. */
  lemma CapitalSComesBackSmall(s: string)
    requires s == "S"
    ensures ToggleSuperscript(s) == ToggleSuperscript("s") == "\U{2E2}"
    ensures ToggleSuperscript(ToggleSuperscript(s)) == "s"
  {
    var t := "s";
    var g := "\U{2E2}";
    assert s[0] == Key(28) && t[0] == Key(54) && g[0] == Glyph(54);
    ForwardAt(28);
    ForwardAt(54);
    InverseAt(54);
    assert HasKey(Forward(), s) && HasKey(Forward(), t);
    assert !HasKey(Forward(), g);
  }
}
