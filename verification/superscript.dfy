/** The superscript toggle of the superscript button: one direction is picked for the whole
    string, then every character is looked up in the raise table or the lower table. The
    toggle and its round trips are stated for any pair of tables with the codec facts below,
    and the superscript tables are shown to have them. */
module Superscript {
  import opened SuperscriptTable

  /** The facts about a raise table and a lower table that the toggle relies on: no key is a
      glyph, raising a key gives a glyph that is no key and lowers to the key again except that
      `S` lowers to `s`, and lowering a glyph gives a key that raises to the glyph again. */
  predicate IsCodec(raise: map<char, char>, lower: map<char, char>) {
    'S' in raise
    && (forall c :: c in raise ==>
          c !in lower && raise[c] in lower && raise[c] !in raise
          && lower[raise[c]] == if c == 'S' then 's' else c)
    && (forall g :: g in lower ==> lower[g] in raise && raise[lower[g]] == g)
  }

  /** The superscript tables have the codec facts. */
  lemma TablesAreCodec()
    ensures IsCodec(Forward(), Inverse())
  {
    ForwardAt(28);
    forall c | c in Forward()
      ensures c !in Inverse() && Forward()[c] in Inverse() && Forward()[c] !in Forward()
      ensures Inverse()[Forward()[c]] == if c == 'S' then 's' else c
    {
      RaiseThenLower(c);
    }
    forall g | g in Inverse() ensures Inverse()[g] in Forward() && Forward()[Inverse()[g]] == g {
      LowerThenRaise(g);
    }
  }

  /** What `m` maps `c` to, or `c` itself when `m` has no entry for it. */
  function Lookup(m: map<char, char>, c: char): char {
    if c in m then m[c] else c
  }

  /** `s` with each character looked up in `m`, one output character per input character. */
  function MapChars(m: map<char, char>, s: string): (r: string)
    ensures |r| == |s| && forall k :: 0 <= k < |s| ==> r[k] == Lookup(m, s[k])
  {
    if s == [] then [] else [Lookup(m, s[0])] + MapChars(m, s[1..])
  }

  /** The decode test: every character is either not a key of `raise` or a key of `lower`. */
  predicate AllSuperscript(raise: map<char, char>, lower: map<char, char>, s: string) {
    forall k :: 0 <= k < |s| ==> s[k] !in raise || s[k] in lower
  }

  predicate HasKey(m: map<char, char>, s: string) {
    exists k :: 0 <= k < |s| && s[k] in m
  }

  /** Under the codec facts, the decode test holds exactly when no character is a raise key. */
  lemma AllSuperscriptIffNoKey(raise: map<char, char>, lower: map<char, char>, s: string)
    requires IsCodec(raise, lower)
    ensures AllSuperscript(raise, lower, s) <==> !HasKey(raise, s)
  {
  }

  /** The toggle over a raise table and a lower table. The empty string becomes `²`. Otherwise a
      string passing the decode test is lowered character by character and any other string is
      raised; characters that neither table knows are copied. */
  function ToggleWith(raise: map<char, char>, lower: map<char, char>, s: string): (r: string)
    ensures s == [] ==> r == "\U{B2}"
    ensures s != [] ==> |r| == |s|
    ensures forall k :: 0 <= k < |s| && s[k] !in raise && s[k] !in lower ==> r[k] == s[k]
    ensures !AllSuperscript(raise, lower, s) ==> forall k :: 0 <= k < |s| ==> r[k] == Lookup(raise, s[k])
    ensures s != [] && AllSuperscript(raise, lower, s) ==>
      forall k :: 0 <= k < |s| ==> r[k] == Lookup(lower, s[k])
  {
    if s == [] then "\U{B2}"
    else if AllSuperscript(raise, lower, s) then MapChars(lower, s)
    else MapChars(raise, s)
  }

  /** The superscript toggle: a string with any plain key is raised character by character, a
      non-empty one with none is lowered, and characters that neither table knows are copied. */
  function ToggleSuperscript(s: string): (r: string)
    ensures s == [] ==> r == "\U{B2}"
    ensures s != [] ==> |r| == |s|
    ensures forall k :: 0 <= k < |s| && s[k] !in Forward() && s[k] !in Inverse() ==> r[k] == s[k]
    ensures HasKey(Forward(), s) ==> forall k :: 0 <= k < |s| ==> r[k] == Lookup(Forward(), s[k])
    ensures s != [] && !HasKey(Forward(), s) ==>
      forall k :: 0 <= k < |s| ==> r[k] == Lookup(Inverse(), s[k])
  {
    TablesAreCodec();
    AllSuperscriptIffNoKey(Forward(), Inverse(), s);
    ToggleWith(Forward(), Inverse(), s)
  }

  /** Under the codec facts, raising leaves no raise key behind. */
  lemma RaisedHasNoKey(raise: map<char, char>, lower: map<char, char>, s: string)
    requires IsCodec(raise, lower) && HasKey(raise, s)
    ensures !HasKey(raise, ToggleWith(raise, lower, s))
  {
    AllSuperscriptIffNoKey(raise, lower, s);
  }

  /** Under the codec facts, a string without glyphs that has a key comes back from two toggles
      unchanged exactly when it has no `S`. */
  lemma RoundTripPlainWith(raise: map<char, char>, lower: map<char, char>, s: string)
    requires IsCodec(raise, lower) && HasKey(raise, s)
    requires forall k :: 0 <= k < |s| ==> s[k] !in lower
    ensures ToggleWith(raise, lower, ToggleWith(raise, lower, s)) == s <==> 'S' !in s
  {
    var r := ToggleWith(raise, lower, s);
    var t := ToggleWith(raise, lower, r);
    AllSuperscriptIffNoKey(raise, lower, s);
    RaisedHasNoKey(raise, lower, s);
    AllSuperscriptIffNoKey(raise, lower, r);
    assert |t| == |s|;
    assert forall k :: 0 <= k < |s| ==> t[k] == if s[k] == 'S' then 's' else s[k];
    if 'S' in s {
      var k :| 0 <= k < |s| && s[k] == 'S';
      assert t[k] != s[k];
    } else {
      assert t == s;
    }
  }

  /** Under the codec facts, a non-empty string with no key comes back from two toggles
      unchanged. */
  lemma RoundTripSuperscriptWith(raise: map<char, char>, lower: map<char, char>, s: string)
    requires IsCodec(raise, lower) && s != [] && !HasKey(raise, s)
    ensures ToggleWith(raise, lower, ToggleWith(raise, lower, s)) == s
  {
    var r := ToggleWith(raise, lower, s);
    var t := ToggleWith(raise, lower, r);
    AllSuperscriptIffNoKey(raise, lower, s);
    AllSuperscriptIffNoKey(raise, lower, r);
    if HasKey(raise, r) {
      assert forall k :: 0 <= k < |s| ==> t[k] == s[k];
    } else {
      assert forall k :: 0 <= k < |s| ==> s[k] !in lower;
      assert r == s;
    }
    assert t == s;
  }

  /** A string without glyphs that has a plain key comes back from two toggles unchanged
      exactly when it has no `S`: the glyph shared by `S` and `s` always lowers to `s`. */
  lemma RoundTripPlainIff(s: string)
    requires HasKey(Forward(), s)
    requires forall k :: 0 <= k < |s| ==> s[k] !in Inverse()
    ensures ToggleSuperscript(ToggleSuperscript(s)) == s <==> 'S' !in s
  {
    TablesAreCodec();
    RoundTripPlainWith(Forward(), Inverse(), s);
  }

  /** A non-empty string with no plain key comes back from two toggles unchanged. */
  lemma RoundTripSuperscript(s: string)
    requires s != [] && !HasKey(Forward(), s)
    ensures ToggleSuperscript(ToggleSuperscript(s)) == s
  {
    TablesAreCodec();
    RoundTripSuperscriptWith(Forward(), Inverse(), s);
  }
}
