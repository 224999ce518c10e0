/** The superscript table of the superscript button: a fixed list of plain characters with the
    superscript glyph for each, the map it makes, and the inverse map built from it. */
module SuperscriptTable {

  /** Number of entries in the table. */
  const Size := 69

  /** The forward table's keys in the order they are written: digits, capital letters, small
      letters, then `+ - = ( ) , .`. */
  function Key(i: nat): char
    requires i < Size
  {
    match i
    case 0 => '0'
    case 1 => '1'
    case 2 => '2'
    case 3 => '3'
    case 4 => '4'
    case 5 => '5'
    case 6 => '6'
    case 7 => '7'
    case 8 => '8'
    case 9 => '9'
    case 10 => 'A'
    case 11 => 'B'
    case 12 => 'C'
    case 13 => 'D'
    case 14 => 'E'
    case 15 => 'F'
    case 16 => 'G'
    case 17 => 'H'
    case 18 => 'I'
    case 19 => 'J'
    case 20 => 'K'
    case 21 => 'L'
    case 22 => 'M'
    case 23 => 'N'
    case 24 => 'O'
    case 25 => 'P'
    case 26 => 'Q'
    case 27 => 'R'
    case 28 => 'S'
    case 29 => 'T'
    case 30 => 'U'
    case 31 => 'V'
    case 32 => 'W'
    case 33 => 'X'
    case 34 => 'Y'
    case 35 => 'Z'
    case 36 => 'a'
    case 37 => 'b'
    case 38 => 'c'
    case 39 => 'd'
    case 40 => 'e'
    case 41 => 'f'
    case 42 => 'g'
    case 43 => 'h'
    case 44 => 'i'
    case 45 => 'j'
    case 46 => 'k'
    case 47 => 'l'
    case 48 => 'm'
    case 49 => 'n'
    case 50 => 'o'
    case 51 => 'p'
    case 52 => 'q'
    case 53 => 'r'
    case 54 => 's'
    case 55 => 't'
    case 56 => 'u'
    case 57 => 'v'
    case 58 => 'w'
    case 59 => 'x'
    case 60 => 'y'
    case 61 => 'z'
    case 62 => '+'
    case 63 => '-'
    case 64 => '='
    case 65 => '('
    case 66 => ')'
    case 67 => ','
    case 68 => '.'
  }

  /** The glyph written next to `Key(i)`. Entry 28 (`S`) and entry 54 (`s`) share U+02E2. */
  function Glyph(i: nat): char
    requires i < Size
  {
    match i
    case 0 => '\U{2070}'
    case 1 => '\U{B9}'
    case 2 => '\U{B2}'
    case 3 => '\U{B3}'
    case 4 => '\U{2074}'
    case 5 => '\U{2075}'
    case 6 => '\U{2076}'
    case 7 => '\U{2077}'
    case 8 => '\U{2078}'
    case 9 => '\U{2079}'
    case 10 => '\U{1D2C}'
    case 11 => '\U{1D2E}'
    case 12 => '\U{A7F2}'
    case 13 => '\U{1D30}'
    case 14 => '\U{1D31}'
    case 15 => '\U{A7F3}'
    case 16 => '\U{1D33}'
    case 17 => '\U{1D34}'
    case 18 => '\U{1D35}'
    case 19 => '\U{1D36}'
    case 20 => '\U{1D37}'
    case 21 => '\U{1D38}'
    case 22 => '\U{1D39}'
    case 23 => '\U{1D3A}'
    case 24 => '\U{1D3C}'
    case 25 => '\U{1D3E}'
    case 26 => '\U{A7F4}'
    case 27 => '\U{1D3F}'
    case 28 => '\U{2E2}'
    case 29 => '\U{1D40}'
    case 30 => '\U{1D41}'
    case 31 => '\U{2C7D}'
    case 32 => '\U{1D42}'
    case 33 => '\U{1D61}'
    case 34 => '\U{107B2}'
    case 35 => '\U{1646}'
    case 36 => '\U{1D43}'
    case 37 => '\U{1D47}'
    case 38 => '\U{1D9C}'
    case 39 => '\U{1D48}'
    case 40 => '\U{1D49}'
    case 41 => '\U{1DA0}'
    case 42 => '\U{1D4D}'
    case 43 => '\U{2B0}'
    case 44 => '\U{2071}'
    case 45 => '\U{2B2}'
    case 46 => '\U{1D4F}'
    case 47 => '\U{2E1}'
    case 48 => '\U{1D50}'
    case 49 => '\U{207F}'
    case 50 => '\U{1D52}'
    case 51 => '\U{1D56}'
    case 52 => '\U{107A5}'
    case 53 => '\U{2B3}'
    case 54 => '\U{2E2}'
    case 55 => '\U{1D57}'
    case 56 => '\U{1D58}'
    case 57 => '\U{1D5B}'
    case 58 => '\U{2B7}'
    case 59 => '\U{2E3}'
    case 60 => '\U{2B8}'
    case 61 => '\U{1DBB}'
    case 62 => '\U{207A}'
    case 63 => '\U{207B}'
    case 64 => '\U{207C}'
    case 65 => '\U{207D}'
    case 66 => '\U{207E}'
    case 67 => '\U{2D2}'
    case 68 => '\U{22C5}'
  }


  /** The position of key `c` in the table, or `Size` for a character that is no key. Digits,
      capital letters and small letters are stored in code-point order, so their positions
      follow from their code points. */
  function KeyIndex(c: char): nat {
    if '0' <= c <= '9' then c as int - '0' as int
    else if 'A' <= c <= 'Z' then 10 + (c as int - 'A' as int)
    else if 'a' <= c <= 'z' then 36 + (c as int - 'a' as int)
    else if c == '+' then 62
    else if c == '-' then 63
    else if c == '=' then 64
    else if c == '(' then 65
    else if c == ')' then 66
    else if c == ',' then 67
    else if c == '.' then 68
    else Size
  }

  /** The position of the last entry with glyph `g`, or `Size` for a character that is no glyph. */
  function GlyphIndex(g: char): nat {
    if g < '\U{80}' then Size
    else match g as int
    case 0x2070 => 0
    case 0xB9 => 1
    case 0xB2 => 2
    case 0xB3 => 3
    case 0x2074 => 4
    case 0x2075 => 5
    case 0x2076 => 6
    case 0x2077 => 7
    case 0x2078 => 8
    case 0x2079 => 9
    case 0x1D2C => 10
    case 0x1D2E => 11
    case 0xA7F2 => 12
    case 0x1D30 => 13
    case 0x1D31 => 14
    case 0xA7F3 => 15
    case 0x1D33 => 16
    case 0x1D34 => 17
    case 0x1D35 => 18
    case 0x1D36 => 19
    case 0x1D37 => 20
    case 0x1D38 => 21
    case 0x1D39 => 22
    case 0x1D3A => 23
    case 0x1D3C => 24
    case 0x1D3E => 25
    case 0xA7F4 => 26
    case 0x1D3F => 27
    case 0x1D40 => 29
    case 0x1D41 => 30
    case 0x2C7D => 31
    case 0x1D42 => 32
    case 0x1D61 => 33
    case 0x107B2 => 34
    case 0x1646 => 35
    case 0x1D43 => 36
    case 0x1D47 => 37
    case 0x1D9C => 38
    case 0x1D48 => 39
    case 0x1D49 => 40
    case 0x1DA0 => 41
    case 0x1D4D => 42
    case 0x2B0 => 43
    case 0x2071 => 44
    case 0x2B2 => 45
    case 0x1D4F => 46
    case 0x2E1 => 47
    case 0x1D50 => 48
    case 0x207F => 49
    case 0x1D52 => 50
    case 0x1D56 => 51
    case 0x107A5 => 52
    case 0x2B3 => 53
    case 0x2E2 => 54
    case 0x1D57 => 55
    case 0x1D58 => 56
    case 0x1D5B => 57
    case 0x2B7 => 58
    case 0x2E3 => 59
    case 0x2B8 => 60
    case 0x1DBB => 61
    case 0x207A => 62
    case 0x207B => 63
    case 0x207C => 64
    case 0x207D => 65
    case 0x207E => 66
    case 0x2D2 => 67
    case 0x22C5 => 68
    case _ => Size
  }


  /** Each key finds its own entry, so no two entries share a key. */
  lemma KeyIndexFinds()
    ensures forall i :: 0 <= i < Size ==> KeyIndex(Key(i)) == i
  {
    KeyIndexFindsBetween(0, 23);
    KeyIndexFindsBetween(23, 46);
    KeyIndexFindsBetween(46, Size);
  }

  lemma KeyIndexFindsBetween(lo: nat, hi: nat)
    requires lo <= hi <= Size && hi - lo <= 23
    ensures forall i :: lo <= i < hi ==> KeyIndex(Key(i)) == i
  {
  }

  /** Each glyph finds its own entry, except that the glyph of `S` finds the later `s`. */
  lemma GlyphIndexFinds()
    ensures forall i :: 0 <= i < Size ==> GlyphIndex(Glyph(i)) == if i == 28 then 54 else i
  {
    GlyphIndexFindsBetween(0, 23);
    GlyphIndexFindsBetween(23, 46);
    GlyphIndexFindsBetween(46, Size);
  }

  lemma GlyphIndexFindsBetween(lo: nat, hi: nat)
    requires lo <= hi <= Size && hi - lo <= 23
    ensures forall i :: lo <= i < hi ==> GlyphIndex(Glyph(i)) == if i == 28 then 54 else i
  {
  }

  /** A character that finds an entry is that entry's key. */
  lemma KeyIndexSound(c: char)
    requires KeyIndex(c) < Size
    ensures Key(KeyIndex(c)) == c
  {
  }

  /** A character that finds an entry is that entry's glyph. */
  lemma GlyphIndexSound(g: char)
    requires GlyphIndex(g) < Size
    ensures Glyph(GlyphIndex(g)) == g
  {
    if g < '\U{1D00}' {
      GlyphIndexSoundLow(g);
    } else if g < '\U{2000}' {
      GlyphIndexSoundMiddle(g);
    } else {
      GlyphIndexSoundHigh(g);
    }
  }

  lemma GlyphIndexSoundLow(g: char)
    requires GlyphIndex(g) < Size && g < '\U{1D00}'
    ensures Glyph(GlyphIndex(g)) == g
  {
  }

  lemma GlyphIndexSoundMiddle(g: char)
    requires GlyphIndex(g) < Size && '\U{1D00}' <= g < '\U{2000}'
    ensures Glyph(GlyphIndex(g)) == g
  {
  }

  lemma GlyphIndexSoundHigh(g: char)
    requires GlyphIndex(g) < Size && '\U{2000}' <= g
    ensures Glyph(GlyphIndex(g)) == g
  {
  }

  /** The entries as a sequence, in order. */
  function Entries(): seq<(char, char)> {
    seq(Size, i requires 0 <= i < Size => (Key(i), Glyph(i)))
  }

  /** Each entry with its key and value exchanged. */
  function Swap(pairs: seq<(char, char)>): seq<(char, char)> {
    seq(|pairs|, i requires 0 <= i < |pairs| => (pairs[i].1, pairs[i].0))
  }

  /** Entry `i` is not overwritten by a later entry with the same key. */
  predicate LastWithKey(pairs: seq<(char, char)>, i: int)
    requires 0 <= i < |pairs|
  {
    forall j :: i < j < |pairs| ==> pairs[j].0 != pairs[i].0
  }

  /** The map built by storing the entries one after another, as an object literal or an
      assignment loop does: a later entry with the same key overwrites an earlier one. */
  function Tabulate(pairs: seq<(char, char)>): map<char, char> {
    if pairs == [] then map[]
    else Tabulate(pairs[..|pairs| - 1])[pairs[|pairs| - 1].0 := pairs[|pairs| - 1].1]
  }

  /** The keys of the tabulated map are the entries' keys, and each key maps to the value of its
      last entry. */
  lemma {:induction false} TabulateSpec(pairs: seq<(char, char)>)
    ensures forall c :: c in Tabulate(pairs) <==> exists i :: 0 <= i < |pairs| && pairs[i].0 == c
    ensures forall i :: 0 <= i < |pairs| && LastWithKey(pairs, i) ==> Tabulate(pairs)[pairs[i].0] == pairs[i].1
  {
    if pairs != [] {
      var init, last := pairs[..|pairs| - 1], pairs[|pairs| - 1];
      TabulateSpec(init);
      assert forall i :: 0 <= i < |init| ==> init[i] == pairs[i];
      forall i | 0 <= i < |pairs| - 1 && LastWithKey(pairs, i) ensures LastWithKey(init, i) {
      }
    }
  }

  /** The forward table: exactly the keys, each sent to the glyph written next to it. */
  function Forward(): (m: map<char, char>)
    ensures forall c :: c in m <==> KeyIndex(c) < Size
    ensures forall c :: c in m ==> m[c] == Glyph(KeyIndex(c))
  {
    var es := Entries();
    assert |es| == Size;
    TabulateSpec(es);
    KeyIndexFinds();
    forall c | KeyIndex(c) < Size ensures c in Tabulate(es) && Tabulate(es)[c] == Glyph(KeyIndex(c)) {
      var i := KeyIndex(c);
      KeyIndexSound(c);
      assert es[i] == (Key(i), Glyph(i));
      assert LastWithKey(es, i);
    }
    Tabulate(es)
  }

  /** The inverse table, built by walking the entries in order and storing glyph to key: exactly
      the glyphs, each sent to the key of the last entry that has it. */
  function Inverse(): (m: map<char, char>)
    ensures forall g :: g in m <==> GlyphIndex(g) < Size
    ensures forall g :: g in m ==> m[g] == Key(GlyphIndex(g))
  {
    var es := Entries();
    var sw := Swap(es);
    assert |sw| == Size;
    TabulateSpec(sw);
    GlyphIndexFinds();
    forall g | GlyphIndex(g) < Size ensures g in Tabulate(sw) && Tabulate(sw)[g] == Key(GlyphIndex(g)) {
      var i := GlyphIndex(g);
      GlyphIndexSound(g);
      assert sw[i] == (es[i].1, es[i].0) && es[i] == (Key(i), Glyph(i));
      assert LastWithKey(sw, i);
    }
    Tabulate(sw)
  }

  /** The forward table sends every key to the glyph written next to it. */
  lemma ForwardAt(i: nat)
    requires i < Size
    ensures Key(i) in Forward() && Forward()[Key(i)] == Glyph(i)
  {
    KeyIndexFinds();
  }

  /** The inverse table sends every glyph back to its key, except that the glyph shared by `S`
      and `s` goes back to the later entry, `s`. */
  lemma InverseAt(i: nat)
    requires i < Size
    ensures Glyph(i) in Inverse()
    ensures Inverse()[Glyph(i)] == if i == 28 then 's' else Key(i)
  {
    GlyphIndexFinds();
  }

  /** Every key is ASCII. */
  lemma KeyIsAscii(c: char)
    requires KeyIndex(c) < Size
    ensures c < '\U{80}'
  {
  }

  /** No glyph is ASCII. */
  lemma GlyphIsNotAscii(g: char)
    requires GlyphIndex(g) < Size
    ensures g >= '\U{80}'
  {
  }

  /** No key is a glyph. */
  lemma KeysAreNotGlyphs(c: char)
    requires c in Forward()
    ensures c !in Inverse()
  {
    KeyIsAscii(c);
    if c in Inverse() {
      GlyphIsNotAscii(c);
    }
  }

  /** Raising a key gives a glyph that is no key, and lowering that glyph gives the key back,
      except for `S`, whose glyph lowers to `s`. */
  lemma RaiseThenLower(c: char)
    requires c in Forward()
    ensures Forward()[c] in Inverse() && Forward()[c] !in Forward() && c !in Inverse()
    ensures Inverse()[Forward()[c]] == if c == 'S' then 's' else c
  {
    var i := KeyIndex(c);
    KeyIndexSound(c);
    InverseAt(i);
    KeysAreNotGlyphs(c);
    if Forward()[c] in Forward() {
      KeysAreNotGlyphs(Forward()[c]);
    }
    assert c == 'S' ==> i == 28;
  }

  /** Lowering a glyph gives a key that is no glyph, and raising that key gives the glyph back. */
  lemma LowerThenRaise(g: char)
    requires g in Inverse()
    ensures Inverse()[g] in Forward() && Inverse()[g] !in Inverse() && g !in Forward()
    ensures Forward()[Inverse()[g]] == g
  {
    var i := GlyphIndex(g);
    GlyphIndexSound(g);
    ForwardAt(i);
    KeysAreNotGlyphs(Inverse()[g]);
    if g in Forward() {
      KeysAreNotGlyphs(g);
    }
  }
}
