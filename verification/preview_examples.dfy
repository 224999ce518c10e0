/** Worked inputs of the preview renderer, each proved from the scan lemmas of `Markup`. */
module PreviewExamples {
  import opened Text
  import opened Markup

  /** A run needs at least one character between its delimiters: `**` is left alone. */
  lemma EmptyBoldPairUnchanged(s: string)
    requires s == "**"
    ensures FormatText(s) == s
  {
    assert Pass(Bold, s) == s by {
      assert Match(Bold, s).None?;
      PassCopies(Bold, s);
      PassCopies(Bold, s[1..]);
      assert s[1..][1..] == [];
      assert Pass(Bold, []) == [];
    }
    PassWithoutDelimiter(Italic, s);
    PassWithoutDelimiter(Strikethrough, s);
    FormatTextStages(s, s, s, s);
  }

  /** The bold pass of `*a*b*`: the run closes at the second `*`, and the third has no
      partner. */
  lemma BoldPassClosesAtNearest(s: string)
    requires s == "*a*b*"
    ensures Pass(Bold, s) == OpenTag(Bold) + "a" + CloseTag + "b*"
  {
    var body, rest := s[1..2], s[3..];
    assert body == "a" && rest == "b*";
    assert s == ['*'] + body + ['*'] + rest;
    PassStyledRun(Bold, body, rest);
    PassPlainPrefix(Bold, rest[..1], rest[1..]);
    PassCopies(Bold, rest[1..]);
    assert rest[1..][1..] == [];
    assert Pass(Bold, []) == [];
    assert rest == rest[..1] + rest[1..];
  }

  /** A run closes at the nearest delimiter: in `*a*b*` only `a` is bold and `b*` stays. */
  lemma BoldClosesAtNearestDelimiter(s: string)
    requires s == "*a*b*"
    ensures FormatText(s) == OpenTag(Bold) + "a" + CloseTag + "b*"
  {
    var tail := "a" + CloseTag + "b*";
    var r := OpenTag(Bold) + "a" + CloseTag + "b*";
    Regroup(OpenTag(Bold), "a", CloseTag);
    Regroup(OpenTag(Bold), "a" + CloseTag, "b*");
    BoldPassClosesAtNearest(s);
    assert Pass(Italic, r) == r by {
      BoldTagHasNoUnderscore();
      CloseTagUndelimited();
      PassWithoutDelimiter(Italic, r);
    }
    assert Pass(Strikethrough, r) == r by {
      StrikethroughKeepsOpenTag(Bold, tail);
      CloseTagUndelimited();
      assert '-' !in tail;
      PassWithoutDelimiter(Strikethrough, tail);
    }
    FormatTextStages(s, r, r, r);
  }

  /** `*bold*` becomes one bold span with no delimiter left over. */
  lemma BoldWord(s: string)
    requires s == "*bold*"
    ensures FormatText(s) == OpenTag(Bold) + "bold" + CloseTag
  {
    var body := s[1..5];
    assert body == "bold" && s == ['*'] + body + ['*'];
    FormatTextBoldRun(body);
  }

  /** The `--` in the italic class is not taken for strikethrough: `_a_` is exactly the
      italic span. */
  lemma ItalicSurvivesStrikethrough(s: string)
    requires s == "_a_"
    ensures FormatText(s) == OpenTag(Italic) + "a" + CloseTag
  {
    var body := s[1..2];
    assert body == "a" && s == ['_'] + body + ['_'];
    FormatTextItalicRun(body);
  }

  /** Bold and italic runs side by side are both rendered. */
  lemma BoldAndItalic(s: string)
    requires s == "*a* and _b_"
    ensures FormatText(s) == OpenTag(Bold) + "a" + CloseTag + " and " + OpenTag(Italic) + "b" + CloseTag
  {
    var a, m, b := s[1..2], s[3..8], s[9..10];
    assert a == "a" && m == " and " && b == "b";
    assert s == ['*'] + a + ['*'] + m + ['_'] + b + ['_'];
    FormatTextBoldThenItalic(a, m, b);
  }

  /** A single stray `-` has no partner and is left alone. */
  lemma StrayDashUnchanged(s: string)
    requires s == "x - y"
    ensures FormatText(s) == s
  {
    PassWithoutDelimiter(Bold, s);
    PassWithoutDelimiter(Italic, s);
    assert Pass(Strikethrough, s) == s by {
      var p, t := s[..2], s[2..];
      assert s == p + t;
      assert Match(Strikethrough, t).None?;
      PassCopies(Strikethrough, t);
      PassWithoutDelimiter(Strikethrough, t[1..]);
      assert t == [t[0]] + t[1..];
      PassPlainPrefix(Strikethrough, p, t);
    }
    FormatTextStages(s, s, s, s);
  }

  /** A `-` followed by the end of a tag is refused as a closer: in `-a<b-c>d-` the `-` at
      offset 4 has `c>` ahead with no `<` before it, so the run closes at offset 8. */
  lemma TagDashNotACloser(s: string)
    requires s == "-a<b-c>d-"
    ensures Match(Strikethrough, s) == Some(8)
  {
    assert NoTagEndAhead(s[1..]) by {
      NoTagEndAheadIff(s[1..]);
      assert s[1..][1] == '<';
    }
    assert !NoTagEndAhead(s[5..]) by {
      NoTagEndAheadIff(s[5..]);
      assert s[5..][1] == '>';
    }
    assert NoTagEndAhead(s[9..]);
    assert CloserFrom(Strikethrough, s, 8) == Some(8);
    assert CloserFrom(Strikethrough, s, 4) == CloserFrom(Strikethrough, s, 5);
    assert CloserFrom(Strikethrough, s, 7) == CloserFrom(Strikethrough, s, 8);
    assert CloserFrom(Strikethrough, s, 6) == CloserFrom(Strikethrough, s, 7);
    assert CloserFrom(Strikethrough, s, 5) == CloserFrom(Strikethrough, s, 6);
    assert CloserFrom(Strikethrough, s, 2) == CloserFrom(Strikethrough, s, 4);
  }

  /** A matched pair of `-` in plain text strikes the text between them. */
  lemma DashPairStrikes(s: string)
    requires s == "a -b- c"
    ensures FormatText(s) == "a " + OpenTag(Strikethrough) + "b" + CloseTag + " c"
  {
    var p, b, q := s[..2], s[3..4], s[5..];
    assert p == "a " && b == "b" && q == " c";
    assert s == p + ['-'] + b + ['-'] + q;
    FormatTextStrikethroughInText(p, b, q);
  }

  /** A run cannot cross a line break. */
  lemma BoldStopsAtLineBreak(s: string)
    requires s == "*a\nb*"
    ensures FormatText(s) == s
  {
    assert Pass(Bold, s) == s by {
      assert NoMatchIn(Bold, s) by {
        forall i | 0 <= i < |s| ensures Match(Bold, s[i..]).None? {
          if i == 0 {
            assert s[0..] == s;
            assert CloserFrom(Bold, s, 3) == None by { assert IsLineTerminator(s[2]); }
            assert CloserFrom(Bold, s, 2) == None by { assert s[2] != '*'; }
          } else if i < 4 {
            assert s[i..][0] != '*';
          }
        }
      }
      PassUnchangedIff(Bold, s);
    }
    PassWithoutDelimiter(Italic, s);
    PassWithoutDelimiter(Strikethrough, s);
    FormatTextStages(s, s, s, s);
  }
}
