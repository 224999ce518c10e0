/** The preview renderer: three regular-expression replacement passes (bold `*…*`, italic `_…_`,
    strikethrough `-…-`), applied in that order, followed by a trim.  Each pass is modelled as a
    left-to-right scan that cuts its input into plain characters and styled runs, which are then
    rendered as markup. */
module Markup {
  import opened Text

  datatype Option<T> = None | Some(value: T)

  /** The three styles, each bound to the delimiter its toolbar button inserts. */
  datatype Style = Bold | Italic | Strikethrough

  function Delimiter(st: Style): char {
    match st
    case Bold => '*'
    case Italic => '_'
    case Strikethrough => '-'
  }

  /** The markup a styled run opens with; every style closes with `CloseTag`. */
  function OpenTag(st: Style): string {
    "<" + TagBody(st) + ">"
  }

  /** What stands between the `<` and the `>` of the opening tag. */
  function TagBody(st: Style): string {
    "span " + Attribute(st)
  }

  /** The attribute of the opening tag that carries the style: an inline weight for bold, one of
      the host page's own classes for italic and strikethrough. */
  function Attribute(st: Style): string {
    match st
    case Bold => "style=\"font-weight: 500;\""
    case Italic => ClassAttribute("yt-core-attributed-string--italicized")
    case Strikethrough => ClassAttribute("yt-core-attributed-string--strikethrough")
  }

  function ClassAttribute(name: string): string {
    "class=\"" + name + "\""
  }

  const CloseTag: string := "</span>"

  /** Some `>` occurs in `t` before any `<`: the text that the strikethrough lookahead
      `(?![^<]*>)` refuses to see after a `-`. */
  ghost predicate TagEndAhead(t: string) {
    exists m :: 0 <= m < |t| && t[m] == '>' && forall k :: 0 <= k < m ==> t[k] != '<'
  }

  /** The lookahead as an explicit scan: walk forward until a `<` (inside text, so the guard
      holds) or a `>` (inside a tag, so it fails). */
  function NoTagEndAhead(t: string): bool
    decreases |t|
  {
    if |t| == 0 then true
    else if t[0] == '<' then true
    else if t[0] == '>' then false
    else NoTagEndAhead(t[1..])
  }

  /** The scan answers the lookahead: it succeeds exactly when no `>` comes before every `<`. */
  lemma {:induction false} NoTagEndAheadIff(t: string)
    ensures NoTagEndAhead(t) <==> !TagEndAhead(t)
    decreases |t|
  {
    if |t| > 0 && t[0] != '<' && t[0] != '>' {
      NoTagEndAheadIff(t[1..]);
      if TagEndAhead(t[1..]) {
        var m :| 0 <= m < |t[1..]| && t[1..][m] == '>' && forall k :: 0 <= k < m ==> t[1..][k] != '<';
        assert t[m + 1] == '>';
        forall k | 0 <= k < m + 1 ensures t[k] != '<' {
          if k > 0 { assert t[k] == t[1..][k - 1]; }
        }
      }
      if TagEndAhead(t) {
        var m :| 0 <= m < |t| && t[m] == '>' && forall k :: 0 <= k < m ==> t[k] != '<';
        assert t[1..][m - 1] == '>';
      }
    } else if |t| > 0 && t[0] == '>' {
      assert TagEndAhead(t) by { assert t[0] == '>'; }
    }
  }

  /** The lookahead succeeds on text that has no `>` at all. */
  lemma {:induction false} NoTagEndWithoutGreater(t: string)
    requires '>' !in t
    ensures NoTagEndAhead(t)
    decreases |t|
  {
    if |t| > 0 && t[0] != '<' {
      assert forall c :: c in t[1..] ==> c in t;
      NoTagEndWithoutGreater(t[1..]);
    }
  }

  /** The lookahead attached to both delimiters of a pass; only strikethrough has one. */
  predicate Guard(st: Style, rest: string) {
    st != Strikethrough || NoTagEndAhead(rest)
  }

  /** `s` starts with an opening delimiter the pass accepts. */
  predicate Opens(st: Style, s: string) {
    |s| > 0 && s[0] == Delimiter(st) && Guard(st, s[1..])
  }

  /** Position `j` can close a run opened at position 0: it holds an accepted delimiter, at
      least one character lies in between, and nothing from position 1 up to `j` is a line
      terminator (the lazy `.+?` cannot cross one). */
  predicate ClosesAt(st: Style, s: string, j: int) {
    && 2 <= j < |s|
    && s[j] == Delimiter(st)
    && Guard(st, s[j + 1..])
    && forall k :: 1 <= k < j ==> !IsLineTerminator(s[k])
  }

  /** The lazy quantifier: try closers at `j`, `j + 1`, … and stop at the first one, or fail at
      the end of the text or on a line terminator inside the run. */
  function CloserFrom(st: Style, s: string, j: nat): (r: Option<nat>)
    requires 2 <= j
    ensures r.Some? ==> j <= r.value < |s| && s[r.value] == Delimiter(st)
    decreases |s| - j
  {
    if j >= |s| then None
    else if IsLineTerminator(s[j - 1]) then None
    else if s[j] == Delimiter(st) && Guard(st, s[j + 1..]) then Some(j)
    else CloserFrom(st, s, j + 1)
  }

  /** The search finds the first closing position at or after `j`, provided no line terminator
      lies between position 1 and `j - 1`. */
  lemma {:induction false} CloserFromSpec(st: Style, s: string, j: nat)
    requires 2 <= j <= |s| + 1
    requires forall k :: 1 <= k < j - 1 ==> !IsLineTerminator(s[k])
    ensures var r := CloserFrom(st, s, j);
      && (r.Some? ==> j <= r.value && ClosesAt(st, s, r.value))
      && (r.Some? ==> forall m :: j <= m < r.value ==> !ClosesAt(st, s, m))
      && (r.None? ==> forall m :: j <= m ==> !ClosesAt(st, s, m))
    decreases |s| - j
  {
    if j < |s| && !IsLineTerminator(s[j - 1]) && !(s[j] == Delimiter(st) && Guard(st, s[j + 1..])) {
      CloserFromSpec(st, s, j + 1);
    }
  }

  /** The regular expression of pass `st` anchored at the start of `s`: the closing position of
      the shortest run starting there, if any. */
  function Match(st: Style, s: string): (r: Option<nat>)
    ensures r.Some? ==> 2 <= r.value < |s| && s[0] == Delimiter(st) && s[r.value] == Delimiter(st)
  {
    if Opens(st, s) then CloserFrom(st, s, 2) else None
  }

  /** A run starts at the beginning of `s` exactly when `s` opens one and some position closes
      it, and the match ends at the first closing position. */
  lemma MatchSpec(st: Style, s: string)
    ensures var r := Match(st, s);
      && (r.Some? <==> Opens(st, s) && exists j :: ClosesAt(st, s, j))
      && (r.Some? ==> ClosesAt(st, s, r.value))
      && (r.Some? ==> forall m :: m < r.value ==> !ClosesAt(st, s, m))
  {
    if Opens(st, s) {
      CloserFromSpec(st, s, 2);
    }
  }

  /** A pass cuts its input into characters it leaves alone and runs it styles. */
  datatype Segment = Plain(c: char) | Styled(body: string)

  /** The scan of one global replacement pass: at each position either a run matches (and
      scanning resumes after its closer) or one character is copied. */
  function Parse(st: Style, s: string): seq<Segment>
    decreases |s|
  {
    if |s| == 0 then []
    else
      match Match(st, s)
      case Some(j) => [Styled(s[1..j])] + Parse(st, s[j + 1..])
      case None => [Plain(s[0])] + Parse(st, s[1..])
  }

  /** Every run the scan styles has a body, and no line terminator in it. */
  lemma {:induction false} ParseBodies(st: Style, s: string)
    ensures GoodSegments(Parse(st, s))
    decreases |s|
  {
    if |s| > 0 {
      match Match(st, s)
      case Some(j) =>
        ParseBodies(st, s[j + 1..]);
        ParseStyledStep(st, s, j);
        MatchedBody(st, s, j);
        GoodSegmentsCons(Styled(s[1..j]), Parse(st, s[j + 1..]));
      case None =>
        ParseBodies(st, s[1..]);
        ParsePlainStep(st, s);
        GoodSegmentsCons(Plain(s[0]), Parse(st, s[1..]));
    }
  }

  /** A styled body is non-empty and has no line terminator. */
  predicate GoodBody(b: string) {
    |b| > 0 && forall k :: 0 <= k < |b| ==> !IsLineTerminator(b[k])
  }

  predicate GoodSegments(segs: seq<Segment>) {
    forall i :: 0 <= i < |segs| && segs[i].Styled? ==> GoodBody(segs[i].body)
  }

  lemma GoodSegmentsCons(seg: Segment, segs: seq<Segment>)
    requires seg.Styled? ==> GoodBody(seg.body)
    requires GoodSegments(segs)
    ensures GoodSegments([seg] + segs)
  {
    var all := [seg] + segs;
    forall i | 1 <= i < |all| ensures all[i] == segs[i - 1] { }
  }

  /** The body of a matched run is non-empty and stays on one line. */
  lemma MatchedBody(st: Style, s: string, j: nat)
    requires Match(st, s) == Some(j)
    ensures GoodBody(s[1..j])
  {
    MatchSpec(st, s);
    assert ClosesAt(st, s, j);
    assert forall k :: 0 <= k < |s[1..j]| ==> s[1..j][k] == s[k + 1];
  }

  /** The source text of a list of segments: each run is put back between its delimiters. */
  function Unparse(st: Style, segs: seq<Segment>): string {
    if |segs| == 0 then []
    else
      match segs[0]
      case Plain(c) => [c] + Unparse(st, segs[1..])
      case Styled(b) => [Delimiter(st)] + b + [Delimiter(st)] + Unparse(st, segs[1..])
  }

  lemma UnparsePlain(st: Style, c: char, segs: seq<Segment>)
    ensures Unparse(st, [Plain(c)] + segs) == [c] + Unparse(st, segs)
  {
    assert ([Plain(c)] + segs)[1..] == segs;
  }

  lemma UnparseStyled(st: Style, b: string, segs: seq<Segment>)
    ensures Unparse(st, [Styled(b)] + segs) == [Delimiter(st)] + b + [Delimiter(st)] + Unparse(st, segs)
  {
    assert ([Styled(b)] + segs)[1..] == segs;
  }

  /** The rendered markup of a list of segments: each run is put between its style's tags. */
  function Render(st: Style, segs: seq<Segment>): string {
    if |segs| == 0 then []
    else
      match segs[0]
      case Plain(c) => [c] + Render(st, segs[1..])
      case Styled(b) => OpenTag(st) + b + CloseTag + Render(st, segs[1..])
  }

  /** One replacement pass. It never shortens the text: every run it styles gains tags longer
      than the two delimiters it loses. */
  function Pass(st: Style, s: string): (r: string)
    ensures |r| >= |s|
  {
    ParseRoundTrip(st, s);
    RenderLength(st, Parse(st, s));
    Render(st, Parse(st, s))
  }

  /** The preview: bold, then italic, then strikethrough, each pass reading the previous pass's
      output, and the result trimmed. */
  function FormatText(s: string): (r: string)
    ensures |r| > 0 ==> !IsJsWhitespace(r[0]) && !IsJsWhitespace(r[|r| - 1])
  {
    Trim(Pass(Strikethrough, Pass(Italic, Pass(Bold, s))))
  }

  /** The preview box is hidden when the trimmed content is empty or a lone line break. */
  predicate PreviewHidden(html: string) {
    var t := Trim(html);
    t == "" || t == "<br>"
  }

  // ---------------------------------------------------------------------------------------
  // Properties of the scan
  // ---------------------------------------------------------------------------------------

  /** Parsing loses nothing: putting every run back between its delimiters gives the input. */
  lemma {:induction false} ParseRoundTrip(st: Style, s: string)
    ensures Unparse(st, Parse(st, s)) == s
    decreases |s|
  {
    if |s| > 0 {
      match Match(st, s)
      case Some(j) =>
        ParseRoundTrip(st, s[j + 1..]);
        ParseRoundTripStyled(st, s, j);
      case None =>
        ParseRoundTrip(st, s[1..]);
        ParseRoundTripPlain(st, s);
    }
  }

  /** The step of the round trip where a run is matched at the start of `s`. */
  lemma ParseRoundTripStyled(st: Style, s: string, j: nat)
    requires Match(st, s) == Some(j)
    requires Unparse(st, Parse(st, s[j + 1..])) == s[j + 1..]
    ensures Unparse(st, Parse(st, s)) == s
  {
    ParseStyledStep(st, s, j);
    UnparseStyled(st, s[1..j], Parse(st, s[j + 1..]));
    Rebuild(s, 1, j - 1);
    assert s[..1] == [s[0]];
    assert s[j..] == [s[j]] + s[j + 1..];
    Regroup([s[0]] + s[1..j], [s[j]], s[j + 1..]);
  }

  /** The scan's step when a run is matched at the start of `s`. */
  lemma ParseStyledStep(st: Style, s: string, j: nat)
    requires Match(st, s) == Some(j)
    ensures Parse(st, s) == [Styled(s[1..j])] + Parse(st, s[j + 1..])
  {
  }

  /** The scan's step when the first character is copied. */
  lemma ParsePlainStep(st: Style, s: string)
    requires |s| > 0 && Match(st, s).None?
    ensures Parse(st, s) == [Plain(s[0])] + Parse(st, s[1..])
  {
  }

  /** The step of the round trip where the first character of `s` is copied. */
  lemma ParseRoundTripPlain(st: Style, s: string)
    requires |s| > 0 && Match(st, s).None?
    requires Unparse(st, Parse(st, s[1..])) == s[1..]
    ensures Unparse(st, Parse(st, s)) == s
  {
    ParsePlainStep(st, s);
    UnparsePlain(st, s[0], Parse(st, s[1..]));
    assert s == [s[0]] + s[1..];
  }

  predicate AllPlain(segs: seq<Segment>) {
    forall i :: 0 <= i < |segs| ==> segs[i].Plain?
  }

  /** No position of `s` starts a run of pass `st`. */
  predicate NoMatchIn(st: Style, s: string) {
    forall i :: 0 <= i < |s| ==> Match(st, s[i..]).None?
  }

  /** Rendering only ever lengthens the source text, strictly so when some run is styled. */
  lemma {:induction false} RenderLength(st: Style, segs: seq<Segment>)
    ensures |Render(st, segs)| >= |Unparse(st, segs)|
    ensures AllPlain(segs) <==> Render(st, segs) == Unparse(st, segs)
  {
    if |segs| > 0 {
      RenderLength(st, segs[1..]);
      assert AllPlain(segs) <==> segs[0].Plain? && AllPlain(segs[1..]) by {
        if segs[0].Plain? && AllPlain(segs[1..]) {
          forall i | 0 <= i < |segs| ensures segs[i].Plain? {
            if i > 0 { assert segs[i] == segs[1..][i - 1]; }
          }
        }
      }
      match segs[0]
      case Plain(c) =>
        assert Render(st, segs) == [c] + Render(st, segs[1..]);
        assert Unparse(st, segs) == [c] + Unparse(st, segs[1..]);
        if Render(st, segs) == Unparse(st, segs) {
          assert Render(st, segs[1..]) == Render(st, segs)[1..];
        }
      case Styled(b) =>
        assert |OpenTag(st)| > 1;
    }
  }

  /** The scan styles nothing exactly when no position starts a run. */
  lemma {:induction false} ParseAllPlainIff(st: Style, s: string)
    ensures AllPlain(Parse(st, s)) <==> NoMatchIn(st, s)
    decreases |s|
  {
    if |s| > 0 {
      var segs := Parse(st, s);
      assert s[0..] == s;
      match Match(st, s)
      case Some(j) =>
        assert segs[0].Styled?;
      case None =>
        ParseAllPlainIff(st, s[1..]);
        assert segs[1..] == Parse(st, s[1..]);
        assert forall i :: 1 <= i <= |s| ==> s[1..][i - 1..] == s[i..];
        if NoMatchIn(st, s[1..]) {
          forall i | 0 <= i < |segs| ensures segs[i].Plain? {
            if i > 0 { assert segs[i] == segs[1..][i - 1]; }
          }
        }
        if AllPlain(segs) {
          assert AllPlain(segs[1..]) by {
            forall i | 0 <= i < |segs[1..]| ensures segs[1..][i].Plain? {
              assert segs[1..][i] == segs[i + 1];
            }
          }
          forall i | 0 <= i < |s| ensures Match(st, s[i..]).None? {
            if i > 0 { assert Match(st, s[1..][i - 1..]).None?; }
          }
        }
    }
  }

  /** A pass returns its input unchanged exactly when no position of the input starts a run. */
  lemma PassUnchangedIff(st: Style, s: string)
    ensures Pass(st, s) == s <==> NoMatchIn(st, s)
  {
    ParseRoundTrip(st, s);
    RenderLength(st, Parse(st, s));
    ParseAllPlainIff(st, s);
  }

  /** Text without the pass's delimiter passes through unchanged. */
  lemma PassWithoutDelimiter(st: Style, s: string)
    requires Delimiter(st) !in s
    ensures Pass(st, s) == s
  {
    forall i | 0 <= i < |s| ensures Match(st, s[i..]).None? {
      assert s[i..][0] == s[i];
    }
    PassUnchangedIff(st, s);
  }

  /** The preview is hidden exactly for blank content and for content that trims to `<br>`. */
  lemma PreviewHiddenIff(html: string)
    ensures PreviewHidden(html) <==> AllWhitespace(html) || Trim(html) == "<br>"
  {
    TrimEmptyIffBlank(html);
  }

  /** Hiding blank content loses nothing: its preview would be empty. */
  lemma BlankPreviewIsEmpty(html: string)
    requires AllWhitespace(html)
    ensures PreviewHidden(html) && FormatText(html) == ""
  {
    assert '*' !in html && '_' !in html && '-' !in html by {
      forall k | 0 <= k < |html| ensures html[k] != '*' && html[k] != '_' && html[k] != '-' {
        assert IsJsWhitespace(html[k]);
      }
    }
    FormatTextWithoutDelimiters(html);
    TrimEmptyIffBlank(html);
  }

  /** Text with none of `*`, `_`, `-` is only trimmed by the preview. */
  lemma FormatTextWithoutDelimiters(s: string)
    requires '*' !in s && '_' !in s && '-' !in s
    ensures FormatText(s) == Trim(s)
  {
    PassWithoutDelimiter(Bold, s);
    PassWithoutDelimiter(Italic, s);
    PassWithoutDelimiter(Strikethrough, s);
  }

  // ---------------------------------------------------------------------------------------
  // How a pass treats a prefix of its input
  // ---------------------------------------------------------------------------------------

  /** A position where no run starts is copied, and the scan moves on by one character. */
  lemma PassCopies(st: Style, s: string)
    requires |s| > 0 && Match(st, s).None?
    ensures Pass(st, s) == [s[0]] + Pass(st, s[1..])
  {
    var segs := Parse(st, s);
    assert segs[0] == Plain(s[0]) && segs[1..] == Parse(st, s[1..]);
  }

  /** A prefix free of the pass's delimiter is copied unchanged, whatever follows it. */
  lemma {:induction false} PassPlainPrefix(st: Style, p: string, rest: string)
    requires Delimiter(st) !in p
    ensures Pass(st, p + rest) == p + Pass(st, rest)
    decreases |p|
  {
    if |p| > 0 {
      var s := p + rest;
      assert s[0] == p[0] && s[1..] == p[1..] + rest;
      assert p[0] in p;
      PassCopies(st, s);
      PassPlainPrefix(st, p[1..], rest);
      calc {
        Pass(st, s);
        [p[0]] + Pass(st, p[1..] + rest);
        [p[0]] + (p[1..] + Pass(st, rest));
        { assert p == [p[0]] + p[1..]; }
        p + Pass(st, rest);
      }
    } else {
      assert p + rest == rest;
    }
  }

  /** A delimiter, a non-empty body free of delimiters and line terminators, and a second
      delimiter, both accepted by the guard, become one styled run; the scan resumes after it. */
  lemma PassStyledRun(st: Style, b: string, rest: string)
    requires |b| > 0 && Delimiter(st) !in b
    requires forall k :: 0 <= k < |b| ==> !IsLineTerminator(b[k])
    requires Guard(st, b + [Delimiter(st)] + rest) && Guard(st, rest)
    ensures Pass(st, [Delimiter(st)] + b + [Delimiter(st)] + rest)
            == OpenTag(st) + b + CloseTag + Pass(st, rest)
  {
    var d := Delimiter(st);
    var s := [d] + b + [d] + rest;
    var j := |b| + 1;
    assert s[1..] == b + [d] + rest && s[j + 1..] == rest && s[1..j] == b;
    assert ClosesAt(st, s, j);
    forall m | m < j ensures !ClosesAt(st, s, m) {
      if 2 <= m { assert s[m] == b[m - 1]; }
    }
    MatchSpec(st, s);
    assert Match(st, s) == Some(j);
    var segs := Parse(st, s);
    assert segs[0] == Styled(b) && segs[1..] == Parse(st, rest);
  }

  /** A delimiter refused by the guard is copied like any other character. */
  lemma PassRefusedDelimiter(st: Style, s: string)
    requires |s| > 0 && !Guard(st, s[1..])
    ensures Pass(st, s) == [s[0]] + Pass(st, s[1..])
  {
    PassCopies(st, s);
  }

  /** The lookahead fails on text that reaches a `>` before any `<`, whatever follows. */
  lemma {:induction false} TagEndBlocks(q: string, rest: string)
    requires |q| > 0 && q[|q| - 1] == '>' && '<' !in q
    ensures !NoTagEndAhead(q + rest)
    decreases |q|
  {
    var t := q + rest;
    assert t[0] == q[0];
    if q[0] != '>' {
      assert q[0] in q;
      assert t[1..] == q[1..] + rest;
      assert q[1..][|q| - 2] == '>';
      assert forall c :: c in q[1..] ==> c in q;
      TagEndBlocks(q[1..], rest);
    }
  }

  /** Inside a tag, ahead of its closing `>` and with no `<` left before it, every character
      is copied by the strikethrough pass: a `-` there is refused by the guard. */
  lemma {:induction false} StrikethroughCopiesTagTail(q: string, rest: string)
    requires |q| > 0 && q[|q| - 1] == '>' && '<' !in q
    ensures Pass(Strikethrough, q + rest) == q + Pass(Strikethrough, rest)
    decreases |q|
  {
    if |q| == 1 {
      PassPlainPrefix(Strikethrough, q, rest);
    } else {
      assert q[1..][|q| - 2] == '>';
      assert '<' !in q[1..] by {
        assert forall c :: c in q[1..] ==> c in q;
      }
      StrikethroughCopiesTagTail(q[1..], rest);
      StrikethroughCopiesInsideTag(q, rest);
      assert q == [q[0]] + q[1..];
      Regroup([q[0]], q[1..], Pass(Strikethrough, rest));
    }
  }

  /** The first character of a tag's tail is copied: if it is a `-`, the guard refuses it. */
  lemma StrikethroughCopiesInsideTag(q: string, rest: string)
    requires |q| > 1 && q[|q| - 1] == '>' && '<' !in q[1..]
    ensures Pass(Strikethrough, q + rest) == [q[0]] + Pass(Strikethrough, q[1..] + rest)
  {
    var s := q + rest;
    assert s[0] == q[0] && s[1..] == q[1..] + rest;
    assert q[1..][|q| - 2] == '>';
    TagEndBlocks(q[1..], rest);
    PassCopies(Strikethrough, s);
  }

  /** A whole tag, from its `<` to its `>`, is copied by the strikethrough pass. */
  lemma StrikethroughCopiesTag(body: string, rest: string)
    requires '<' !in body
    ensures Pass(Strikethrough, "<" + body + ">" + rest) == "<" + body + ">" + Pass(Strikethrough, rest)
  {
    var q := body + ">";
    StrikethroughCopiesTagTail(q, rest);
    Regroup("<", q, rest);
    PassPlainPrefix(Strikethrough, "<", q + rest);
    Regroup("<", body, ">");
    Regroup("<", q, Pass(Strikethrough, rest));
  }

  /** The opening tags that the passes emit survive the strikethrough pass untouched: every `-`
      inside them (`font-weight`, `yt-core-attributed-string--italicized`) has the tag's
      closing `>` ahead of it and no `<` in between. */
  lemma StrikethroughKeepsOpenTag(st: Style, rest: string)
    ensures Pass(Strikethrough, OpenTag(st) + rest) == OpenTag(st) + Pass(Strikethrough, rest)
  {
    TagShape(st);
    StrikethroughCopiesTag(TagBody(st), rest);
  }

  /** No opening tag has a `<` between its own `<` and `>`. */
  lemma TagShape(st: Style)
    ensures '<' !in TagBody(st)
  {
    NotIn('<', "span ");
    NotIn('<', "class=\"");
    NotIn('<', "\"");
    match st
    case Bold => NotIn('<', "style=\"font-weight: 500;\"");
    case Italic => NotIn('<', "yt-core-attributed-string--italicized");
    case Strikethrough => NotIn('<', "yt-core-attributed-string--strikethrough");
  }

  /** Membership read off position by position, which is cheaper to check on a literal. */
  lemma NotIn(c: char, t: string)
    requires forall i :: 0 <= i < |t| ==> t[i] != c
    ensures c !in t
  {
  }

  /** The closing tag holds none of the three delimiters. */
  lemma CloseTagUndelimited()
    ensures Undelimited(CloseTag)
  {
    NotIn('*', CloseTag);
    NotIn('_', CloseTag);
    NotIn('-', CloseTag);
  }

  /** The bold opening tag holds no `_`, so the italic pass copies it. */
  lemma BoldTagHasNoUnderscore()
    ensures '_' !in OpenTag(Bold)
  {
    NotIn('_', "<span ");
    NotIn('_', "style=\"font-weight: 500;\"");
    NotIn('_', ">");
  }

  // ---------------------------------------------------------------------------------------
  // The whole preview
  // ---------------------------------------------------------------------------------------

  /** The preview of `s` is `r` when the three passes lead from `s` to `r` and `r` has no
      whitespace at either end. */
  lemma FormatTextStages(s: string, b1: string, b2: string, r: string)
    requires Pass(Bold, s) == b1 && Pass(Italic, b1) == b2 && Pass(Strikethrough, b2) == r
    requires |r| > 0 && !IsJsWhitespace(r[0]) && !IsJsWhitespace(r[|r| - 1])
    ensures FormatText(s) == r
  {
    TrimFixesTrimmed(r);
  }

  /** A pass turns a lone run, delimiters at both ends, into one styled span. */
  lemma PassLoneRun(st: Style, b: string)
    requires |b| > 0 && forall k :: 0 <= k < |b| ==> !IsLineTerminator(b[k])
    requires Delimiter(st) !in b
    requires st == Strikethrough ==> '>' !in b
    ensures Pass(st, [Delimiter(st)] + b + [Delimiter(st)]) == OpenTag(st) + b + CloseTag
  {
    var d := Delimiter(st);
    if st == Strikethrough {
      assert forall c :: c in b + [d] ==> c in b || c == d;
      NoTagEndWithoutGreater(b + [d]);
      assert b + [d] + [] == b + [d];
    }
    PassStyledRun(st, b, []);
    assert Pass(st, []) == [];
    assert [d] + b + [d] + [] == [d] + b + [d];
    assert OpenTag(st) + b + CloseTag + [] == OpenTag(st) + b + CloseTag;
  }

  /** A run surrounded by text free of the pass's delimiter is the only thing a pass changes. */
  lemma PassRunInText(st: Style, p: string, b: string, q: string)
    requires |b| > 0 && forall k :: 0 <= k < |b| ==> !IsLineTerminator(b[k])
    requires Delimiter(st) !in p && Delimiter(st) !in b && Delimiter(st) !in q
    requires Guard(st, b + [Delimiter(st)] + q) && Guard(st, q)
    ensures Pass(st, p + [Delimiter(st)] + b + [Delimiter(st)] + q)
            == p + OpenTag(st) + b + CloseTag + q
  {
    var d := Delimiter(st);
    PassLeadingRun(st, b, q);
    PassPlainPrefix(st, p, [d] + b + [d] + q);
    Regroup(p, [d], b);
    Regroup(p, [d] + b, [d]);
    Regroup(p, [d] + b + [d], q);
    Regroup(p, OpenTag(st), b);
    Regroup(p, OpenTag(st) + b, CloseTag);
    Regroup(p, OpenTag(st) + b + CloseTag, q);
  }

  /** A rendered span whose body has no `-` comes out of the strikethrough pass unchanged. */
  lemma StrikethroughKeepsSpan(st: Style, b: string)
    requires '-' !in b
    ensures Pass(Strikethrough, OpenTag(st) + b + CloseTag) == OpenTag(st) + b + CloseTag
  {
    StrikethroughKeepsOpenTag(st, b + CloseTag);
    CloseTagUndelimited();
    PassWithoutDelimiter(Strikethrough, b + CloseTag);
    Regroup(OpenTag(st), b, CloseTag);
  }

  /** Plain text between two `*` previews as exactly one bold span. */
  lemma FormatTextBoldRun(b: string)
    requires |b| > 0 && forall k :: 0 <= k < |b| ==> !IsLineTerminator(b[k])
    requires '*' !in b && '_' !in b && '-' !in b
    ensures FormatText(['*'] + b + ['*']) == OpenTag(Bold) + b + CloseTag
  {
    var r := OpenTag(Bold) + b + CloseTag;
    PassLoneRun(Bold, b);
    StrikethroughKeepsSpan(Bold, b);
    assert '_' !in r by {
      BoldTagHasNoUnderscore();
      CloseTagUndelimited();
    }
    PassWithoutDelimiter(Italic, r);
    FormatTextStages(['*'] + b + ['*'], r, r, r);
  }

  /** Plain text between two `_` previews as exactly one italic span: the `-` characters of
      the italic class are not mistaken for strikethrough delimiters. */
  lemma FormatTextItalicRun(b: string)
    requires |b| > 0 && forall k :: 0 <= k < |b| ==> !IsLineTerminator(b[k])
    requires '*' !in b && '_' !in b && '-' !in b
    ensures FormatText(['_'] + b + ['_']) == OpenTag(Italic) + b + CloseTag
  {
    var s := ['_'] + b + ['_'];
    var r := OpenTag(Italic) + b + CloseTag;
    assert '*' !in s;
    PassWithoutDelimiter(Bold, s);
    PassLoneRun(Italic, b);
    StrikethroughKeepsSpan(Italic, b);
    FormatTextStages(s, s, r, r);
  }

  /** Plain text between two `-`, with no `>` after the first, previews as exactly one
      strikethrough span. */
  lemma FormatTextStrikethroughRun(b: string)
    requires |b| > 0 && forall k :: 0 <= k < |b| ==> !IsLineTerminator(b[k])
    requires '*' !in b && '_' !in b && '-' !in b && '>' !in b
    ensures FormatText(['-'] + b + ['-']) == OpenTag(Strikethrough) + b + CloseTag
  {
    var s := ['-'] + b + ['-'];
    var r := OpenTag(Strikethrough) + b + CloseTag;
    assert '*' !in s && '_' !in s;
    PassWithoutDelimiter(Bold, s);
    PassWithoutDelimiter(Italic, s);
    PassLoneRun(Strikethrough, b);
    assert r[|r| - 1] == '>';
    FormatTextStages(s, s, s, r);
  }

  /** A strikethrough run inside plain text: only the run is changed. */
  lemma FormatTextStrikethroughInText(p: string, b: string, q: string)
    requires |b| > 0 && forall k :: 0 <= k < |b| ==> !IsLineTerminator(b[k])
    requires '*' !in p + b + q && '_' !in p + b + q && '-' !in p + b + q && '>' !in b + q
    requires |p| > 0 && !IsJsWhitespace(p[0]) && |q| > 0 && !IsJsWhitespace(q[|q| - 1])
    ensures FormatText(p + ['-'] + b + ['-'] + q) == p + OpenTag(Strikethrough) + b + CloseTag + q
  {
    var s := p + ['-'] + b + ['-'] + q;
    var r := p + OpenTag(Strikethrough) + b + CloseTag + q;
    assert '*' !in s && '_' !in s by {
      assert forall c :: c in s ==> c in p + b + q || c == '-';
    }
    PassWithoutDelimiter(Bold, s);
    PassWithoutDelimiter(Italic, s);
    assert Guard(Strikethrough, b + ['-'] + q) && Guard(Strikethrough, q) by {
      assert forall c :: c in b + ['-'] + q ==> c in b + q || c == '-';
      assert forall c :: c in q ==> c in b + q;
      NoTagEndWithoutGreater(b + ['-'] + q);
      NoTagEndWithoutGreater(q);
    }
    assert '-' !in p && '-' !in b && '-' !in q by {
      assert forall c :: c in p || c in b || c in q ==> c in p + b + q;
    }
    PassRunInText(Strikethrough, p, b, q);
    assert r[0] == p[0] && r[|r| - 1] == q[|q| - 1];
    FormatTextStages(s, s, s, r);
  }

  /** A text with no delimiter of any style. */
  predicate Undelimited(t: string) {
    '*' !in t && '_' !in t && '-' !in t
  }

  /** A run at the very start of the text, with no further delimiter of its style after it. */
  lemma PassLeadingRun(st: Style, b: string, q: string)
    requires |b| > 0 && forall k :: 0 <= k < |b| ==> !IsLineTerminator(b[k])
    requires Delimiter(st) !in b && Delimiter(st) !in q
    requires Guard(st, b + [Delimiter(st)] + q) && Guard(st, q)
    ensures Pass(st, [Delimiter(st)] + b + [Delimiter(st)] + q) == OpenTag(st) + b + CloseTag + q
  {
    PassStyledRun(st, b, q);
    PassWithoutDelimiter(st, q);
  }

  /** A run at the very end of the text, with no delimiter of its style before it. */
  lemma PassTrailingRun(st: Style, p: string, b: string)
    requires |b| > 0 && forall k :: 0 <= k < |b| ==> !IsLineTerminator(b[k])
    requires Delimiter(st) !in p && Delimiter(st) !in b
    requires st == Strikethrough ==> '>' !in b
    ensures Pass(st, p + [Delimiter(st)] + b + [Delimiter(st)]) == p + OpenTag(st) + b + CloseTag
  {
    var d := Delimiter(st);
    PassPlainPrefix(st, p, [d] + b + [d]);
    PassLoneRun(st, b);
    Regroup(p, [d], b);
    Regroup(p, [d] + b, [d]);
    Regroup(p, OpenTag(st), b);
    Regroup(p, OpenTag(st) + b, CloseTag);
  }

  /** The bold pass over a bold run followed by an italic run. */
  lemma BoldThenItalicBoldPass(a: string, m: string, b: string)
    requires |a| > 0 && forall k :: 0 <= k < |a| ==> !IsLineTerminator(a[k])
    requires Undelimited(a) && Undelimited(m) && Undelimited(b)
    ensures Pass(Bold, ['*'] + a + ['*'] + m + ['_'] + b + ['_'])
         == OpenTag(Bold) + a + CloseTag + m + ['_'] + b + ['_']
  {
    var rest := m + ['_'] + b + ['_'];
    assert '*' !in rest by {
      assert forall c :: c in rest ==> c in m || c == '_' || c in b;
    }
    assert ['*'] + a + ['*'] + rest == ['*'] + a + ['*'] + m + ['_'] + b + ['_'];
    PassLeadingRun(Bold, a, rest);
    assert OpenTag(Bold) + a + CloseTag + rest == OpenTag(Bold) + a + CloseTag + m + ['_'] + b + ['_'];
  }

  /** The italic pass after the bold pass of a bold run followed by an italic run. */
  lemma BoldThenItalicItalicPass(a: string, m: string, b: string)
    requires |b| > 0 && forall k :: 0 <= k < |b| ==> !IsLineTerminator(b[k])
    requires Undelimited(a) && Undelimited(m) && Undelimited(b)
    ensures Pass(Italic, OpenTag(Bold) + a + CloseTag + m + ['_'] + b + ['_'])
         == OpenTag(Bold) + a + CloseTag + m + OpenTag(Italic) + b + CloseTag
  {
    var p := OpenTag(Bold) + a + CloseTag + m;
    assert '_' !in p by {
      BoldTagHasNoUnderscore();
      CloseTagUndelimited();
      assert forall c :: c in p ==> c in OpenTag(Bold) || c in a || c in CloseTag || c in m;
    }
    PassTrailingRun(Italic, p, b);
  }

  /** The strikethrough pass leaves the rendered bold and italic runs alone. */
  lemma BoldThenItalicStrikethroughPass(a: string, m: string, b: string)
    requires Undelimited(a) && Undelimited(m) && Undelimited(b)
    ensures var r := OpenTag(Bold) + a + CloseTag + m + OpenTag(Italic) + b + CloseTag;
      Pass(Strikethrough, r) == r
  {
    var r := OpenTag(Bold) + a + CloseTag + m + OpenTag(Italic) + b + CloseTag;
    var q := a + CloseTag + m;
    var tail := OpenTag(Italic) + b + CloseTag;
    Regroup(OpenTag(Bold), a, CloseTag);
    Regroup(OpenTag(Bold), a + CloseTag, m);
    Regroup(OpenTag(Bold), q, tail);
    Regroup(OpenTag(Bold) + a + CloseTag + m, OpenTag(Italic), b);
    Regroup(OpenTag(Bold) + a + CloseTag + m, OpenTag(Italic) + b, CloseTag);
    StrikethroughKeepsOpenTag(Bold, q + tail);
    assert '-' !in q by {
      assert forall c :: c in q ==> c in a || c in CloseTag || c in m;
    }
    PassPlainPrefix(Strikethrough, q, tail);
    StrikethroughKeepsSpan(Italic, b);
  }

  /** A bold run followed by an italic run: both are rendered and nothing else changes. */
  lemma FormatTextBoldThenItalic(a: string, m: string, b: string)
    requires |a| > 0 && forall k :: 0 <= k < |a| ==> !IsLineTerminator(a[k])
    requires |b| > 0 && forall k :: 0 <= k < |b| ==> !IsLineTerminator(b[k])
    requires Undelimited(a) && Undelimited(m) && Undelimited(b)
    ensures FormatText(['*'] + a + ['*'] + m + ['_'] + b + ['_'])
         == OpenTag(Bold) + a + CloseTag + m + OpenTag(Italic) + b + CloseTag
  {
    var s := ['*'] + a + ['*'] + m + ['_'] + b + ['_'];
    var b1 := OpenTag(Bold) + a + CloseTag + m + ['_'] + b + ['_'];
    var r := OpenTag(Bold) + a + CloseTag + m + OpenTag(Italic) + b + CloseTag;
    BoldThenItalicBoldPass(a, m, b);
    BoldThenItalicItalicPass(a, m, b);
    BoldThenItalicStrikethroughPass(a, m, b);
    assert r[0] == OpenTag(Bold)[0] && r[|r| - 1] == '>';
    FormatTextStages(s, b1, r, r);
  }
}
