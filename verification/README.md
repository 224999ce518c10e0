# Comment formatting for YouTube comments, modelled in Dafny

The extension adds four buttons to YouTube's comment box and shows a live preview of the
comment. Bold, italic and strikethrough wrap the selection in `*`, `_` or `-`. The superscript
button replaces the selection with its superscript form, or turns superscript text back into
plain text. The preview turns `*…*`, `_…_` and `-…-` into styled `<span>`s with three
regular-expression replacements and then trims the result.

This project models the string logic of `content.js`. The DOM calls around it are not modelled.

- `text.dfy` (`Text`): JavaScript's line terminators and whitespace, and `trim`.
- `markup.dfy` (`Markup`): the preview renderer `formatText`.
  - Each replacement pass is an explicit left-to-right scan. The scan cuts the text into plain
    characters and styled runs (`Parse`), which are then rendered as markup (`Render`).
  - A run's closer is the first later delimiter that leaves at least one character between the
    two delimiters and that the pass accepts. For `*` and `_` every delimiter is accepted. For
    `-` the lookahead `(?![^<]*>)` must also succeed after it, so in `-a<b-c>d-` the `-` at
    offset 4 is refused and the run closes at offset 8. No line terminator may come between
    the two delimiters.
  - The strikethrough lookahead `(?![^<]*>)` is the scan `NoTagEndAhead`. `NoTagEndAheadIff`
    proves it equal to its reading as a formula.
  - `Unparse` puts every run back between its delimiters. It is the inverse that the scan is
    checked against.
- `preview_examples.dfy` (`PreviewExamples`): worked inputs of the preview.
- `superscript_table.dfy` (`SuperscriptTable`): the 69-entry superscript table, in the order it
  is written.
  - Both maps are built by the same fold, "a later entry overwrites an earlier one". The
    forward map is built from the entries. The inverse map is built from the entries with key
    and value exchanged.
  - The inverse is built in the order the entries are written. `Object.entries` lists
    integer-like keys (`'0'` to `'9'`) first, in ascending order, and then the other keys in
    the order they were written. The literal already starts with `'0'` to `'9'` in ascending
    order, so the two orders are the same. In particular `S` comes before `s`, and `s` wins the
    shared glyph.
  - `KeyIndex` and `GlyphIndex` find an entry's position. They give a direct description of
    the two maps.
- `superscript.dfy` (`Superscript`): the toggle.
  - It is stated for any raise table and lower table with the facts of `IsCodec`.
  - It is then instantiated with the superscript tables.
- `superscript_examples.dfy` (`SuperscriptExamples`): worked inputs of the toggle.
- `selection.dfy` (`Selection`): the buttons as text edits. For each button it gives the text
  that replaces the selection, and the part of that text selected afterwards. Pressing a
  button on a draft comment splices that text in.

`S` and `s` share the glyph `ˢ`, and the inverse keeps the later entry, `s`. The model keeps
this. Two toggles give back the original string in two proved cases:

- A string with a plain key and no glyph comes back exactly when it has no `S`
  (`Superscript.RoundTripPlainIff`).
- A non-empty string with no plain key always comes back (`Superscript.RoundTripSuperscript`).

Other strings need not come back. A glyph beside a plain key is kept when the string is raised
and is then lowered with the rest, so `x²` comes back as `x2`. The empty string becomes `²`,
which comes back as `2`.
Offsets are counted in characters (code points). The browser counts them in UTF-16 code
units. Both sides of each offset computation count the same way, so the selected text is the
same.

## Model

| member | source | states |
|---|---|---|
| Text.TrimStart | content.js:131 | the result is a suffix of the input, everything cut off before it is whitespace, and it does not start with whitespace |
| Text.TrimEnd | content.js:131 | the result is a prefix of the input, everything cut off after it is whitespace, and it does not end with whitespace |
| Text.Trim | content.js:131 | the result is a slice of the input with only whitespace cut from either side, and it neither starts nor ends with whitespace |
| Text.TrimFixesTrimmed | content.js:131 | trimming leaves a string with no whitespace at either end unchanged |
| Text.TrimEmptyIffBlank | content.js:96-97 | the trimmed content is empty exactly when the content is all whitespace |
| Markup.NoTagEndAheadIff | content.js:130 | the lookahead scan succeeds exactly when no `>` comes before the first `<` |
| Markup.NoTagEndWithoutGreater | content.js:130 | the lookahead succeeds on text without `>` |
| Markup.TagEndBlocks | content.js:130 | the lookahead fails on text that reaches a `>` with no `<` before it, whatever follows |
| Markup.CloserFrom | content.js:128-130 | a closer searched for from position `j` on is at or after `j`, inside the text, and is the pass's delimiter |
| Markup.CloserFromSpec | content.js:128-130 | the lazy `.+?` closes at the first accepted delimiter with no line terminator before it, and finds none when there is none |
| Markup.Match | content.js:128-130 | a match starts on the pass's delimiter and closes on a later one, with at least one character between them |
| Markup.MatchSpec | content.js:128-130 | a run starts at a position exactly when an accepted opener is there and some position can close it; it closes at the nearest such position |
| Markup.Pass | content.js:128-130 | a replacement pass never makes the text shorter |
| Markup.ParseBodies | content.js:128-130 | every styled run has a non-empty body without line terminators |
| Markup.ParseRoundTrip | content.js:128-130 | putting every run back between its delimiters gives back the input of the pass |
| Markup.RenderLength | content.js:128-130 | rendering never shortens the text, and equals the source text exactly when no run is styled |
| Markup.ParseAllPlainIff | content.js:128-130 | the scan styles nothing exactly when no position starts a run |
| Markup.PassUnchangedIff | content.js:128-130 | a pass returns its input unchanged exactly when no position of it starts a run |
| Markup.PassWithoutDelimiter | content.js:128-130 | text without the pass's delimiter is returned unchanged |
| Markup.PassCopies | content.js:128-130 | where no run starts, one character is copied and the scan moves on by one |
| Markup.PassPlainPrefix | content.js:128-130 | a prefix without the pass's delimiter is copied, whatever follows |
| Markup.PassStyledRun | content.js:128-130 | a delimited body becomes one span and scanning resumes after the closer, when the body is non-empty, single-line and has no delimiter of the pass, and the lookahead accepts both delimiters |
| Markup.PassRefusedDelimiter | content.js:130 | a `-` refused by the lookahead is copied like any other character |
| Markup.StrikethroughCopiesInsideTag | content.js:130 | inside a tag, a character before the tag's `>` is copied by the strikethrough pass |
| Markup.StrikethroughCopiesTagTail | content.js:130 | the rest of a tag, up to its `>`, is copied by the strikethrough pass |
| Markup.StrikethroughCopiesTag | content.js:130 | a whole tag with no inner `<` is copied by the strikethrough pass |
| Markup.StrikethroughKeepsOpenTag | content.js:128-130 | the opening tags of all three styles, with their `-` characters, survive the strikethrough pass |
| Markup.TagShape | content.js:128-130 | no opening tag has a `<` between its own `<` and `>` |
| Markup.CloseTagUndelimited | content.js:128-130 | the closing tag contains none of `*`, `_`, `-` |
| Markup.BoldTagHasNoUnderscore | content.js:128 | the bold opening tag contains no `_`, so the italic pass copies it |
| Markup.FormatText | content.js:126-132 | the preview neither starts nor ends with whitespace |
| Markup.FormatTextStages | content.js:126-132 | the preview is the result of the three passes in order, when that result has no whitespace at either end |
| Markup.FormatTextWithoutDelimiters | content.js:127-131 | text with none of `*`, `_`, `-` is only trimmed |
| Markup.PreviewHiddenIff | content.js:96-98 | the preview is hidden exactly for blank content or content that trims to `<br>` |
| Markup.BlankPreviewIsEmpty | content.js:96-101 | blank content is hidden, and its preview would be empty anyway |
| Markup.PassLoneRun | content.js:128-130 | a pass turns a lone delimited run into one span of its style, when the body is non-empty, has no line terminator and no delimiter of the pass, and, for strikethrough, no `>` |
| Markup.PassLeadingRun | content.js:128-130 | a run at the start, with no delimiter after it, is the only thing the pass changes, when the body is non-empty, single-line and has no delimiter of the pass, and the lookahead accepts both delimiters |
| Markup.PassTrailingRun | content.js:128-130 | a run at the end, with no delimiter before it, is the only thing the pass changes, when the body is non-empty, single-line, has no delimiter of the pass and, for strikethrough, has no `>` |
| Markup.PassRunInText | content.js:128-130 | a run inside delimiter-free text is the only thing the pass changes, when the body is non-empty, single-line and has no delimiter of the pass, and the lookahead accepts both delimiters |
| Markup.StrikethroughKeepsSpan | content.js:130 | a rendered span whose body has no `-` is unchanged by the strikethrough pass |
| Markup.FormatTextBoldRun | content.js:128 | `*b*` previews as exactly one bold span around `b`, when `b` is non-empty, has no line terminator and none of `*`, `_`, `-` |
| Markup.FormatTextItalicRun | content.js:129-130 | `_b_` previews as exactly one italic span around `b`, when `b` is non-empty, has no line terminator and none of `*`, `_`, `-`; the `--` of the italic class is not struck through |
| Markup.FormatTextStrikethroughRun | content.js:130 | `-b-` previews as exactly one strikethrough span around `b`, when `b` is non-empty, has no line terminator and none of `*`, `_`, `-`, `>` |
| Markup.FormatTextStrikethroughInText | content.js:130 | `p-b-q` previews as `p`, a strikethrough span around `b`, then `q`, when `b` is non-empty and single-line, none of `p`, `b`, `q` has `*`, `_` or `-`, `b` and `q` have no `>`, and `p` and `q` are non-empty with no whitespace at the outer ends |
| Markup.BoldThenItalicBoldPass | content.js:128 | the bold pass of `*a*m_b_` styles only `a`, when `a` is non-empty and single-line and none of `a`, `m`, `b` has `*`, `_` or `-` |
| Markup.BoldThenItalicItalicPass | content.js:129 | the italic pass of the bold pass's output styles only `b` and copies the bold span, when `b` is non-empty and single-line and none of `a`, `m`, `b` has `*`, `_` or `-` |
| Markup.BoldThenItalicStrikethroughPass | content.js:130 | the strikethrough pass leaves the bold span around `a`, then `m`, then the italic span around `b` unchanged, when none of `a`, `m`, `b` has `*`, `_` or `-` |
| Markup.FormatTextBoldThenItalic | content.js:126-132 | `*a*m_b_` previews as a bold span around `a`, then `m`, then an italic span around `b`, when `a` and `b` are non-empty and single-line and none of `a`, `m`, `b` has `*`, `_` or `-` |
| PreviewExamples.EmptyBoldPairUnchanged | content.js:128 | `**` is left unchanged |
| PreviewExamples.BoldPassClosesAtNearest | content.js:128 | the bold pass of `*a*b*` closes at the second `*` and leaves `b*` |
| PreviewExamples.BoldClosesAtNearestDelimiter | content.js:126-132 | the preview of `*a*b*` is a bold `a` followed by `b*` |
| PreviewExamples.BoldWord | content.js:128 | `*bold*` previews as `<span style="font-weight: 500;">bold</span>` |
| PreviewExamples.ItalicSurvivesStrikethrough | content.js:129-130 | `_a_` previews as exactly the italic span |
| PreviewExamples.BoldAndItalic | content.js:126-132 | `*a* and _b_` previews as a bold `a`, then ` and `, then an italic `b` |
| PreviewExamples.TagDashNotACloser | content.js:130 | in `-a<b-c>d-` the `-` at offset 4 is refused because `c>` follows it, so the strikethrough run closes at offset 8 |
| PreviewExamples.StrayDashUnchanged | content.js:130 | `x - y` is left unchanged |
| PreviewExamples.DashPairStrikes | content.js:130 | `a -b- c` strikes `b` and changes nothing else |
| PreviewExamples.BoldStopsAtLineBreak | content.js:128 | `*a` and `b*` on two lines are not joined into a run |
| SuperscriptTable.KeyIndexFinds | content.js:160-181 | every key finds its own entry, so no two entries share a key |
| SuperscriptTable.GlyphIndexFinds | content.js:160-181 | every glyph finds its own entry, except that the glyph of `S` finds the later `s` |
| SuperscriptTable.KeyIndexSound | content.js:160-181 | a character that finds an entry is that entry's key |
| SuperscriptTable.GlyphIndexSound | content.js:160-181 | a character that finds an entry is that entry's glyph |
| SuperscriptTable.TabulateSpec | content.js:184-187 | a map built entry by entry has exactly the entries' keys, and each key holds the value of its last entry |
| SuperscriptTable.Forward | content.js:160-181 | the forward map holds exactly the keys, each mapped to the glyph written next to it |
| SuperscriptTable.Inverse | content.js:184-187 | the inverse map holds exactly the glyphs, each mapped to the key of the last entry that has it |
| SuperscriptTable.ForwardAt | content.js:160-181 | every key is raised to its own glyph |
| SuperscriptTable.InverseAt | content.js:184-187 | every glyph is lowered to its key, except that `ˢ` is lowered to `s` |
| SuperscriptTable.KeysAreNotGlyphs | content.js:160-181 | no key is also a glyph |
| SuperscriptTable.RaiseThenLower | content.js:169-187 | raising a key gives a glyph that is not a key, and lowering it gives the key back, except that `S` comes back as `s` |
| SuperscriptTable.LowerThenRaise | content.js:184-187 | lowering a glyph gives a key that is not a glyph, and raising it gives the glyph back |
| Superscript.TablesAreCodec | content.js:160-187 | the superscript tables have the facts the toggle relies on |
| Superscript.MapChars | content.js:195 | mapping keeps the length and looks up each character, copying it when the table lacks it |
| Superscript.AllSuperscriptIffNoKey | content.js:189-191 | the decode test holds exactly when no character is a plain key |
| Superscript.ToggleWith | content.js:158-200 | the empty string becomes `²`; otherwise the length is kept, unknown characters are copied, and every character is lowered or every character is raised |
| Superscript.ToggleSuperscript | content.js:158-200 | a string with a plain key is raised, a non-empty one without is lowered, the empty one becomes `²`, the length is kept and unknown characters are copied |
| Superscript.RaisedHasNoKey | content.js:198 | raising leaves no plain key behind |
| Superscript.RoundTripPlainWith | content.js:189-199 | for any codec, a glyph-free string with a key survives two toggles exactly when it has no `S` |
| Superscript.RoundTripSuperscriptWith | content.js:189-199 | for any codec, a non-empty string without keys survives two toggles |
| Superscript.RoundTripPlainIff | content.js:169-199 | a glyph-free string with a plain key survives two toggles exactly when it has no `S` |
| Superscript.RoundTripSuperscript | content.js:189-199 | a non-empty string with no plain key survives two toggles |
| SuperscriptExamples.EmptyBecomesTwo | content.js:159 | the empty selection becomes `²` |
| SuperscriptExamples.SuperscriptTwoLowers | content.js:193-195 | `²` is lowered to `2` |
| SuperscriptExamples.TwoRaises | content.js:196-198 | `2` is raised to `²` |
| SuperscriptExamples.MixedInputRaises | content.js:189-198 | `a1!` is raised to `ᵃ¹!`, and `!` is copied |
| SuperscriptExamples.GlyphBesidePlainKeyStays | content.js:189-198 | `x²` is raised to `ˣ²`, and the glyph is kept |
| SuperscriptExamples.EmptyComesBackAsTwo | content.js:159-195 | toggling the empty string twice gives `2`, not the empty string |
| SuperscriptExamples.GlyphsLower | content.js:189-195 | `ˣ²` holds no plain key and is lowered to `x2` |
| SuperscriptExamples.MixedInputComesBackPlain | content.js:189-198 | toggling `x²` twice gives `x2`, not `x²` |
| SuperscriptExamples.CapitalSComesBackSmall | content.js:169-187 | `S` and `s` both raise to `ˢ`, and toggling `S` twice gives `s` |
| Selection.WrapStyle | content.js:48-69 | the bold, italic and strikethrough buttons wrap with a style, and only the superscript button does not |
| Selection.WrapSelection | content.js:107-123 | the new text is the selection with the symbol on both sides, and the new selection is exactly the old selected text |
| Selection.SuperscriptSelection | content.js:135-156 | the new text is the toggled selection, all of it selected |
| Selection.Press | content.js:48-69 | every button's edit leaves a selection inside its new text |
| Selection.Apply | content.js:112-122 | the edit's text replaces the selection, the text around it is kept, and the edit's span is selected |
| Selection.PressOn | content.js:86-91 | pressing a button leaves a valid selection |
| Selection.WrapKeepsSelection | content.js:107-123 | a wrapping button puts its symbol around the selection, changes nothing else, and keeps the same text selected |
| Selection.WrapTwice | content.js:107-123 | pressing a wrapping button twice puts two symbols on each side, and the original text is still selected |
| Selection.WrapEmpty | content.js:112-119 | wrapping an empty selection inserts the two symbols with an empty selection between them |
| Selection.SuperscriptTwice | content.js:135-199 | pressing the superscript button twice restores the draft and selection wherever the toggle's round trip holds |
| Selection.ReplaceTwice | content.js:146-152 | replacing the selection with a fully selected text, then replacing that with the first selected text, restores the draft |
| Selection.WrappedTextRendersStyled | content.js:48-132 | what a wrapping button inserts previews as exactly one span of that button's style around the selection, when the selection is non-empty, single-line and free of `*`, `_`, `-`, and, for strikethrough, of `>`; without these conditions it need not, as `PreviewExamples.BoldClosesAtNearestDelimiter` shows for bold on `a*b` |

## Left out

- The MutationObserver that finds comment boxes (content.js:1-19) is left out. It is event-driven DOM plumbing.
- Building the comment box, its buttons and its event listeners (content.js:22-104) is left out. It is DOM construction. The button bindings and the preview hide rule are modelled.
- `elementContainsSelection` (content.js:203-214) is left out. It depends on browser range semantics. `Selection.PressOn` assumes that the selection is inside the comment box.
- Calls to `window.getSelection`, `Range` and `createTextNode` are left out. Only the resulting text and offsets are modelled. A selection is a span of character offsets into the comment text.
- The general regular-expression engine is left out. Only the three lazy scans are modelled.
- HTML parsing and escaping of `innerHTML` are left out. The content is treated as a plain character sequence.
- Text.IsSpaceSeparator: the space separators are fixed to the Unicode general category Zs of current browsers. They are not derived from a Unicode database.
- UTF-16 code units are left out. Offsets and regular-expression positions are counted in code points. The delimiters are ASCII, and each offset is counted in the same units as the text it indexes. So the matches and the selected text come out the same. Lone surrogates cannot be represented.
- Selection.PressOn: the preview refresh after a button press (content.js:90) is not part of the returned draft. The preview is given separately by `Markup.FormatText`.
