/** The keystroke engine of the challenge page's code editor (`CodeEditor.handleKeyDown`):
    a pure function from the text, the selection `[start, end)` and the pressed key to
    either "let the browser handle the key" or a new text with a new selection. */
module CodeEditor {
  import opened Wrappers
  import opened Strings

  /** The keys the handler distinguishes; `Typed(c)` is any key whose `key` value is one character. */
  datatype Key = Tab | Enter | Backspace | Typed(c: char) | OtherKey

  /** `Default`: the handler did not call `preventDefault`. `Edit`: the text and selection
      the handler installs (the selection being set after the re-render). */
  datatype KeyResult = Default | Edit(text: string, selStart: nat, selEnd: nat)

  /** The editor as the user sees it: its text and its selection. */
  datatype EditorState = EditorState(text: string, selStart: nat, selEnd: nat) {
    predicate Valid() {
      selStart <= selEnd <= |text|
    }
  }

  /** `closingPairs`: the character auto-inserted after each opener. */
  function ClosingFor(c: char): Option<char> {
    if c == '(' then Some(')')
    else if c == '[' then Some(']')
    else if c == '{' then Some('}')
    else if c == '"' then Some('"')
    else if c == '\'' then Some('\'')
    else if c == '`' then Some('`')
    else None
  }

  /** The keys listed for skipping over an existing closer. */
  predicate IsSkipKey(c: char) {
    c == ')' || c == ']' || c == '}' || c == '"' || c == '\'' || c == '`'
  }

  predicate IsQuote(c: char) {
    c == '"' || c == '\'' || c == '`'
  }

  predicate IsOpenBracket(c: char) {
    c == '{' || c == '[' || c == '('
  }

  predicate IsCloseBracket(c: char) {
    c == ')' || c == ']' || c == '}'
  }

  /** `text.charAt(i)`: the empty string (here `None`) outside the text. */
  function CharAt(text: string, i: int): Option<char> {
    if 0 <= i < |text| then Some(text[i]) else None
  }

  /** Leading whitespace of the line the cursor is on. */
  function CurrentIndent(text: string, start: nat): string
    requires start <= |text|
  {
    LeadingSpace(LastPiece(text[..start], '\n'))
  }

  /** Enter between an opening bracket and a closing bracket (not necessarily its partner). */
  predicate NeedsExtraIndent(text: string, start: nat) {
    var before := CharAt(text, start - 1);
    var after := CharAt(text, start);
    before.Some? && IsOpenBracket(before.value) && after.Some? && IsCloseBracket(after.value)
  }

  /** Backspace with no selection between an opener and its own closer. */
  predicate DeletesPair(text: string, start: nat, end: nat) {
    var before := CharAt(text, start - 1);
    var after := CharAt(text, start);
    start == end && before.Some? && after.Some? && ClosingFor(before.value) == Some(after.value)
  }

  function EnterEdit(text: string, start: nat, end: nat): (r: KeyResult)
    requires start <= end <= |text|
  {
    var indent := CurrentIndent(text, start);
    if NeedsExtraIndent(text, start) then
      Edit(text[..start] + "\n" + indent + "  " + "\n" + indent + text[end..], start + |indent| + 3, start + |indent| + 3)
    else
      Edit(text[..start] + "\n" + indent + text[end..], start + |indent| + 1, start + |indent| + 1)
  }

  /** An opener typed: wrap the selection, or insert the pair around the cursor. */
  function PairEdit(text: string, start: nat, end: nat, c: char, closing: char): (r: KeyResult)
    requires start <= end <= |text|
  {
    if start != end then
      Edit(text[..start] + [c] + text[start..end] + [closing] + text[end..], start + 1, end + 1)
    else
      Edit(text[..start] + [c] + [closing] + text[end..], start + 1, start + 1)
  }

  /** `handleKeyDown`, branch by branch in the order the source tests them. */
  function HandleKeyDown(text: string, start: nat, end: nat, key: Key): (r: KeyResult)
    requires start <= end <= |text|
    ensures r.Edit? ==> r.selStart <= r.selEnd <= |r.text|
    ensures r.Default? <==>
      || key.OtherKey?
      || (key.Backspace? && !DeletesPair(text, start, end))
      || (key.Typed? && ClosingFor(key.c).None? && !(IsSkipKey(key.c) && CharAt(text, start) == Some(key.c)))
  {
    match key
    case Tab =>
      Edit(text[..start] + "  " + text[end..], start + 2, start + 2)
    case Typed(c) =>
      if ClosingFor(c).Some? then
        PairEdit(text, start, end, c, ClosingFor(c).value)
      else if IsSkipKey(c) && CharAt(text, start) == Some(c) then
        Edit(text, start + 1, start + 1)
      else
        Default
    case Enter =>
      EnterEdit(text, start, end)
    case Backspace =>
      if DeletesPair(text, start, end) then
        Edit(text[..start - 1] + text[start + 1..], start - 1, start - 1)
      else
        Default
    case OtherKey =>
      Default
  }

  /** What the browser does with a key nobody prevented: a typed character replaces the
      selection; Backspace deletes the selection, or the character before the cursor.
      Tab and Enter never get here (the handler always claims them); other named keys
      leave the state as it is. */
  function BrowserDefault(s: EditorState, key: Key): (r: EditorState)
    requires s.Valid()
    ensures r.Valid()
  {
    match key
    case Typed(c) =>
      EditorState(s.text[..s.selStart] + [c] + s.text[s.selEnd..], s.selStart + 1, s.selStart + 1)
    case Backspace =>
      if s.selStart != s.selEnd then
        EditorState(s.text[..s.selStart] + s.text[s.selEnd..], s.selStart, s.selStart)
      else if s.selStart > 0 then
        EditorState(s.text[..s.selStart - 1] + s.text[s.selStart..], s.selStart - 1, s.selStart - 1)
      else s
    case _ => s
  }

  function Apply(s: EditorState, key: Key, r: KeyResult): (t: EditorState)
    requires s.Valid()
    requires r.Edit? ==> r.selStart <= r.selEnd <= |r.text|
    ensures t.Valid()
  {
    match r
    case Default => BrowserDefault(s, key)
    case Edit(text, a, b) => EditorState(text, a, b)
  }

  /** One key press on the editor: the handler's edit, or the browser default. */
  function Press(s: EditorState, key: Key): (t: EditorState)
    requires s.Valid()
    ensures t.Valid()
  {
    Apply(s, key, HandleKeyDown(s.text, s.selStart, s.selEnd, key))
  }

  /** Number of line-number rows shown: `Math.max(value.split('\n').length, 20)`. */
  function LineCount(text: string): (r: nat)
    ensures r == if Count(text, '\n') + 1 > 20 then Count(text, '\n') + 1 else 20
  {
    SplitLength(text, '\n');
    var lines := |Split(text, '\n')|;
    if lines > 20 then lines else 20
  }

  /** Tab replaces the selection by two spaces and puts the cursor after them. */
  lemma TabInsertsTwoSpaces(text: string, start: nat, end: nat)
    requires start <= end <= |text|
    ensures var r := HandleKeyDown(text, start, end, Tab);
      && r.Edit? && r.selStart == r.selEnd == start + 2
      && r.text[..r.selStart] == text[..start] + "  "
      && r.text[r.selStart..] == text[end..]
  {
    var r := HandleKeyDown(text, start, end, Tab);
    assert r.text == (text[..start] + "  ") + text[end..];
  }

  /** An opener typed with no selection inserts it and its closer, the cursor between them. */
  lemma OpenerInsertsPair(text: string, start: nat, c: char)
    requires start <= |text|
    requires ClosingFor(c).Some?
    ensures var r := HandleKeyDown(text, start, start, Typed(c));
      && r.Edit? && |r.text| == |text| + 2
      && r.selStart == r.selEnd == start + 1
      && r.text[..start] == text[..start]
      && r.text[start] == c && r.text[start + 1] == ClosingFor(c).value
      && r.text[start + 2..] == text[start..]
  {
    var r := HandleKeyDown(text, start, start, Typed(c));
    assert r.text == text[..start] + ([c] + [ClosingFor(c).value]) + text[start..];
  }

  /** An opener typed over a selection wraps it; the selection still covers the same text. */
  lemma OpenerWrapsSelection(text: string, start: nat, end: nat, c: char)
    requires start < end <= |text|
    requires ClosingFor(c).Some?
    ensures var r := HandleKeyDown(text, start, end, Typed(c));
      && r.Edit? && r.selStart == start + 1 && r.selEnd == end + 1
      && r.text[r.selStart..r.selEnd] == text[start..end]
      && r.text[..start] == text[..start]
      && r.text[start] == c && r.text[end + 1] == ClosingFor(c).value
      && r.text[end + 2..] == text[end..]
  {
    var r := HandleKeyDown(text, start, end, Typed(c));
    var closing := ClosingFor(c).value;
    assert r.text == text[..start] + [c] + text[start..end] + [closing] + text[end..];
    assert r.text[start + 1..end + 1] == text[start..end];
    assert r.text[end + 2..] == text[end..];
  }

  /** A typed key leaves the text alone and only moves the cursor exactly when it is one of
      `) ] }` and the same character follows the cursor: quotes never skip. */
  lemma SkipOverIff(text: string, start: nat, end: nat, c: char)
    requires start <= end <= |text|
    ensures HandleKeyDown(text, start, end, Typed(c)) == Edit(text, start + 1, start + 1)
        <==> IsCloseBracket(c) && start < |text| && text[start] == c
  {
    var r := HandleKeyDown(text, start, end, Typed(c));
    if ClosingFor(c).Some? {
      assert |r.text| == |text| + 2;
    }
  }

  /** The current indentation is whitespace without a line break. */
  lemma IndentIsBlank(text: string, start: nat)
    requires start <= |text|
    ensures IsBlank(CurrentIndent(text, start)) && '\n' !in CurrentIndent(text, start)
  {
    var line := LastPiece(text[..start], '\n');
    LastPieceIsSuffix(text[..start], '\n');
    assert CurrentIndent(text, start) <= line;
  }

  /** Right after a line break and a blank indentation, that indentation is the current one. */
  lemma IndentAfterBreak(prefix: string, indent: string, suffix: string)
    requires IsBlank(indent) && '\n' !in indent
    ensures var t := prefix + "\n" + indent + suffix;
      var p := |prefix| + 1 + |indent|;
      && t[..p] == prefix + "\n" + indent
      && LastPiece(t[..p], '\n') == indent
      && CurrentIndent(t, p) == indent
  {
    var t := prefix + "\n" + indent + suffix;
    var p := |prefix| + 1 + |indent|;
    assert t[..p] == prefix + ['\n'] + indent;
    LastPieceAfterSeparator(prefix, indent, '\n');
    LeadingSpaceOfBlank(indent);
  }

  /** Enter opens a new line indented like the current one, keeping the text on both sides. */
  lemma EnterKeepsIndent(text: string, start: nat, end: nat)
    requires start <= end <= |text|
    requires !NeedsExtraIndent(text, start)
    ensures var r := HandleKeyDown(text, start, end, Enter);
      var indent := CurrentIndent(text, start);
      && r.Edit? && r.selStart == r.selEnd == start + |indent| + 1
      && r.text[..start] == text[..start]
      && r.text[r.selStart..] == text[end..]
      && LastPiece(r.text[..r.selStart], '\n') == indent
      && CurrentIndent(r.text, r.selStart) == indent
  {
    var indent := CurrentIndent(text, start);
    IndentIsBlank(text, start);
    IndentAfterBreak(text[..start], indent, text[end..]);
  }

  /** Enter between brackets puts the cursor on an extra-indented blank line and moves the
      closing side to its own line with the original indentation. */
  lemma EnterBetweenBrackets(text: string, start: nat, end: nat)
    requires start <= end <= |text|
    requires NeedsExtraIndent(text, start)
    ensures var r := HandleKeyDown(text, start, end, Enter);
      var indent := CurrentIndent(text, start);
      && r.Edit? && r.selStart == r.selEnd == start + |indent| + 3
      && r.text[..start] == text[..start]
      && r.text[r.selStart..] == "\n" + indent + text[end..]
      && LastPiece(r.text[..r.selStart], '\n') == indent + "  "
      && CurrentIndent(r.text, r.selStart) == indent + "  "
  {
    var indent := CurrentIndent(text, start);
    IndentIsBlank(text, start);
    var deeper := indent + "  ";
    assert IsBlank(deeper) by {
      forall i | 0 <= i < |deeper| ensures IsSpace(deeper[i]) {
        if i >= |indent| {
          assert deeper[i] == ' ';
        }
      }
    }
    assert text[..start] + "\n" + indent + "  " + "\n" + indent + text[end..]
        == text[..start] + "\n" + deeper + ("\n" + indent + text[end..]);
    IndentAfterBreak(text[..start], deeper, "\n" + indent + text[end..]);
  }

  /** A string made only of whitespace is its own leading whitespace. */
  lemma {:induction false} LeadingSpaceOfBlank(s: string)
    requires IsBlank(s)
    ensures LeadingSpace(s) == s
  {
    if |s| > 0 {
      LeadingSpaceOfBlank(s[1..]);
    }
  }

  /** Backspace deletes two characters exactly between an opener and its own closer. */
  lemma BackspaceDeletesPairIff(text: string, start: nat, end: nat)
    requires start <= end <= |text|
    ensures HandleKeyDown(text, start, end, Backspace).Edit?
        <==> start == end && 0 < start < |text| && ClosingFor(text[start - 1]) == Some(text[start])
    ensures HandleKeyDown(text, start, end, Backspace).Edit? ==>
        HandleKeyDown(text, start, end, Backspace) == Edit(text[..start - 1] + text[start + 1..], start - 1, start - 1)
  {
  }

  /** Backspace right after auto-inserting a pair removes the pair: the editor is back where it was. */
  lemma {:induction false} BackspaceUndoesPair(s: EditorState, c: char)
    requires s.Valid() && s.selStart == s.selEnd
    requires ClosingFor(c).Some?
    ensures Press(Press(s, Typed(c)), Backspace) == s
  {
    var t := Press(s, Typed(c));
    OpenerInsertsPair(s.text, s.selStart, c);
    assert t.text[t.selStart - 1] == c && t.text[t.selStart] == ClosingFor(c).value;
    var u := Press(t, Backspace);
    assert u.text == t.text[..s.selStart] + t.text[s.selStart + 2..];
    assert u.text == s.text[..s.selStart] + s.text[s.selStart..];
    assert s.text == s.text[..s.selStart] + s.text[s.selStart..];
  }

  /** Auto-closing brackets is invisible: typing `(` then `)` (likewise `[]`, `{}`) ends with
      exactly the text and cursor that plain typing of both characters gives. */
  lemma {:induction false} BracketPairTransparent(s: EditorState, c: char)
    requires s.Valid() && s.selStart == s.selEnd
    requires IsOpenBracket(c)
    ensures Press(Press(s, Typed(c)), Typed(ClosingFor(c).value))
        == BrowserDefault(BrowserDefault(s, Typed(c)), Typed(ClosingFor(c).value))
  {
    var closing := ClosingFor(c).value;
    OpenerInsertsPair(s.text, s.selStart, c);
    var t := Press(s, Typed(c));
    assert ClosingFor(closing).None? && IsSkipKey(closing);
    assert CharAt(t.text, t.selStart) == Some(closing);
    var plain := BrowserDefault(BrowserDefault(s, Typed(c)), Typed(closing));
    assert plain.text == s.text[..s.selStart] + [c] + [closing] + s.text[s.selStart..];
  }

  /** Typing a quote right before the same quote inserts a second pair instead of stepping
      over the closer: `""` typed into an empty editor leaves four quotes. */
  lemma QuoteDoublesAsWritten()
    ensures var s := EditorState("", 0, 0);
      && Press(Press(s, Typed('"')), Typed('"')) == EditorState("\"\"\"\"", 2, 2)
      && BrowserDefault(BrowserDefault(s, Typed('"')), Typed('"')) == EditorState("\"\"", 2, 2)
      && PressFixed(PressFixed(s, Typed('"')), Typed('"')) == EditorState("\"\"", 2, 2)
  {
    var s := EditorState("", 0, 0);
    var t := Press(s, Typed('"'));
    assert t == EditorState("\"\"", 1, 1);
    assert Press(t, Typed('"')).text == "\"" + "\"" + "\"" + "\"";
    assert PressFixed(s, Typed('"')) == t;
    assert CharAt(t.text, 1) == Some('"');
  }

  /** The handler with the skip-over reaching quotes as well: a quote typed with no selection
      right before the same quote only moves the cursor. Every other case is as written. */
  function HandleKeyDownFixed(text: string, start: nat, end: nat, key: Key): (r: KeyResult)
    requires start <= end <= |text|
    ensures r.Edit? ==> r.selStart <= r.selEnd <= |r.text|
  {
    if key.Typed? && IsQuote(key.c) && start == end && CharAt(text, start) == Some(key.c) then
      Edit(text, start + 1, start + 1)
    else
      HandleKeyDown(text, start, end, key)
  }

  /** With the correction, a typed key only moves the cursor exactly when it is one of the
      six closers listed for skipping, the same character follows the cursor, and (for a
      quote) nothing is selected. */
  lemma SkipOverIffFixed(text: string, start: nat, end: nat, c: char)
    requires start <= end <= |text|
    ensures HandleKeyDownFixed(text, start, end, Typed(c)) == Edit(text, start + 1, start + 1)
        <==> IsSkipKey(c) && start < |text| && text[start] == c && (IsCloseBracket(c) || start == end)
  {
    SkipOverIff(text, start, end, c);
    var r := HandleKeyDownFixed(text, start, end, Typed(c));
    if ClosingFor(c).Some? && !(IsQuote(c) && start == end && CharAt(text, start) == Some(c)) {
      assert |r.text| == |text| + 2;
    }
  }

  function PressFixed(s: EditorState, key: Key): (t: EditorState)
    requires s.Valid()
    ensures t.Valid()
  {
    Apply(s, key, HandleKeyDownFixed(s.text, s.selStart, s.selEnd, key))
  }

  /** With the correction, auto-closing is invisible for all six openers, quotes included
      (a quote typed right before the same quote is the skip-over case, not a pair). */
  lemma {:induction false} PairTransparentFixed(s: EditorState, c: char)
    requires s.Valid() && s.selStart == s.selEnd
    requires ClosingFor(c).Some?
    requires IsQuote(c) ==> CharAt(s.text, s.selStart) != Some(c)
    ensures PressFixed(PressFixed(s, Typed(c)), Typed(ClosingFor(c).value))
        == BrowserDefault(BrowserDefault(s, Typed(c)), Typed(ClosingFor(c).value))
  {
    var closing := ClosingFor(c).value;
    var t := PressFixed(s, Typed(c));
    OpenerInsertsPair(s.text, s.selStart, c);
    assert t == Press(s, Typed(c));
    assert CharAt(t.text, t.selStart) == Some(closing);
    var plain := BrowserDefault(BrowserDefault(s, Typed(c)), Typed(closing));
    assert plain.text == s.text[..s.selStart] + [c] + [closing] + s.text[s.selStart..];
  }
}
