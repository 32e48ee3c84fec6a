/** Markdown slash commands in the editor: on Enter, a line whose text
    before the caret trims to a `/` command is replaced by its expansion. */
module SlashCommands {
  import opened JsObject
  import opened JsString
  import opened TextArea

  /** `value.lastIndexOf("\n", cursor - 1) + 1`: where the caret's line begins. */
  function LineStart(value: string, cursor: nat): (s: nat)
    ensures s <= |value|
    ensures s == 0 || value[s - 1] == '\n'
    ensures 0 < cursor ==> s <= cursor
    ensures forall k :: s <= k < cursor && k < |value| ==> value[k] != '\n'
    ensures cursor == 0 ==> s == (if value != [] && value[0] == '\n' then 1 else 0)
  {
    LastIndexOf(value, '\n', cursor - 1) + 1
  }

  /** With the caret at offset 0, `lastIndexOf` clamps the start -1 to 0, so
      a text that opens with a line break puts the line start after the caret. */
  lemma LineStartPastCaret(value: string)
    requires value != [] && value[0] == '\n'
    ensures LineStart(value, 0) == 1
  {
  }

  /** `value.slice(lineStart, cursor).trim()`: the text the Enter handler inspects. */
  function CurrentLine(value: string, cursor: nat): (line: string)
    requires cursor <= |value|
    ensures '\n' !in line
  {
    Trim(Slice(value, LineStart(value, cursor), cursor))
  }

  /** `line.startsWith("/")` */
  predicate IsSlashLine(line: string): (b: bool)
    ensures b <==> line != [] && line[0] == '/'
  {
    StartsWith(line, "/")
  }

  /** A slash line always spans at least one character before the caret,
      so `replaceLine` never starts past the caret. */
  lemma SlashLineSpansText(value: string, cursor: nat)
    requires cursor <= |value|
    ensures IsSlashLine(CurrentLine(value, cursor)) ==> LineStart(value, cursor) < cursor
  {
    if LineStart(value, cursor) >= cursor {
      assert Slice(value, LineStart(value, cursor), cursor) == [];
    }
  }

  /** The inspected line is a slash line exactly when, on the caret's line and
      before the caret, the first character other than white space is `/`. */
  lemma SlashLineIff(value: string, cursor: nat)
    requires cursor <= |value|
    ensures IsSlashLine(CurrentLine(value, cursor)) <==> OpensWith(value, '/', LineStart(value, cursor), cursor)
  {
    var s := LineStart(value, cursor);
    var seg := Slice(value, s, cursor);
    TrimmedStartsWith(seg, '/');
    if s < cursor {
      OpensWithSlice(value, '/', s, cursor);
    } else {
      assert seg == [];
    }
  }

  const TodoText: string := "- [ ] "
  const HeadingText: string := "## "
  const CodeText: string := "```js\n\n```"

  /** The `switch` of the Enter handler: the expansion of each command, the
      locale's date string for `/date`, and none for any other line. */
  function Expansion(line: string, date: string): (r: Option<string>)
    ensures line == "/date" ==> r == Some(date)
  {
    if line == "/todo" then Some(TodoText)
    else if line == "/date" then Some(date)
    else if line == "/heading" then Some(HeadingText)
    else if line == "/code" then Some(CodeText)
    else None
  }

  /** The commands the switch knows are exactly these four. */
  lemma KnownCommands(line: string, date: string)
    ensures Expansion(line, date).Some? <==> line in ["/todo", "/date", "/heading", "/code"]
  {
  }

  /** `value.slice(0, start) + text + value.slice(end)` */
  function Splice(value: string, start: nat, end: nat, text: string): (r: string)
    requires start <= |value| && end <= |value|
    ensures |r| == start + |text| + (|value| - end)
    ensures r[..start] == value[..start]
    ensures r[start..start + |text|] == text
    ensures r[start + |text|..] == value[end..]
  {
    value[..start] + text + value[end..]
  }

  /** `replaceLine(text)`: replace the caret's line up to the caret by `text`
      and put the caret right after it. */
  method ReplaceLine(editor: Editor, text: string)
    requires editor.Valid()
    modifies editor
    ensures editor.Valid()
    ensures var s := LineStart(old(editor.value), old(editor.selectionStart));
            && editor.value == Splice(old(editor.value), s, old(editor.selectionStart), text)
            && editor.selectionStart == s + |text| && editor.selectionEnd == s + |text|
  {
    var start := LineStart(editor.value, editor.selectionStart);
    var end := editor.selectionStart;
    editor.SetValue(Splice(editor.value, start, end, text));
    editor.SetSelectionRange(start + |text|, start + |text|);
  }

  /** The editor's `keydown` handler; returns whether it called
      `preventDefault`, which keeps the browser from inserting the line break.
      Every slash line suppresses the line break, whether or not the switch
      knows its command; only a known command rewrites the text. */
  method OnKeyDown(editor: Editor, key: string, date: string) returns (prevented: bool)
    requires editor.Valid()
    modifies editor
    ensures editor.Valid()
    ensures prevented <==>
              key == "Enter" && IsSlashLine(CurrentLine(old(editor.value), old(editor.selectionStart)))
    ensures var line := CurrentLine(old(editor.value), old(editor.selectionStart));
            !prevented || Expansion(line, date).None? ==>
              && editor.value == old(editor.value)
              && editor.selectionStart == old(editor.selectionStart)
              && editor.selectionEnd == old(editor.selectionEnd)
    ensures var line := CurrentLine(old(editor.value), old(editor.selectionStart));
            var s := LineStart(old(editor.value), old(editor.selectionStart));
            prevented && Expansion(line, date).Some? ==>
              && s < old(editor.selectionStart)
              && editor.value == Splice(old(editor.value), s, old(editor.selectionStart), Expansion(line, date).value)
              && editor.selectionStart == s + |Expansion(line, date).value|
              && editor.selectionEnd == editor.selectionStart
  {
    if key != "Enter" {
      return false;
    }
    var lineStart := LineStart(editor.value, editor.selectionStart);
    var line := Trim(Slice(editor.value, lineStart, editor.selectionStart));
    if !IsSlashLine(line) {
      return false;
    }
    SlashLineSpansText(editor.value, editor.selectionStart);
    prevented := true;
    if line == "/todo" {
      ReplaceLine(editor, TodoText);
    } else if line == "/date" {
      ReplaceLine(editor, date);
    } else if line == "/heading" {
      ReplaceLine(editor, HeadingText);
    } else if line == "/code" {
      ReplaceLine(editor, CodeText);
    }
  }

  /** The part of `text` after its last line break. */
  function LastLine(text: string): (r: string)
    ensures '\n' !in r
    ensures |r| <= |text| && r == text[|text| - |r|..]
    ensures |r| < |text| ==> text[|text| - |r| - 1] == '\n'
  {
    var j := LastIndexBelow(text, '\n', |text|);
    text[j + 1..]
  }

  /** When `text` sits in `w` right after a line start `s`, the last line
      break before its end is its own last one, or the one ending at `s`. */
  lemma LastBreakInText(w: string, s: nat, text: string)
    requires s + |text| <= |w| && w[s..s + |text|] == text
    requires s == 0 || w[s - 1] == '\n'
    ensures var j := LastIndexBelow(text, '\n', |text|);
            LastIndexBelow(w, '\n', s + |text|) == if j >= 0 then s + j else s - 1
  {
    var n := s + |text|;
    var j := LastIndexBelow(text, '\n', |text|);
    var target := if j >= 0 then s + j else s - 1;
    if j >= 0 {
      assert w[target] == text[j];
    }
    forall k | target < k < n
      ensures w[k] != '\n'
    {
      if s <= k {
        assert w[k] == text[k - s];
      }
    }
    LastIndexBelowIs(w, '\n', n, target);
  }

  /** With `text` right after a line start in `w`, the line of offset
      `s + |text|` begins after the last line break of `text`, or at `s`. */
  lemma LineStartAfterText(w: string, s: nat, text: string)
    requires s + |text| <= |w| && w[s..s + |text|] == text
    requires s == 0 || w[s - 1] == '\n'
    requires text != []
    ensures LineStart(w, s + |text|) == s + |text| - |LastLine(text)|
  {
    LastBreakInText(w, s, text);
  }

  /** After a splice at a line start, the caret's line begins after the last
      line break of the inserted text, or where the splice began when the
      text has none. */
  lemma SplicedLineStart(value: string, s: nat, e: nat, text: string)
    requires s <= e <= |value|
    requires s == 0 || value[s - 1] == '\n'
    requires text != []
    ensures LineStart(Splice(value, s, e, text), s + |text|) == s + |text| - |LastLine(text)|
  {
    var w := Splice(value, s, e, text);
    if s > 0 {
      assert w[s - 1] == w[..s][s - 1];
    }
    LineStartAfterText(w, s, text);
  }

  /** After a splice at a line start, the text between the caret's line
      start and the caret is the last line of the inserted text. */
  lemma SplicedLineText(value: string, s: nat, e: nat, text: string)
    requires s <= e <= |value|
    requires s == 0 || value[s - 1] == '\n'
    requires text != []
    ensures var w := Splice(value, s, e, text);
            Slice(w, LineStart(w, s + |text|), s + |text|) == LastLine(text)
  {
    var w := Splice(value, s, e, text);
    SplicedLineStart(value, s, e, text);
    var m := |text| - |LastLine(text)|;
    SliceOfSlice(w, s, s + |text|, m);
    assert w[s..s + |text|] == text;
    assert text[m..] == LastLine(text);
  }

  /** A slice that begins `m` into an embedded copy of `t` is `t[m..]`. */
  lemma SliceOfSlice(w: string, a: nat, b: nat, m: nat)
    requires a + m <= b <= |w|
    ensures Slice(w, a + m, b) == w[a..b][m..]
  {
    if a + m < b {
      assert w[a + m..b] == w[a..b][m..];
    }
  }

  /** After a splice at a line start, the inspected line is the trimmed last
      line of the inserted text. */
  lemma SplicedCurrentLine(value: string, s: nat, e: nat, text: string)
    requires s <= e <= |value|
    requires s == 0 || value[s - 1] == '\n'
    requires text != []
    ensures CurrentLine(Splice(value, s, e, text), s + |text|) == Trim(LastLine(text))
  {
    SplicedLineText(value, s, e, text);
  }

  /** A line whose first character is neither white space nor `/` is not a
      slash line once trimmed. */
  lemma NotSlashLine(x: string)
    requires x != [] && !IsSpace(x[0]) && x[0] != '/'
    ensures !IsSlashLine(Trim(x))
  {
    TrimmedStartsWith(x, '/');
  }

  /** Every expansion inserts some text, and its last line is not a slash
      line (for `/date`, provided the date string has the same property). */
  lemma ExpansionEndsPlain(line: string, date: string)
    requires Expansion(line, date).Some?
    requires line == "/date" ==> date != [] && !IsSlashLine(Trim(LastLine(date)))
    ensures Expansion(line, date).value != []
    ensures !IsSlashLine(Trim(LastLine(Expansion(line, date).value)))
  {
    if line == "/todo" {
      assert |TodoText| == 6;
      assert LastLine(TodoText) == TodoText;
      NotSlashLine(TodoText);
    } else if line == "/heading" {
      assert |HeadingText| == 3;
      assert LastLine(HeadingText) == HeadingText;
      NotSlashLine(HeadingText);
    } else if line == "/code" {
      LastIndexBelowIs(CodeText, '\n', |CodeText|, 6);
      assert LastLine(CodeText)[0] == '`';
      NotSlashLine(LastLine(CodeText));
    }
  }

  /** Expansions do not chain: once the caret's line has been replaced by a
      text whose last line is not a slash line (every expansion, by
      `ExpansionEndsPlain`), the next Enter is not intercepted and inserts
      its line break. */
  lemma ExpansionIsFinal(value: string, cursor: nat, text: string)
    requires cursor <= |value| && LineStart(value, cursor) < cursor
    requires text != [] && !IsSlashLine(Trim(LastLine(text)))
    ensures var s := LineStart(value, cursor);
            !IsSlashLine(CurrentLine(Splice(value, s, cursor, text), s + |text|))
  {
    SplicedCurrentLine(value, LineStart(value, cursor), cursor, text);
  }

  /** Two presses of Enter: when the first expands a command, the second is
      not intercepted, provided the date string is not empty and its last
      line is not a slash line. */
  method EnterTwice(editor: Editor, date: string) returns (first: bool, second: bool)
    requires editor.Valid()
    requires date != [] && !IsSlashLine(Trim(LastLine(date)))
    modifies editor
    ensures first && Expansion(CurrentLine(old(editor.value), old(editor.selectionStart)), date).Some? ==> !second
  {
    ghost var value, cursor := editor.value, editor.selectionStart;
    ghost var line := CurrentLine(value, cursor);
    first := OnKeyDown(editor, "Enter", date);
    if first && Expansion(line, date).Some? {
      ghost var text := Expansion(line, date).value;
      ExpansionEndsPlain(line, date);
      ExpansionIsFinal(value, cursor, text);
      assert !IsSlashLine(CurrentLine(editor.value, editor.selectionStart));
    }
    second := OnKeyDown(editor, "Enter", date);
  }

  /** `/todo` typed on an empty first line, then Enter: the line becomes
      the checkbox and the caret lands after it. */
  method TodoExample() returns (prevented: bool, value: string, caret: nat)
    ensures prevented && value == TodoText && caret == 6
  {
    var editor := new Editor();
    editor.SetValue("/todo");
    LineOfWholeText(editor.value);
    prevented := OnKeyDown(editor, "Enter", "");
    value := editor.value;
    caret := editor.selectionStart;
  }

  /** An unknown command still suppresses the line break, and the text stays
      as it is. */
  method UnknownCommandExample() returns (prevented: bool, value: string)
    ensures prevented && value == "/unknown"
  {
    var editor := new Editor();
    editor.SetValue("/unknown");
    LineOfWholeText(editor.value);
    prevented := OnKeyDown(editor, "Enter", "");
    value := editor.value;
  }

  /** A single line with no white space at either end, caret at its end, is
      the inspected line. */
  lemma LineOfWholeText(value: string)
    requires value != [] && !IsSpace(value[0]) && !IsSpace(value[|value| - 1])
    requires forall k :: 0 <= k < |value| ==> value[k] != '\n'
    ensures LineStart(value, |value|) == 0
    ensures CurrentLine(value, |value|) == value
  {
    LastIndexBelowIs(value, '\n', |value|, -1);
    assert Slice(value, 0, |value|) == value;
    TrimUnchanged(value);
  }
}
