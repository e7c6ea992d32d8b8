/** One block of the editor while it is shown: the content it was given,
    the text being edited in its text area with the selection, whether it
    is being edited, and the key and focus handlers. What the handlers ask
    of the document (an update of the block, a request for a new block, a
    move to a neighbouring block) is returned as a list of events. */
module MarkdownBlock {
  import opened Wrappers
  import opened JsText
  import opened ListSyntax
  import opened TabIndent
  import opened EnterKey

  datatype Direction = Up | Down

  /** A call the block makes on the document: `onUpdate(content,
      createNewBlock)` or `onNavigate(direction)`. */
  datatype Event = Update(content: string, createNewBlock: bool) | Navigate(direction: Direction)

  /** The keys the block handles itself; every other key is left to the
      text area. */
  datatype Key = Tab | Enter | ArrowUp | ArrowDown | OtherKey

  /** What saving the block sends to the document: the edited text, when
      it differs from the content the document holds. */
  function SaveEvents(editContent: string, content: string): (r: seq<Event>)
    ensures |r| <= 1
    ensures r != [] <==> editContent != content
    ensures r != [] ==> r[0] == Update(editContent, false)
  {
    if editContent != content then [Update(editContent, false)] else []
  }

  class BlockEditor {
    /** The content the document holds for this block. */
    var content: string
    /** The text in the text area. */
    var editContent: string
    var selStart: nat
    var selEnd: nat
    var isEditing: bool

    predicate Valid()
      reads this
    {
      selStart <= selEnd <= |editContent|
    }

    /** True when the text area holds text the document does not have yet. */
    predicate HasUnsavedChanges()
      reads this
    {
      editContent != content
    }

    /** A new block shows `content`; when it starts in editing mode the caret
        is put at the end of the text. */
    constructor (content: string, initialEditing: bool)
      ensures Valid()
      ensures this.content == content && editContent == content
      ensures isEditing == initialEditing
      ensures selStart == selEnd == |content|
    {
      this.content := content;
      editContent := content;
      isEditing := initialEditing;
      selStart, selEnd := |content|, |content|;
    }

    /** Hands the edited text to the document when it differs from the
        content the document holds, and says whether it did. */
    method SaveContent() returns (saved: bool, events: seq<Event>)
      ensures saved <==> HasUnsavedChanges()
      ensures events == SaveEvents(editContent, content)
    {
      if editContent != content {
        events := [Update(editContent, false)];
        saved := true;
      } else {
        events := [];
        saved := false;
      }
    }

    /** A click on a block that is not being edited opens it for editing
        with the caret at the end of its text. */
    method Click()
      requires Valid()
      modifies this
      ensures Valid()
      ensures content == old(content) && editContent == old(editContent)
      ensures isEditing
      ensures !old(isEditing) ==> selStart == selEnd == |editContent|
      ensures old(isEditing) ==> selStart == old(selStart) && selEnd == old(selEnd)
    {
      if !isEditing {
        isEditing := true;
        selStart, selEnd := |editContent|, |editContent|;
      }
    }

    /** Leaving the text area saves the edit and closes the editor. */
    method Blur() returns (events: seq<Event>)
      requires Valid()
      modifies this
      ensures Valid()
      ensures !isEditing
      ensures content == old(content) && editContent == old(editContent)
      ensures selStart == old(selStart) && selEnd == old(selEnd)
      ensures events == SaveEvents(old(editContent), old(content))
    {
      var saved;
      saved, events := SaveContent();
      isEditing := false;
    }

    /** Typing: the text area reports its new text and selection. */
    method Change(value: string, start: nat, end: nat)
      requires start <= end <= |value|
      modifies this
      ensures Valid()
      ensures editContent == value && selStart == start && selEnd == end
      ensures content == old(content) && isEditing == old(isEditing)
    {
      editContent := value;
      selStart, selEnd := start, end;
    }

    /** The delete button asks the document to remove the block. */
    method Delete() returns (events: seq<Event>)
      ensures events == [Update([], false)]
    {
      events := [Update([], false)];
    }

    /** The document renders the block with the content `newContent`. The
        effect that copies it into the text area runs only when it differs
        from the content of the previous render; then the text area shows
        it, with the caret at its end, and unsaved edits are dropped.
        Otherwise nothing changes, unsaved edits included. */
    method ReceiveContent(newContent: string)
      requires Valid()
      modifies this
      ensures Valid()
      ensures content == newContent && isEditing == old(isEditing)
      ensures newContent != old(content) ==>
        editContent == newContent && selStart == selEnd == |newContent|
      ensures newContent == old(content) ==>
        editContent == old(editContent) && selStart == old(selStart) && selEnd == old(selEnd)
    {
      if newContent != content {
        content := newContent;
        editContent := newContent;
        selStart, selEnd := |newContent|, |newContent|;
      }
    }

    /** The document switches editing on or off for the block; switching it
        on puts the caret at the end of the text. The effect behind it runs
        only when the document's flag for the block changes, so this is
        called only then, with the new flag. */
    method ReceiveEditing(editing: bool)
      requires Valid()
      modifies this
      ensures Valid()
      ensures isEditing == editing
      ensures content == old(content) && editContent == old(editContent)
      ensures editing && !old(isEditing) ==> selStart == selEnd == |editContent|
      ensures !(editing && !old(isEditing)) ==> selStart == old(selStart) && selEnd == old(selEnd)
    {
      if editing && !isEditing {
        selStart, selEnd := |editContent|, |editContent|;
      }
      isEditing := editing;
    }

    /** The Tab handler's scan over line offsets: the first line whose end,
        line feed included, reaches the selection start, and the one that
        reaches the selection end, with the offset at which that last line
        starts. */
    static method FindTouchedLines(lines: array<string>, start: nat, end: nat)
      returns (s: nat, e: nat, position: nat)
      requires lines.Length >= 1 && start <= end < Cum(lines[..], lines.Length)
      ensures s == LineOfOffset(lines[..], start) && e == LineOfOffset(lines[..], end)
      ensures position == Cum(lines[..], e)
    {
      ghost var parts := lines[..];
      position := 0;
      var startLine := -1;
      var endLine := -1;
      var i := 0;
      while i < lines.Length
        invariant 0 <= i <= lines.Length
        invariant position == Cum(parts, i)
        invariant i > 0 ==> end > Cum(parts, i)
        invariant startLine == -1 ==> i > 0 ==> start > Cum(parts, i)
        invariant startLine != -1 ==> 0 <= startLine < i && startLine == LineOfOffset(parts, start)
        invariant endLine == -1
      {
        var lineLength := |lines[i]| + 1;
        if startLine == -1 && start <= position + lineLength {
          startLine := i;
          LineOfOffsetUnique(parts, start, i);
        }
        if end <= position + lineLength {
          endLine := i;
          LineOfOffsetUnique(parts, end, i);
          break;
        }
        position := position + lineLength;
        i := i + 1;
      }
      if endLine == -1 {
        // The offsets of the lines reach one past the end of the text, so
        // the scan always stops at a line.
        assert false;
      }
      s, e := startLine, endLine;
    }

    /** One pass of the Tab handler's rewrite loop: a list item on line
        `j` is run through the mutator; the change of its length is
        reported, 0 when the line is not a list item. The line is the
        `j`-th of `parts`, whose rewritten lines are `modified`. */
    static method RewriteLine(lines: array<string>, j: nat, action: IndentAction,
                              ghost parts: seq<string>, ghost modified: seq<string>)
      returns (lengthDiff: int)
      requires j < lines.Length == |parts| && lines[j] == parts[j]
      requires Rewritten(parts, modified, Mutator(action))
      modifies lines
      ensures lines[..] == old(lines[..])[j := modified[j]]
      ensures lengthDiff == |modified[j]| - |parts[j]|
    {
      assert modified[j] == Mutator(action)(parts[j]);
      if IsListItem(lines[j]) {
        var originalLength := |lines[j]|;
        lines[j] := ModifyIndentation(lines[j], action);
        lengthDiff := |lines[j]| - originalLength;
      } else {
        NonListLineUnchanged(lines[j], action);
        lengthDiff := 0;
        assert lines[..] == old(lines[..])[j := lines[j]];
      }
    }

    /** The Tab handler's rewrite of lines `s` to `e` in place, moving the
        selection offsets by the change of length of each list item it
        rewrites: the start only for line `s` and only when it lies after
        `position`, the start of line `e`; the end for every line before
        `e`, and for line `e` too when it lies after `position`. The
        rewritten lines are those of the table `modified`. */
    static method RewriteTouchedLines(lines: array<string>, s: nat, e: nat, position: nat,
                                      start: nat, end: nat, action: IndentAction,
                                      ghost modified: seq<string>)
      returns (newStart: int, newEnd: int)
      requires s <= e < lines.Length
      requires Rewritten(lines[..], modified, Mutator(action))
      modifies lines
      ensures lines[..] == Spliced(old(lines[..]), modified, s, e + 1)
      ensures newStart == start + (if start > position then |modified[s]| - |old(lines[s])| else 0)
      ensures newEnd == end + Growth(old(lines[..]), modified, s, if end > position then e + 1 else e)
    {
      ghost var parts := lines[..];
      SplicedStart(parts, modified, s);
      newStart, newEnd := start, end;
      ghost var counted: nat := s;
      var j := s;
      while j <= e
        invariant s <= j <= e + 1
        invariant lines[..] == Spliced(parts, modified, s, j)
        invariant newStart == start + (if j > s && start > position then |modified[s]| - |parts[s]| else 0)
        invariant counted == if j <= e || end > position then j else e
        invariant newEnd == end + Growth(parts, modified, s, counted)
      {
        SplicedStep(parts, modified, s, j);
        var lengthDiff := RewriteLine(lines, j, action, parts, modified);
        if j < s || (j == s && start > position) {
          newStart := newStart + lengthDiff;
        }
        if j < e || (j == e && end > position) {
          newEnd := newEnd + lengthDiff;
          counted := j + 1;
        }
        j := j + 1;
      }
    }

    /** What the Tab handler computes from the text and selection it is
        given: the text split into an array of lines, the touched lines
        found and rewritten, the lines joined back, and the selection
        offsets moved. */
    static method ComputeTab(value: string, start: nat, end: nat, action: IndentAction)
      returns (newContent: string, newStart: int, newEnd: int)
      requires start <= end <= |value|
      ensures TabResult(newContent, newStart, newEnd) == TabEdit(value, start, end, action)
    {
      var parts := SplitLines(value);
      LinesOfValue(value);
      var lines := new string[|parts|](k requires 0 <= k < |parts| => parts[k]);
      assert lines[..] == parts;
      var s, e, position := FindTouchedLines(lines, start, end);
      assert s == LineOf(value, start) && e == LineOf(value, end);
      ScanPositionTest(parts, start, end);
      ghost var modified := RewriteAll(parts, Mutator(action));
      RewriteAllRewritten(parts, Mutator(action));
      newStart, newEnd := RewriteTouchedLines(lines, s, e, position, start, end, action, modified);
      newContent := Join(lines[..], "\n");
      TabEditWithParts(value, start, end, Mutator(action), parts, s, e, modified, newContent, newStart, newEnd);
    }

    /** Tab (`shift` false) or Shift+Tab on the text area: the new text and
        the moved selection are put in the text area. */
    method HandleTab(shift: bool)
      requires Valid()
      modifies this
      ensures Valid()
      ensures editContent
           == TabEdit(old(editContent), old(selStart), old(selEnd), if shift then Outdent else Indent).text
      ensures Selection(selStart, selEnd)
           == SetSelectionRange(|editContent|,
                TabEdit(old(editContent), old(selStart), old(selEnd), if shift then Outdent else Indent).rawStart,
                TabEdit(old(editContent), old(selStart), old(selEnd), if shift then Outdent else Indent).rawEnd)
      ensures content == old(content) && isEditing == old(isEditing)
    {
      var newContent, newStart, newEnd := ComputeTab(editContent, selStart, selEnd, if shift then Outdent else Indent);
      editContent := newContent;
      var sel := SetSelectionRange(|newContent|, newStart, newEnd);
      selStart, selEnd := sel.start, sel.end;
    }

    /** The backward scan of the Enter handler: from the caret back to just
        after the previous line feed, or to the start of the text. */
    static method FindLineStart(value: string, caret: nat) returns (lineStart: nat)
      requires caret <= |value|
      ensures lineStart == LineStartOf(value, caret)
    {
      lineStart := caret;
      while lineStart > 0 && value[lineStart - 1] != '\n'
        invariant lineStart <= caret
        invariant LineStartOf(value, lineStart) == LineStartOf(value, caret)
      {
        lineStart := lineStart - 1;
      }
    }

    /** `setEditContent(text)` followed by `setSelectionRange(caret, caret)`. */
    method PutText(text: string, caret: nat)
      modifies this
      ensures Valid()
      ensures editContent == text && Selection(selStart, selEnd) == SetSelectionRange(|text|, caret, caret)
      ensures content == old(content) && isEditing == old(isEditing)
    {
      editContent := text;
      var sel := SetSelectionRange(|text|, caret, caret);
      selStart, selEnd := sel.start, sel.end;
    }

    /** What the Enter handler decides to do with the text and selection
        it is given: a backward scan finds the start of the caret's line,
        whose text up to the caret is matched against the list pattern. */
    static method DecideEnter(value: string, start: nat, end: nat, shift: bool)
      returns (effect: EnterEffect)
      requires start <= end <= |value|
      ensures effect == EnterEdit(value, start, end, shift)
    {
      var lineStart := FindLineStart(value, start);
      var listMatch := MatchListLine(value[lineStart..start]);
      if listMatch.Some? && !shift {
        EnterOnListLine(value, start, end, listMatch.value);
        effect := ListItemEnter(value, start, lineStart, listMatch.value);
      } else if shift {
        ShiftEnterBreaksLine(value, start, end);
        effect := Edit(value[..start] + "\n" + value[end..], start + 1);
      } else {
        NewBlockExactlyOffList(value, start, end, shift);
        effect := NewBlock;
      }
    }

    /** Enter (`shift` false) or Shift+Enter on the text area: an edit is
        put in the text area with the caret where the edit says; otherwise
        the block is saved and a new block is asked for. */
    method HandleEnter(shift: bool) returns (events: seq<Event>)
      requires Valid()
      modifies this
      ensures Valid()
      ensures content == old(content) && isEditing == old(isEditing)
      ensures EnterEdit(old(editContent), old(selStart), old(selEnd), shift).Edit? ==>
        && editContent == EnterEdit(old(editContent), old(selStart), old(selEnd), shift).text
        && Selection(selStart, selEnd)
           == SetSelectionRange(|editContent|,
                EnterEdit(old(editContent), old(selStart), old(selEnd), shift).caret,
                EnterEdit(old(editContent), old(selStart), old(selEnd), shift).caret)
        && events == []
      ensures EnterEdit(old(editContent), old(selStart), old(selEnd), shift).NewBlock? ==>
        && editContent == old(editContent) && selStart == old(selStart) && selEnd == old(selEnd)
        && events == SaveEvents(old(editContent), old(content)) + [Update(old(editContent), true)]
    {
      var effect := DecideEnter(editContent, selStart, selEnd, shift);
      match effect
      case Edit(text, caret) =>
        PutText(text, caret);
        events := [];
      case NewBlock =>
        var saved;
        saved, events := SaveContent();
        events := events + [Update(editContent, true)];
    }

    /** ArrowUp with the caret at the very start of the text saves the block
        and moves to the block above; anywhere else the key is left to the
        text area. */
    method HandleArrowUp() returns (events: seq<Event>)
      ensures events == if selStart == 0
        then SaveEvents(editContent, content) + [Navigate(Up)]
        else []
    {
      if selStart == 0 {
        var saved;
        saved, events := SaveContent();
        events := events + [Navigate(Up)];
      } else {
        events := [];
      }
    }

    /** ArrowDown with the caret at the very end of the text saves the block
        and moves to the block below; anywhere else the key is left to the
        text area. */
    method HandleArrowDown() returns (events: seq<Event>)
      ensures events == if selStart == |editContent|
        then SaveEvents(editContent, content) + [Navigate(Down)]
        else []
    {
      if selStart == |editContent| {
        var saved;
        saved, events := SaveContent();
        events := events + [Navigate(Down)];
      } else {
        events := [];
      }
    }

    /** A key press in the text area, dispatched on the key. */
    method HandleKeyDown(key: Key, shift: bool) returns (events: seq<Event>)
      requires Valid()
      modifies this
      ensures Valid()
      ensures content == old(content) && isEditing == old(isEditing)
      ensures key != Tab && key != Enter ==>
        editContent == old(editContent) && selStart == old(selStart) && selEnd == old(selEnd)
      ensures key == Tab ==> events == []
      ensures key == Tab ==>
        && editContent == TabEdit(old(editContent), old(selStart), old(selEnd), if shift then Outdent else Indent).text
        && Selection(selStart, selEnd)
           == SetSelectionRange(|editContent|,
                TabEdit(old(editContent), old(selStart), old(selEnd), if shift then Outdent else Indent).rawStart,
                TabEdit(old(editContent), old(selStart), old(selEnd), if shift then Outdent else Indent).rawEnd)
      ensures key == Enter && EnterEdit(old(editContent), old(selStart), old(selEnd), shift).Edit? ==>
        && events == []
        && editContent == EnterEdit(old(editContent), old(selStart), old(selEnd), shift).text
        && Selection(selStart, selEnd)
           == SetSelectionRange(|editContent|,
                EnterEdit(old(editContent), old(selStart), old(selEnd), shift).caret,
                EnterEdit(old(editContent), old(selStart), old(selEnd), shift).caret)
      ensures key == Enter && EnterEdit(old(editContent), old(selStart), old(selEnd), shift).NewBlock? ==>
        && events == SaveEvents(old(editContent), old(content)) + [Update(old(editContent), true)]
        && editContent == old(editContent) && selStart == old(selStart) && selEnd == old(selEnd)
      ensures key == ArrowUp ==> events == if old(selStart) == 0
        then SaveEvents(old(editContent), old(content)) + [Navigate(Up)]
        else []
      ensures key == ArrowDown ==> events == if old(selStart) == |old(editContent)|
        then SaveEvents(old(editContent), old(content)) + [Navigate(Down)]
        else []
      ensures key == OtherKey ==> events == []
    {
      match key
      case Tab =>
        HandleTab(shift);
        events := [];
      case Enter =>
        events := HandleEnter(shift);
      case ArrowUp =>
        events := HandleArrowUp();
      case ArrowDown =>
        events := HandleArrowDown();
      case OtherKey =>
        events := [];
    }
  }
}
