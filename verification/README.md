# Logos block editor — a Dafny model of its editing core

Logos is a browser markdown editor. A document is an ordered list of blocks.
Each block shows rendered markdown until it is clicked, and then raw text in a
text area. This project models the three parts of Logos that decide what a
keystroke or an edit does to the text and to the block list:

- **The block editor** (`MarkdownBlock.js`) is modelled as the class `MarkdownBlock.BlockEditor`.
  - It keeps the committed `content`, the working text `editContent`, the selection and the `isEditing` flag.
  - Its handlers cover click, blur, change and delete, and the keys Tab / Shift+Tab, Enter / Shift+Enter, ArrowUp and ArrowDown.
  - Each handler returns the events it sends to the document (`Update(content, createNewBlock)` or `Navigate(direction)`), in the order it sends them.
  - The text edits are specified by pure functions:
    - `TabIndent.TabEdit`: the multi-line list indent and outdent.
    - `EnterKey.EnterEdit`: list continuation, leaving a list, a soft line break, or splitting the block.
  - The list-item patterns are written out as matchers in `ListSyntax`, with both directions proved.
- **The document** (`MarkdownEditor.js`) is modelled as the class `MarkdownEditor.Document`. It holds the block list and the three operations on it:
  - update (delete, replace, or split after);
  - add at the end;
  - focus the previous or next block.

  Each operation is specified by a function on `seq<Block>` of two lists: the list the calling handler was rendered with (`snapshot`, what the code reads as `blocks`) and the list as queued so far (what a `setBlocks` updater receives as `prevBlocks`). The invariant "ids are distinct and at most one block is being edited" is preserved by every operation.
- **The markdown file format** (`fileOperations.js`) is modelled as `FileOperations`:
  - `ParseMarkdownToBlocks` splits the text on runs of two or more line feeds, trims the pieces and drops the blank ones.
  - `BlocksToMarkdown` joins the contents with one blank line.
  - The model proves the round trip for clean contents and that re-parsing is stable.

JavaScript semantics the model writes out explicitly:
- `\s` is the full ECMAScript whitespace set, by code point (`JsText.IsSpace`). `String.prototype.trim` removes exactly that set.
- `.` in a pattern does not match the four line terminators.
- `parseInt` of a digit run is its decimal value.
- `Math.max()` of no arguments is `-Infinity` (`MarkdownEditor.JsMax`).
- `setSelectionRange` converts its arguments to 32-bit unsigned integers, clamps them to the text length, and never lets the start pass the end (`TabIndent.SetSelectionRange`).

`Date.now()` is read once for every block the parser makes. It is a parameter `clock` of the parser: `clock(i)` is the reading taken for the block at position `i`. Block ids are unbounded integers.

Behaviour of the code that the model reproduces and states as lemmas:
- The Tab scan compares an offset with the end of each line *including* its line feed. So a caret at the very start of a line belongs to the line above (`TabIndent.LineStartBelongsToLineAbove`): Tab with such a caret indents the line above, not the caret's own line.
- Shift+Tab with the caret at column 1 of an outdented list item on the first line gives the raw selection -1. That wraps to 2^32 - 1 and is clamped to the text length, so the caret jumps to the end of the text (`TabIndent.OutdentAtColumnOneSendsCaretToEnd`).
- Tab rewrites only the list items among the lines it touches (`TabIndent.TabRewritesTouchedListItems`).
- The scan's fallback "no end line found" cannot be reached, because the last line's end plus its line feed is beyond every caret offset. `MarkdownBlock.BlockEditor.FindTouchedLines` proves this; the branch is `assert false`.
- Enter on a list item with content inserts the next marker. Enter straight after that empty continuation item takes the list out again. The two Enters together leave only a blank line (`EnterKey.EnterTwiceLeavesList`).
- `handleBlockUpdate`, `addNewBlock` and `handleNavigate` read the rendered list; their updater functions act on the queued list.
  - Deleting sets the list to the rendered list without the block, dropping whatever was queued (`MarkdownEditor.BlockUpdate`).
  - The content update and the split act on the queued list. The split's index and new id are taken from the rendered list.
  - Moving finds the target position in the rendered list and focuses the queued list at that position (`MarkdownEditor.Navigated`).
  - Adding sets the list to the rendered list plus the new block (`MarkdownEditor.Appended`).
- All the calls of one key handler come from one render (`MarkdownEditor.Document.OnBlockEvents`).
  - ArrowUp at the start of a block whose text was emptied removes the block and opens the block above it (`MarkdownEditor.ArrowUpFromEmptiedBlock`).
  - ArrowDown at the end of such a block removes it too. The target position is counted in the rendered list but applied to the shortened one, so the block two below is opened, or none when the emptied block was second to last (`MarkdownEditor.ArrowDownFromEmptiedBlockAsWritten`; see Findings).
- When the block is not found in the rendered list, the split's index is -1 and the new block goes first, and moving down focuses the first block (`MarkdownEditor.NavigateDownFromMissingBlock`). A block's own handlers always find it, so only a direct call reaches this.

Details of the code that the model keeps as written:
- The indentation width counts every `\s` character before the marker; a tab counts as one.
- Shift+Enter replaces the whole selection by one line feed, and the caret goes to one past the selection start.
- Enter on a list line looks only at the text from the line start to the selection start, and keeps any selected text after it.
- A block's `isEditing` as set by a click is local to the block editor; the document's flags change only on split and on navigation.

## Model

| member | source | states |
|---|---|---|
| JsText.Trim | logos/src/components/MarkdownBlock.js:173 | the result is empty exactly when the string is all whitespace; otherwise it starts and ends with a non-space, is the slice of the string right after its leading whitespace run, and only whitespace follows it in the string |
| JsText.TrimmedIsFixedPoint | logos/src/utils/fileOperations.js:22 | trimming leaves a string unchanged exactly when it is empty or starts and ends with a non-space |
| JsText.TrimKeepsNoBlankLine | logos/src/utils/fileOperations.js:22 | trimming a piece with no blank line cannot create one |
| JsText.SplitLinesHaveNoLineFeed | logos/src/components/MarkdownBlock.js:82 | no line produced by splitting on line feeds contains a line feed |
| JsText.JoinSplitLines | logos/src/components/MarkdownBlock.js:82 | joining the split lines with line feeds gives back the original text |
| JsText.SplitLines | logos/src/components/MarkdownBlock.js:82 | there is always at least one line (that the lines have no line feed and join back to the text is stated by the two rows around this one) |
| JsText.SplitJoinLines | logos/src/components/MarkdownBlock.js:138 | splitting the join of lines that have no line feed gives back those lines |
| JsText.DecimalRoundTrip | logos/src/components/MarkdownBlock.js:193-194 | reading the decimal rendering of n back gives n |
| ListSyntax.MatchMarkerSound | logos/src/components/MarkdownBlock.js:165 | a recognised marker is a bullet character or a digit run plus '.', and its text is a prefix of the input |
| ListSyntax.MatchMarkerComplete | logos/src/components/MarkdownBlock.js:165 | every valid marker at the front of a string is recognised as that marker |
| ListSyntax.MatchListHeadSound | logos/src/components/MarkdownBlock.js:31-33 | a list head means whitespace up to the indent width, then the marker text, then one whitespace character |
| ListSyntax.MatchListHeadComplete | logos/src/components/MarkdownBlock.js:31-33 | every line of the form whitespace + marker + whitespace + rest is a list item, with the indent width the length of that whitespace |
| ListSyntax.IndentationLevelIsLeadingRun | logos/src/components/MarkdownBlock.js:36-39 | a list item's indentation level is the length of its leading whitespace run (tabs included); every other line has level 0 |
| ListSyntax.IndentationLevel | logos/src/components/MarkdownBlock.js:36-39 | for a list item, the level is the length of an all-whitespace prefix followed by a non-whitespace character, the marker; for every other line it is 0 |
| ListSyntax.IndentListItem | logos/src/components/MarkdownBlock.js:45-47 | indenting a list item prepends two spaces, keeps it a list item with the same marker, and raises its level by 2 |
| ListSyntax.OutdentListItem | logos/src/components/MarkdownBlock.js:48-55 | outdenting removes the first two characters when the level is at least 2 and lowers the level by 2; otherwise it leaves the line; the line stays a list item with the same marker |
| ListSyntax.IndentedItem | logos/src/components/MarkdownBlock.js:45-47 | two spaces put in front of a list item give a list item with the same marker and a level 2 higher |
| ListSyntax.OutdentedItem | logos/src/components/MarkdownBlock.js:48-53 | cutting the first two characters off a list item of level at least 2 gives a list item with the same marker and a level 2 lower |
| ListSyntax.NonListLineUnchanged | logos/src/components/MarkdownBlock.js:43 | a line that is not a list item is left unchanged by either action |
| ListSyntax.OutdentUndoesIndent | logos/src/components/MarkdownBlock.js:42-56 | outdent after indent restores every line |
| ListSyntax.IndentUndoesOutdent | logos/src/components/MarkdownBlock.js:42-56 | indent after outdent restores every line whose list indentation starts with two spaces |
| ListSyntax.ModifyKeepsLineFeedsOut | logos/src/components/MarkdownBlock.js:42-56 | the mutator never introduces a line feed |
| ListSyntax.MatchListLineSound | logos/src/components/MarkdownBlock.js:165 | the captured groups are well formed (whitespace indent, valid marker, a non-empty maximal whitespace run, content without a line terminator) and concatenate to the line |
| ListSyntax.MatchListLineComplete | logos/src/components/MarkdownBlock.js:165 | the pattern recognises every well-formed group tuple and returns exactly those groups |
| ListSyntax.MatchListLine | logos/src/components/MarkdownBlock.js:165 | the groups of a match are well formed and concatenate back to the line |
| ListSyntax.ListLineIsListItem | logos/src/components/MarkdownBlock.js:165 | a line the Enter pattern matches is a list item for the Tab pattern, with the same marker |
| ListSyntax.ContentBlankIffEmpty | logos/src/components/MarkdownBlock.js:173 | a captured content trims to empty exactly when it is empty |
| ListSyntax.NextMarker | logos/src/components/MarkdownBlock.js:192-197 | a bullet is kept; an ordered marker's number is incremented by one; the result is a valid marker |
| ListSyntax.ContinuationIsEmptyItem | logos/src/components/MarkdownBlock.js:194-196 | the inserted prefix is matched as an empty list item with the same indent and space and the next marker |
| ListSyntax.ContinuationPrefix | logos/src/components/MarkdownBlock.js:191-197 | for well-formed groups, the pattern reads the inserted prefix as an empty item with the same indent and space and the next marker |
| TabIndent.JoinLength | logos/src/components/MarkdownBlock.js:108-110 | the last line's end plus its line feed is one past the text, so every caret offset finds its line |
| TabIndent.LineOfOffset | logos/src/components/MarkdownBlock.js:93-106 | the line found for an offset is the first whose end, counting its line feed, is at or beyond the offset |
| TabIndent.LineOfOffsetUnique | logos/src/components/MarkdownBlock.js:93-106 | any line meeting that condition is the one found |
| TabIndent.LineOfOffsetMonotone | logos/src/components/MarkdownBlock.js:93-106 | a later offset never belongs to an earlier line, so the start line is never after the end line |
| TabIndent.ScanPositionTest | logos/src/components/MarkdownBlock.js:128-133 | the start moves by the start line's delta exactly when start and end share a line and the start is past offset 0; the end moves by the end line's delta exactly when it is past 0 |
| TabIndent.DeltaValue | logos/src/components/MarkdownBlock.js:127 | the length change is +2 for an indented list item, -2 for an outdented item of level at least 2, and 0 otherwise |
| TabIndent.CumRetab | logos/src/components/MarkdownBlock.js:127-133 | after the rewrite, each line's start offset has moved by the sum of the deltas of the rewritten lines before it |
| TabIndent.IndentDeltasNonNegative | logos/src/components/MarkdownBlock.js:123 | indenting never moves an offset backwards |
| TabIndent.RetabLinesHaveNoLineFeed | logos/src/components/MarkdownBlock.js:113-138 | rewritten lines still contain no line feed, so the join splits back into the same lines |
| TabIndent.RetabOutdentUndoesIndent | logos/src/components/MarkdownBlock.js:113-135 | Shift+Tab over the same lines undoes Tab |
| TabIndent.RemappedOffsetKeepsItsCharacter | logos/src/components/MarkdownBlock.js:127-133 | an offset moved by the deltas up to its line points at the same text as before |
| TabIndent.LinesOfValue | logos/src/components/MarkdownBlock.js:82 | the lines of a text join back to it, and the last line ends one past the text |
| TabIndent.LineOfMonotone | logos/src/components/MarkdownBlock.js:93-106 | the line of an offset never decreases as the offset grows |
| TabIndent.TabEditText | logos/src/components/MarkdownBlock.js:113-138 | the new text is the old lines joined back with lines start-line to end-line, and only those, run through the mutator |
| TabIndent.TabEditStart | logos/src/components/MarkdownBlock.js:127-130 | the start moves by the change of length of its own line exactly when start and end share a line and the start is past offset 0, and stays otherwise |
| TabIndent.TabEditEnd | logos/src/components/MarkdownBlock.js:127-133 | the end moves by the total change of length of every touched line when it is past offset 0, and stays at 0 otherwise |
| TabIndent.TabRewritesTouchedListItems | logos/src/components/MarkdownBlock.js:113-138 | Tab keeps the number of lines; it runs the mutator on exactly the list items from the start line to the end line and leaves every other line as it was |
| TabIndent.TabTextLength | logos/src/components/MarkdownBlock.js:127-138 | the lines joined back after the rewrite are longer than the old text by exactly the changes of length of the touched lines |
| TabIndent.IndentSelectionInBounds | logos/src/components/MarkdownBlock.js:127-144 | after Tab (indent), the remapped selection is ordered and inside the new text |
| TabIndent.TabEndKeepsItsCharacter | logos/src/components/MarkdownBlock.js:131-133 | a selection end past offset 0 (and at column 2 or beyond when outdenting) still precedes the same text after the edit |
| TabIndent.TabStartKeepsItsCharacter | logos/src/components/MarkdownBlock.js:128-130 | the same for a selection start on the end's line |
| TabIndent.ToUint32 | logos/src/components/MarkdownBlock.js:144 | the conversion of a selection offset is below 2^32, the identity on offsets already in range, and wraps small negatives to 2^32 plus the value |
| TabIndent.SetSelectionRange | logos/src/components/MarkdownBlock.js:144 | the resulting selection is ordered and within the text; in-range offsets are kept; a small negative end puts the end at the end of the text |
| TabIndent.LineStartBelongsToLineAbove | logos/src/components/MarkdownBlock.js:96 | the offset where line k starts is attributed to line k-1 |
| TabIndent.OutdentAtColumnOneSendsCaretToEnd | logos/src/components/MarkdownBlock.js:128-144 | Shift+Tab with the caret at offset 1 on an outdented first line gives raw offsets -1, and the caret lands at the end of the text |
| EnterKey.LineStartOf | logos/src/components/MarkdownBlock.js:156-159 | the line start is at or before the caret, follows a line feed or is 0, and has no line feed between it and the caret |
| EnterKey.LineStartOfUnique | logos/src/components/MarkdownBlock.js:156-159 | any position with those properties is the line start |
| EnterKey.ListItemEnter | logos/src/components/MarkdownBlock.js:170-211 | the result is an edit that keeps the text before the line and the text after the caret; an empty item becomes one line feed with the caret after it; after an item with content the text up to the caret is kept, followed by a line feed and the continuation prefix, with the caret after the prefix |
| EnterKey.EnterEdit | logos/src/components/MarkdownBlock.js:152-228 | an in-block edit keeps the text before the caret's line and the text after the selection end (Shift+Enter) or after the caret (Enter on a list line), and puts the caret past the line start and inside the new text |
| EnterKey.NewBlockExactlyOffList | logos/src/components/MarkdownBlock.js:223-227 | Enter splits the block exactly when Shift is up and the text from the line start to the caret is not a list line |
| EnterKey.ShiftEnterBreaksLine | logos/src/components/MarkdownBlock.js:217-222 | Shift+Enter replaces the selection by one line feed and puts the caret just after it |
| EnterKey.EnterOnEmptyItemLeavesList | logos/src/components/MarkdownBlock.js:173-186 | Enter after an empty list item replaces that item by a line feed and puts the caret after it |
| EnterKey.MatchedLineIsWellFormed | logos/src/components/MarkdownBlock.js:165 | the groups of the caret's line are well formed |
| EnterKey.EnterOnListLine | logos/src/components/MarkdownBlock.js:167-170 | without Shift, Enter on a matched line is the list-item edit for its groups |
| EnterKey.ItemWithContentContinues | logos/src/components/MarkdownBlock.js:187-211 | for an item with content, the edit inserts a line feed and the continuation prefix at the caret and puts the caret after the prefix |
| EnterKey.EmptyItemLeaves | logos/src/components/MarkdownBlock.js:173-186 | for an empty item, the edit cuts from the line start to the caret and puts one line feed there |
| EnterKey.EnterOnItemContinuesList | logos/src/components/MarkdownBlock.js:187-211 | Enter on a list item with content inserts a line feed and the next marker at the caret, and puts the caret after the marker |
| EnterKey.ContinuationHasNoLineFeed | logos/src/components/MarkdownBlock.js:194-196 | the continuation prefix stays on one line |
| EnterKey.ContinuedLineIsEmptyItem | logos/src/components/MarkdownBlock.js:199-206 | after the continuation, the caret's line is the empty item with the next marker |
| EnterKey.EnterAfterEmptyItem | logos/src/components/MarkdownBlock.js:173-186 | Enter with the caret after an empty item cuts it to a line feed |
| EnterKey.EnterAfterContinuation | logos/src/components/MarkdownBlock.js:173-211 | Enter right after an inserted continuation removes it again |
| EnterKey.EnterTwiceLeavesList | logos/src/components/MarkdownBlock.js:167-211 | the first Enter on a list item with content gives the continued text and caret, and the second Enter on them leaves the original text with one blank line at the caret and the caret two past it |
| MarkdownBlock.SaveEvents | logos/src/components/MarkdownBlock.js:59-65 | saving sends at most one update; it sends one exactly when the working text differs from the committed content, and that update carries the working text |
| MarkdownBlock.BlockEditor.constructor | logos/src/components/MarkdownBlock.js:6-18 | a new editor has the given content as committed and working text, the given editing flag, and the caret at the end |
| MarkdownBlock.BlockEditor.SaveContent | logos/src/components/MarkdownBlock.js:59-65 | it reports a save exactly when there are unsaved changes, and sends the save events |
| MarkdownBlock.BlockEditor.Click | logos/src/components/MarkdownBlock.js:67-69 | the editor enters editing with unchanged texts; entering moves the caret to the end |
| MarkdownBlock.BlockEditor.Blur | logos/src/components/MarkdownBlock.js:71-74 | the editor leaves editing with unchanged texts and sends the save events |
| MarkdownBlock.BlockEditor.Change | logos/src/components/MarkdownBlock.js:250-252 | the working text and selection become the text area's; nothing else changes |
| MarkdownBlock.BlockEditor.Delete | logos/src/components/MarkdownBlock.js:254-256 | sends one update with empty content |
| MarkdownBlock.BlockEditor.ReceiveContent | logos/src/components/MarkdownBlock.js:26-28 | a content from the document that differs from the previous one replaces both texts and puts the caret at the end; the same content again changes nothing, so unsaved edits stay |
| MarkdownBlock.BlockEditor.ReceiveEditing | logos/src/components/MarkdownBlock.js:21-23 | when the document's flag changes, the editing flag follows it; switching it on moves the caret to the end |
| MarkdownBlock.BlockEditor.FindTouchedLines | logos/src/components/MarkdownBlock.js:85-110 | the scan loop finds the start and end lines of the offsets, and the position of the end line's start |
| MarkdownBlock.BlockEditor.RewriteLine | logos/src/components/MarkdownBlock.js:115-127 | line j of the array, and only it, becomes the mutator applied to it (a line that is not a list item stays as it is), and the returned length change is that of the line |
| MarkdownBlock.BlockEditor.RewriteTouchedLines | logos/src/components/MarkdownBlock.js:113-135 | lines s to e of the array, and only they, become the mutator applied to them; the start moves by line s's change of length when it is past the end line's start; the end moves by the total change of lines s to e, or of lines s to e-1 when it is not past the end line's start |
| MarkdownBlock.BlockEditor.ComputeTab | logos/src/components/MarkdownBlock.js:81-138 | the new text and raw selection are those of the Tab edit |
| MarkdownBlock.BlockEditor.HandleTab | logos/src/components/MarkdownBlock.js:78-149 | the working text becomes the Tab edit and the selection is set through setSelectionRange; content and editing flag are unchanged |
| MarkdownBlock.BlockEditor.FindLineStart | logos/src/components/MarkdownBlock.js:156-159 | the backward scan stops at the caret's line start |
| MarkdownBlock.BlockEditor.PutText | logos/src/components/MarkdownBlock.js:180-186 | the working text is replaced and the caret is set through setSelectionRange |
| MarkdownBlock.BlockEditor.DecideEnter | logos/src/components/MarkdownBlock.js:153-228 | the effect computed is the Enter edit |
| MarkdownBlock.BlockEditor.HandleEnter | logos/src/components/MarkdownBlock.js:152-228 | an in-block edit changes the working text and caret and sends nothing; a split leaves the text, sends the save events and then an update with the working text and the split flag |
| MarkdownBlock.BlockEditor.HandleArrowUp | logos/src/components/MarkdownBlock.js:229-237 | with the caret at 0, it saves and asks to move up; otherwise it sends nothing |
| MarkdownBlock.BlockEditor.HandleArrowDown | logos/src/components/MarkdownBlock.js:238-246 | with the caret at the end of the text, it saves and asks to move down; otherwise it sends nothing |
| MarkdownBlock.BlockEditor.HandleKeyDown | logos/src/components/MarkdownBlock.js:76-248 | each key has the effect and the events of its handler; other keys change nothing |
| FileOperations.DropLineFeeds | logos/src/utils/fileOperations.js:15 | the separator run consumed by the split is a run of line feeds followed by a non-line-feed |
| FileOperations.SplitOnBlankLines | logos/src/utils/fileOperations.js:15 | the split gives at least one piece; the first is a prefix of the text, and no piece contains a blank line |
| FileOperations.SplitWithoutBlankLine | logos/src/utils/fileOperations.js:15 | a text with no blank line splits into itself |
| FileOperations.SplitAfterPiece | logos/src/utils/fileOperations.js:15 | a piece followed by a blank line is split off the front |
| FileOperations.SplitJoinedPieces | logos/src/utils/fileOperations.js:15-34 | splitting the blank-line join of clean pieces gives back the pieces |
| FileOperations.TrimIdempotent | logos/src/utils/fileOperations.js:22 | trimming twice is trimming once |
| FileOperations.TrimmedPieceIsClean | logos/src/utils/fileOperations.js:19-22 | a non-blank piece trims to a clean content |
| FileOperations.PiecesToBlocks | logos/src/utils/fileOperations.js:18-23 | there are at most as many blocks as pieces; the block at position i of the result has id clock(index + i) + index + i and is not being edited |
| FileOperations.PiecesToBlocksClean | logos/src/utils/fileOperations.js:19-22 | every block made from pieces without a blank line has a clean content: non-empty, trimmed, and without a blank line |
| FileOperations.ParseMarkdownToBlocks | logos/src/utils/fileOperations.js:11-24 | empty text gives no blocks; the block at position i has id clock(i) + i (the clock reading taken for it plus its position) and is not being edited; contents are trimmed, non-blank and without blank lines; with a clock that never runs backwards the list is valid |
| FileOperations.PiecesToBlocksOfClean | logos/src/utils/fileOperations.js:18-23 | clean pieces all become blocks, in order and unchanged |
| FileOperations.RoundTrip | logos/src/utils/fileOperations.js:11-35 | parsing the markdown of blocks with clean contents gives back their contents |
| FileOperations.ReparseIsStable | logos/src/utils/fileOperations.js:11-35 | saving and re-opening a parsed document gives the same blocks |
| FileOperations.JoinedBlankLines | logos/src/utils/fileOperations.js:31-35 | the join of n clean pieces has exactly n-1 blank lines |
| FileOperations.SeparatorsAfterParse | logos/src/utils/fileOperations.js:15-34 | the markdown of a parsed text has exactly one blank line per gap between blocks, whatever separators the text had |
| FileOperations.MarkdownLength | logos/src/utils/fileOperations.js:31-35 | no blocks give the empty text; one block gives its content; otherwise the length is the contents' total plus two per separator |
| MarkdownEditor.FindIndex | logos/src/components/MarkdownEditor.js:119 | the result is the first position with the id, or -1 when no block has it |
| MarkdownEditor.MaxId | logos/src/components/MarkdownEditor.js:60 | the maximum of a non-empty id list is one of the ids and is at least every id |
| MarkdownEditor.NextId | logos/src/components/MarkdownEditor.js:90 | the new id exceeds every id, and is one more than an existing id when there is one |
| MarkdownEditor.WithoutBlock | logos/src/components/MarkdownEditor.js:50 | filtering keeps only blocks of the list whose id differs |
| MarkdownEditor.WithoutMissingBlock | logos/src/components/MarkdownEditor.js:50 | filtering out an absent id changes nothing |
| MarkdownEditor.WithoutBlockAt | logos/src/components/MarkdownEditor.js:50 | with distinct ids, filtering removes exactly the block at its position |
| MarkdownEditor.RemoveOneBlock | logos/src/components/MarkdownEditor.js:49-51 | an update with blank content deletes the one block with the id, or nothing when none has it |
| MarkdownEditor.RemoveAtKeepsInvariant | logos/src/components/MarkdownEditor.js:50 | removing one block keeps the list valid |
| MarkdownEditor.WithoutBlockKeepsInvariant | logos/src/components/MarkdownEditor.js:49-51 | deleting keeps the ids distinct and at most one block editing |
| MarkdownEditor.WithoutBlockIdsWithin | logos/src/components/MarkdownEditor.js:50 | the rendered list without a block holds only rendered ids |
| MarkdownEditor.WithContent | logos/src/components/MarkdownEditor.js:53-55 | the length, the ids, the order and the editing flags are kept; exactly the blocks with the id get the new content |
| MarkdownEditor.ReplaceContentOnly | logos/src/components/MarkdownEditor.js:53-55 | the update replaces the content of exactly the block with the id and nothing else |
| MarkdownEditor.WithContentKeepsInvariant | logos/src/components/MarkdownEditor.js:53-55 | a content update keeps the ids and the list valid |
| MarkdownEditor.SplitAfter | logos/src/components/MarkdownEditor.js:65-76 | one block more; the empty editing block with the new id stands at index + 1, or last when the list is shorter; the blocks before and after it keep their ids and contents in order; only blocks with the new id can be editing |
| MarkdownEditor.SplitInsertsOneEditingBlock | logos/src/components/MarkdownEditor.js:65-76 | the split inserts an empty editing block with the new id just after the index, keeps the other blocks in order, and clears their editing flags |
| MarkdownEditor.SplitKeepsIdsUnique | logos/src/components/MarkdownEditor.js:59-76 | with a fresh id, the split keeps the list valid |
| MarkdownEditor.NewIdIsFresh | logos/src/components/MarkdownEditor.js:60 | the split's new id, one above every rendered id, differs from the id of every queued block after the content update, when those ids are rendered ids |
| MarkdownEditor.UpdateKeepsInvariant | logos/src/components/MarkdownEditor.js:47-87 | every block update keeps the queued list valid when its ids are rendered ids; except after a split, the result again holds only rendered ids |
| MarkdownEditor.BlockUpdate | logos/src/components/MarkdownEditor.js:47-87 | a blank content gives blocks of the rendered list, none with the id; otherwise the queued list keeps its length, one more on a split, and a plain update keeps the ids and gives the content to the blocks with the id |
| MarkdownEditor.SplitOpensBlockAfter | logos/src/components/MarkdownEditor.js:59-76 | splitting a present block keeps it with the new content and no editing flag, puts an empty editing block with a fresh id right after it, and that block is the only one editing |
| MarkdownEditor.AppendAddsFreshBlock | logos/src/components/MarkdownEditor.js:89-92 | adding keeps the list as a prefix, appends one block with the given content and an id no block has, and keeps the list valid |
| MarkdownEditor.Appended | logos/src/components/MarkdownEditor.js:89-92 | the list is kept as a prefix, followed by one block with the content, not being edited, whose id is above every id of the list |
| MarkdownEditor.NavigateTarget | logos/src/components/MarkdownEditor.js:119-128 | the target, when there is one, is a position in the list |
| MarkdownEditor.FocusOn | logos/src/components/MarkdownEditor.js:134-136 | focusing keeps the length, the ids and the contents, and exactly the block at the given position is editing |
| MarkdownEditor.Navigated | logos/src/components/MarkdownEditor.js:118-136 | the queued list's length, ids and contents are kept; with a target position found in the rendered list exactly the queued block at that position is editing, and without one nothing changes |
| MarkdownEditor.NavigateAtEdgeIsNoOp | logos/src/components/MarkdownEditor.js:122-130 | moving up from the first block or down from the last changes nothing |
| MarkdownEditor.NavigateFocusesNeighbour | logos/src/components/MarkdownEditor.js:130-136 | moving to a neighbour keeps ids and contents and makes exactly that neighbour the editing block |
| MarkdownEditor.NavigateDownFromMissingBlock | logos/src/components/MarkdownEditor.js:125-136 | moving down from an id absent from the rendered list makes exactly the first block editing |
| MarkdownEditor.NavigateKeepsInvariant | logos/src/components/MarkdownEditor.js:118-147 | moving keeps the queued list's ids, contents and validity, whatever list the target is found in |
| MarkdownEditor.BlockHandlersAreOneHandler | logos/src/components/MarkdownBlock.js:223-246 | the calls of an Enter that splits, of an arrow key, of a blur and of the delete button each have a split at most as their last call |
| MarkdownEditor.EmptiedBlockIsRemoved | logos/src/components/MarkdownEditor.js:49-51 | saving an emptied block of a valid rendered list takes out exactly that block, and the rest is valid |
| MarkdownEditor.ReplaySaveThenMove | logos/src/components/MarkdownEditor.js:118-136 | a save call followed by a move call of one handler is the move, with its target found in the rendered list, applied to the saved list |
| MarkdownEditor.ArrowUpFromEmptiedBlock | logos/src/components/MarkdownEditor.js:118-136 | ArrowUp at the start of an emptied block removes the block, keeps the other ids and contents, and opens exactly the block that was above it |
| MarkdownEditor.ArrowDownFromEmptiedBlockAsWritten | logos/src/components/MarkdownEditor.js:130-136 | as written, ArrowDown at the end of an emptied block removes it and opens exactly the block two below it, or no block when it was second to last |
| MarkdownEditor.ArrowDownSkipsBlockAsWritten | logos/src/components/MarkdownEditor.js:130-136 | with blocks 1 to 4, emptying block 2 and pressing ArrowDown leaves block 3 closed and opens block 4 |
| MarkdownEditor.FocusOnId | logos/src/components/MarkdownEditor.js:131-136 | the length, ids and contents are kept, and exactly the blocks with the target id are editing |
| MarkdownEditor.NavigatedByIdOnRenderedList | logos/src/components/MarkdownEditor.js:118-136 | with nothing queued and distinct ids, taking the target by id moves exactly as the code does |
| MarkdownEditor.ArrowFromEmptiedBlockById | logos/src/components/MarkdownEditor.js:118-136 | with the target taken by id, an arrow key at the edge of an emptied block removes it and opens exactly the block that was right above or right below it |
| MarkdownEditor.JsMax | logos/src/components/MarkdownEditor.js:90 | Math.max of no numbers is -Infinity; otherwise it is one of them and at least each |
| MarkdownEditor.AppendedAsWritten | logos/src/components/MarkdownEditor.js:89-92 | adding as written keeps the list as a prefix and appends one block with the content |
| MarkdownEditor.AsWrittenAgreesOnBlocks | logos/src/components/MarkdownEditor.js:89-92 | on a non-empty list, the id as written is the corrected id |
| MarkdownEditor.AppendTwiceToEmptyAsWritten | logos/src/components/MarkdownEditor.js:89-92 | adding twice to an empty list as written gives two blocks that both have id -Infinity |
| MarkdownEditor.Document.constructor | logos/src/components/MarkdownEditor.js:31-34 | the document starts with the two welcome blocks and is valid |
| MarkdownEditor.Document.UpdateBlock | logos/src/components/MarkdownEditor.js:47-87 | the blocks become the block update of the old blocks against the rendered list; the document stays valid and, unless a block was split, holds only rendered ids |
| MarkdownEditor.Document.AddNewBlock | logos/src/components/MarkdownEditor.js:89-92 | the blocks become the rendered list plus one fresh block at the end, whatever was queued; the document is valid |
| MarkdownEditor.Document.Navigate | logos/src/components/MarkdownEditor.js:118-147 | the blocks become the move of the old blocks with the target found in the rendered list; the document stays valid and keeps holding only rendered ids |
| MarkdownEditor.Document.OnBlockEvent | logos/src/components/MarkdownEditor.js:306-315 | an update call is applied as a block update and a move call as a move, both for that block and against the rendered list |
| MarkdownEditor.Document.OnBlockEvents | logos/src/components/MarkdownEditor.js:306-315 | the calls of one handler applied in order leave the blocks at the replay of those calls on the old blocks against the rendered list; the document stays valid |
| MarkdownEditor.Document.Open | logos/src/components/MarkdownEditor.js:188-191 | with a clock that never runs backwards, opening replaces the blocks by the parse of the file's text, which is valid |

## Left out

- File access (`saveMarkdownFile` and `openMarkdownFile`, the File System Access API and the download fallback) is not part of this model. `Document.Open` takes the file's text as a parameter. Saving is only `BlocksToMarkdown`.
- The save and open handlers' notifications, the unsaved-changes confirmation, the file-name state and `document.title` are UI state outside the core.
- React itself is not modelled: rendering, effects, the scheduling of state updates and their batching.
  - Each `setBlocks` call is applied in order, as the model's sequence of steps.
  - The effects that copy props into the editor are the explicit methods `ReceiveContent` and `ReceiveEditing`.
- `setTimeout`, `focus` and `scrollIntoView` only move keyboard focus and scroll the page, so they are left out. The delayed `setSelectionRange` is applied at once.
- Rendering markdown (`ReactMarkdown`, remark-gfm), the options panel, themes, notifications and the context menu are left out.
  - The context menu's block templates reach the core only through `addNewBlock(template)`, which is `Document.AddNewBlock`.
  - `getCaretCoordinates` is not part of this model.
- The browser's own default actions are not modelled:
  - the caret movement of ArrowUp and ArrowDown when the handler does not take the key;
  - ordinary typing, which reaches the model as `Change`;
  - the native line break that Shift+Enter may also insert, since the handler does not prevent the default.
- `MarkdownBlock.BlockEditor.Click`, `ReceiveContent`, `ReceiveEditing`, constructor: they put the caret at the end of the text after the text area is filled. The effect at lines 13-18 only sets `selectionStart`, and the browser keeps the selection ordered.
- Strings are sequences of Unicode scalar values. JavaScript lengths and offsets count UTF-16 code units, so offsets differ for text outside the Basic Multilingual Plane.
- Numbers are unbounded integers. Block ids and `parseInt` results above 2^53 lose precision in JavaScript, and the model does not capture that.
- An `isEditing` that the source leaves undefined (blocks made by `addNewBlock` and by the parser) is modelled as `false`, which is how the block editor reads it.
- `FileOperations.ParseMarkdownToBlocks`: distinct ids are proved only for a clock that never runs backwards while the file is parsed. A clock set back between two readings could repeat an id, and the model does not cover that; `Document.Open` requires such a clock for the same reason.
- `MarkdownEditor.Document.OnBlockEvents`: requires the calls of a single handler (a split only as the last call) and queued ids that are rendered ids. Calls of several handlers queued before one re-render are not modelled.
- `MarkdownEditor.Document.Navigate`: keeps the code's move by position (see Findings); the move by id is `NavigatedById`, stated by `ArrowFromEmptiedBlockById`.
- `MarkdownEditor.NextId`, `MarkdownEditor.Appended`, `MarkdownEditor.Document.AddNewBlock`: a block added to a list with no blocks gets id 1; the code as written gives it `-Infinity` (see Findings).

## Findings

| source | as written | input that shows it | evidently intended | confidence | as-written member | corrected member |
|---|---|---|---|---|---|---|
| logos/src/components/MarkdownEditor.js:90 | the new id is `Math.max(...ids) + 1`, and `Math.max()` of no ids is `-Infinity` | delete every block (or open an empty file), then press "+ Add Block" twice: both new blocks get id `-Infinity`, so two blocks share an id and key | a fresh id for every new block, also when the document is empty | medium, not executed | MarkdownEditor.AppendTwiceToEmptyAsWritten | MarkdownEditor.AppendAddsFreshBlock |
| logos/src/components/MarkdownEditor.js:130-136 | the move's target is a position counted in the rendered list `blocks`, and it is applied by position to the queued list `prevBlocks` | blocks 1, 2, 3, 4; clear block 2 and press ArrowDown at its end: the save removes block 2 and block 4 is opened instead of block 3; clearing the second-to-last block instead opens no block | the block right below the emptied one is opened | medium, not executed | MarkdownEditor.ArrowDownSkipsBlockAsWritten | MarkdownEditor.ArrowFromEmptiedBlockById |
