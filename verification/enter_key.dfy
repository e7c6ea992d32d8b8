/** What the Enter key does in a block being edited: on a list line it
    either continues the list with the next marker or, on an empty item,
    leaves the list; Shift+Enter breaks the line inside the block; a plain
    Enter anywhere else asks for a new block. */
module EnterKey {
  import opened Wrappers
  import opened JsText
  import opened ListSyntax

  /** The start of the line holding offset `p`: the offset just after the
      last line feed before `p`, or 0. */
  function LineStartOf(v: string, p: nat): (ls: nat)
    requires p <= |v|
    ensures ls <= p
    ensures ls == 0 || v[ls - 1] == '\n'
    ensures forall i :: ls <= i < p ==> v[i] != '\n'
  {
    if p == 0 || v[p - 1] == '\n' then p else LineStartOf(v, p - 1)
  }

  /** The three facts of `LineStartOf`'s contract determine it. */
  lemma {:induction false} LineStartOfUnique(v: string, p: nat, ls: nat)
    requires ls <= p <= |v|
    requires ls == 0 || v[ls - 1] == '\n'
    requires forall i :: ls <= i < p ==> v[i] != '\n'
    ensures LineStartOf(v, p) == ls
    decreases p
  {
    if p > ls {
      LineStartOfUnique(v, p - 1, ls);
    }
  }

  /** The effect of a key press on the text area: new text and caret, or a
      request to the editor to start a new block. */
  datatype EnterEffect = Edit(text: string, caret: nat) | NewBlock

  /** Enter on a list line: on an item whose content is blank the item is
      removed and the caret starts a fresh line; otherwise the line is split
      at the caret and the new line starts with the continuation prefix. */
  function ListItemEnter(value: string, caret: nat, ls: nat, l: ListLine): (r: EnterEffect)
    requires ls <= caret <= |value|
    requires ValidMarker(l.marker)
    ensures r.Edit? && ls < r.caret <= |r.text|
    ensures r.text[..ls] == value[..ls] && r.text[r.caret..] == value[caret..]
    ensures Trim(l.content) == [] ==> r.caret == ls + 1 && r.text[ls] == '\n'
    ensures Trim(l.content) != [] ==>
      && caret < r.caret && r.text[..caret] == value[..caret] && r.text[caret] == '\n'
      && r.text[caret + 1..r.caret] == ContinuationPrefix(l)
  {
    if Trim(l.content) == [] then
      Edit(value[..ls] + "\n" + value[caret..], ls + 1)
    else
      Edit(value[..caret] + "\n" + ContinuationPrefix(l) + value[caret..],
           caret + 1 + |ContinuationPrefix(l)|)
  }

  /** The Enter key (Shift+Enter when `shift`) with the given selection. The
      list pattern is matched against the text from the start of the
      caret's line to the selection start. */
  function EnterEdit(value: string, selStart: nat, selEnd: nat, shift: bool): (r: EnterEffect)
    requires selStart <= selEnd <= |value|
    ensures r.Edit? ==> LineStartOf(value, selStart) < r.caret <= |r.text|
    ensures r.Edit? ==> r.text[..LineStartOf(value, selStart)] == value[..LineStartOf(value, selStart)]
    ensures r.Edit? ==> r.text[r.caret..] == value[(if shift then selEnd else selStart)..]
  {
    var ls := LineStartOf(value, selStart);
    var m := MatchListLine(value[ls..selStart]);
    if m.Some? && !shift then
      MatchListLineSound(value[ls..selStart]);
      ListItemEnter(value, selStart, ls, m.value)
    else if shift then
      LineBreakKeepsRest(value, ls, selStart, selEnd);
      Edit(value[..selStart] + "\n" + value[selEnd..], selStart + 1)
    else
      NewBlock
  }

  /** A line feed put in place of `value[selStart..selEnd]` keeps the text
      before `ls` and the text after the selection. */
  lemma {:induction false} LineBreakKeepsRest(value: string, ls: nat, selStart: nat, selEnd: nat)
    requires ls <= selStart <= selEnd <= |value|
    ensures var t := value[..selStart] + "\n" + value[selEnd..];
      && selStart + 1 <= |t| && t[..ls] == value[..ls] && t[selStart + 1..] == value[selEnd..]
  {
    var t := value[..selStart] + "\n" + value[selEnd..];
    assert t[..ls] == value[..selStart][..ls];
  }

  /** A new block is requested exactly on a plain Enter whose line, up to
      the caret, is not a list item. */
  lemma {:induction false} NewBlockExactlyOffList(value: string, selStart: nat, selEnd: nat, shift: bool)
    requires selStart <= selEnd <= |value|
    ensures EnterEdit(value, selStart, selEnd, shift).NewBlock?
        <==> !shift && MatchListLine(value[LineStartOf(value, selStart)..selStart]).None?
  {
  }

  /** Shift+Enter replaces the selection with a line feed and puts the caret
      after it, list line or not. */
  lemma {:induction false} ShiftEnterBreaksLine(value: string, selStart: nat, selEnd: nat)
    requires selStart <= selEnd <= |value|
    ensures EnterEdit(value, selStart, selEnd, true)
         == Edit(value[..selStart] + "\n" + value[selEnd..], selStart + 1)
    ensures |EnterEdit(value, selStart, selEnd, true).text| == |value| - (selEnd - selStart) + 1
  {
  }

  /** Enter on an empty list item removes the item (from the start of the
      line to the caret) and leaves the caret at the start of a fresh line:
      the text before the line and after the caret is kept. */
  lemma {:induction false} EnterOnEmptyItemLeavesList(value: string, caret: nat, selEnd: nat)
    requires caret <= selEnd <= |value|
    requires MatchListLine(value[LineStartOf(value, caret)..caret]).Some?
    requires MatchListLine(value[LineStartOf(value, caret)..caret]).value.content == []
    ensures EnterEdit(value, caret, selEnd, false).Edit?
    ensures EnterEdit(value, caret, selEnd, false).caret == LineStartOf(value, caret) + 1
    ensures EnterEdit(value, caret, selEnd, false).text
         == value[..LineStartOf(value, caret)] + "\n" + value[caret..]
  {
  }

  /** A character that can occur in a list marker is never a line feed. */
  lemma {:induction false} MarkerHasNoLineFeed(m: Marker)
    requires ValidMarker(m)
    ensures '\n' !in MarkerText(m)
  {
    if m.Ordered? {
      assert forall i :: 0 <= i < |m.digits| ==> IsDigit(MarkerText(m)[i]);
    }
  }

  /** The continuation prefix of a line without line feeds has none. */
  lemma {:induction false} PrefixHasNoLineFeed(l: ListLine)
    requires WellFormedListLine(l)
    requires '\n' !in l.indent && '\n' !in l.space
    ensures '\n' !in ContinuationPrefix(l)
  {
    MarkerHasNoLineFeed(NextMarker(l.marker));
    var t := MarkerText(NextMarker(l.marker));
    assert forall c :: c in l.indent + t + l.space ==> c in l.indent || c in t || c in l.space;
  }

  /** The groups of a matched line hold no line feed when the line has none. */
  lemma {:induction false} GroupsHaveNoLineFeed(line: string)
    requires MatchListLine(line).Some?
    requires '\n' !in line
    ensures '\n' !in MatchListLine(line).value.indent
    ensures '\n' !in MatchListLine(line).value.space
  {
    var l := MatchListLine(line).value;
    MatchListLineSound(line);
    var t := MarkerText(l.marker);
    assert line == l.indent + (t + l.space + l.content);
    assert line == (l.indent + t) + l.space + l.content;
    assert forall c :: c in l.indent ==> c in line;
    assert forall c :: c in l.space ==> c in line;
  }

  /** The slice from a line start to an offset on that line has no line
      feed. */
  lemma {:induction false} LineHasNoLineFeed(v: string, p: nat)
    requires p <= |v|
    ensures '\n' !in v[LineStartOf(v, p)..p]
  {
    var ls := LineStartOf(v, p);
    assert forall i :: 0 <= i < p - ls ==> v[ls..p][i] == v[ls + i];
  }

  /** Whatever the pattern captures on the caret's line is well-formed. */
  lemma {:induction false} MatchedLineIsWellFormed(value: string, caret: nat, l: ListLine)
    requires caret <= |value|
    requires MatchListLine(value[LineStartOf(value, caret)..caret]) == Some(l)
    ensures WellFormedListLine(l)
  {
    MatchListLineSound(value[LineStartOf(value, caret)..caret]);
  }

  /** A plain Enter on a list line acts on the captured groups only, and the
      selection end plays no part. */
  lemma {:induction false} EnterOnListLine(value: string, caret: nat, selEnd: nat, l: ListLine)
    requires caret <= selEnd <= |value|
    requires MatchListLine(value[LineStartOf(value, caret)..caret]) == Some(l)
    ensures ValidMarker(l.marker)
    ensures EnterEdit(value, caret, selEnd, false) == ListItemEnter(value, caret, LineStartOf(value, caret), l)
  {
    MatchedLineIsWellFormed(value, caret, l);
  }

  /** On an item with content the line is split and the prefix inserted. */
  lemma {:induction false} ItemWithContentContinues(value: string, caret: nat, ls: nat, l: ListLine)
    requires ls <= caret <= |value|
    requires WellFormedListLine(l) && l.content != []
    ensures ListItemEnter(value, caret, ls, l)
         == Edit(value[..caret] + "\n" + ContinuationPrefix(l) + value[caret..],
                 caret + 1 + |ContinuationPrefix(l)|)
  {
    ContentBlankIffEmpty(l);
  }

  /** Enter on a list item with content splits the line at the caret and
      starts the new line with the continuation prefix: same indent, next
      marker, same separating whitespace. */
  lemma {:induction false} EnterOnItemContinuesList(value: string, caret: nat, selEnd: nat, l: ListLine)
    requires caret <= selEnd <= |value|
    requires MatchListLine(value[LineStartOf(value, caret)..caret]) == Some(l)
    requires l.content != []
    ensures WellFormedListLine(l)
    ensures EnterEdit(value, caret, selEnd, false)
         == Edit(value[..caret] + "\n" + ContinuationPrefix(l) + value[caret..],
                 caret + 1 + |ContinuationPrefix(l)|)
  {
    MatchedLineIsWellFormed(value, caret, l);
    EnterOnListLine(value, caret, selEnd, l);
    ItemWithContentContinues(value, caret, LineStartOf(value, caret), l);
  }

  /** The continuation prefix of a matched line holds no line feed. */
  lemma {:induction false} ContinuationHasNoLineFeed(value: string, caret: nat, l: ListLine)
    requires caret <= |value|
    requires MatchListLine(value[LineStartOf(value, caret)..caret]) == Some(l)
    ensures ValidMarker(l.marker)
    ensures '\n' !in ContinuationPrefix(l)
  {
    var line := value[LineStartOf(value, caret)..caret];
    MatchListLineSound(line);
    LineHasNoLineFeed(value, caret);
    GroupsHaveNoLineFeed(line);
    PrefixHasNoLineFeed(l);
  }

  /** After the list is continued, the caret's new line up to the caret is
      exactly the continuation prefix, and the pattern reads it as an empty
      item with the next marker; the text before the new line and after the
      caret is the old text on either side of the caret. */
  lemma {:induction false} ContinuedLineIsEmptyItem(before: string, after: string, l: ListLine, t: string, c: nat)
    requires WellFormedListLine(l)
    requires '\n' !in ContinuationPrefix(l)
    requires t == before + "\n" + ContinuationPrefix(l) + after
    requires c == |before| + 1 + |ContinuationPrefix(l)|
    ensures c <= |t|
    ensures LineStartOf(t, c) == |before| + 1
    ensures MatchListLine(t[|before| + 1..c]) == Some(ListLine(l.indent, NextMarker(l.marker), l.space, []))
    ensures t[..|before| + 1] == before + "\n" && t[c..] == after
  {
    InsertedLine(before, ContinuationPrefix(l), after, t, c);
    ContinuationIsEmptyItem(l);
  }

  /** A line inserted after a line feed: its start and its text. */
  lemma {:induction false} InsertedLine(before: string, item: string, after: string, t: string, c: nat)
    requires '\n' !in item
    requires t == before + "\n" + item + after
    requires c == |before| + 1 + |item|
    ensures c <= |t|
    ensures t[|before| + 1..c] == item
    ensures LineStartOf(t, c) == |before| + 1
    ensures t[..|before| + 1] == before + "\n"
    ensures t[c..] == after
  {
    assert forall i :: |before| + 1 <= i < c ==> t[i] == item[i - |before| - 1];
    LineStartOfUnique(t, c, |before| + 1);
  }

  /** On an empty item the item is removed and the caret starts a fresh
      line. */
  lemma {:induction false} EmptyItemLeaves(value: string, caret: nat, ls: nat, l: ListLine)
    requires ls <= caret <= |value|
    requires ValidMarker(l.marker) && l.content == []
    ensures ListItemEnter(value, caret, ls, l) == Edit(value[..ls] + "\n" + value[caret..], ls + 1)
  {
  }

  /** Cutting the inserted line back out leaves a blank line. */
  lemma {:induction false} CutInsertedLine(before: string, after: string, t: string, k: nat, c: nat)
    requires k <= c <= |t|
    requires t[..k] == before + "\n" && t[c..] == after
    ensures t[..k] + "\n" + t[c..] == before + "\n\n" + after
  {
  }

  /** Enter with the caret after an empty item that starts at `k`. */
  lemma {:induction false} EnterAfterEmptyItem(t: string, c: nat, k: nat, l: ListLine)
    requires k <= c <= |t|
    requires LineStartOf(t, c) == k
    requires MatchListLine(t[k..c]) == Some(l)
    requires l.content == []
    ensures EnterEdit(t, c, c, false) == Edit(t[..k] + "\n" + t[c..], k + 1)
  {
    EnterOnListLine(t, c, c, l);
    EmptyItemLeaves(t, c, k, l);
  }

  /** Enter right after an inserted continuation prefix removes it again;
      `k` is the start of the inserted line. */
  lemma {:induction false} EnterAfterContinuation(before: string, after: string, l: ListLine, t: string, k: nat, c: nat)
    requires WellFormedListLine(l)
    requires '\n' !in ContinuationPrefix(l)
    requires t == before + "\n" + ContinuationPrefix(l) + after
    requires k == |before| + 1 && c == k + |ContinuationPrefix(l)|
    ensures k <= c <= |t|
    ensures EnterEdit(t, c, c, false) == Edit(t[..k] + "\n" + t[c..], k + 1)
    ensures t[..k] == before + "\n" && t[c..] == after
  {
    ContinuedLineIsEmptyItem(before, after, l, t, c);
    EnterAfterEmptyItem(t, c, k, ListLine(l.indent, NextMarker(l.marker), l.space, []));
  }

  /** Pressing Enter twice on a list item with content leaves the list: the
      first press gives the text `t` and caret `c`, and the second press, on
      them, removes the continuation prefix the first one inserted, so the
      two presses together insert a blank line at the caret. (`ValidMarker` follows from the match; it is stated so that
      the prefix can be named.) */
  lemma {:induction false} EnterTwiceLeavesList(value: string, caret: nat, l: ListLine, t: string, c: nat)
    requires caret <= |value|
    requires MatchListLine(value[LineStartOf(value, caret)..caret]) == Some(l)
    requires ValidMarker(l.marker)
    requires t == value[..caret] + "\n" + ContinuationPrefix(l) + value[caret..]
    requires c == caret + 1 + |ContinuationPrefix(l)|
    ensures l.content != [] ==> EnterEdit(value, caret, caret, false) == Edit(t, c)
    ensures c <= |t|
    ensures EnterEdit(t, c, c, false) == Edit(value[..caret] + "\n\n" + value[caret..], caret + 2)
  {
    if l.content != [] {
      EnterOnItemContinuesList(value, caret, caret, l);
    }
    assert WellFormedListLine(l) && '\n' !in ContinuationPrefix(l) by {
      MatchedLineIsWellFormed(value, caret, l);
      ContinuationHasNoLineFeed(value, caret, l);
    }
    ContinueThenLeaveAt(value, caret, l, t, c);
  }

  /** `ContinueThenLeave` with the text split at `caret`. */
  lemma {:induction false} ContinueThenLeaveAt(value: string, caret: nat, l: ListLine, t: string, c: nat)
    requires caret <= |value|
    requires WellFormedListLine(l)
    requires '\n' !in ContinuationPrefix(l)
    requires t == value[..caret] + "\n" + ContinuationPrefix(l) + value[caret..]
    requires c == caret + 1 + |ContinuationPrefix(l)|
    ensures c <= |t|
    ensures EnterEdit(t, c, c, false) == Edit(value[..caret] + "\n\n" + value[caret..], caret + 2)
  {
    ContinueThenLeave(value[..caret], value[caret..], l, t, c);
  }

  /** Enter right after an inserted continuation prefix leaves a blank line
      where the prefix was inserted. */
  lemma {:induction false} ContinueThenLeave(before: string, after: string, l: ListLine, t: string, c: nat)
    requires WellFormedListLine(l)
    requires '\n' !in ContinuationPrefix(l)
    requires t == before + "\n" + ContinuationPrefix(l) + after
    requires c == |before| + 1 + |ContinuationPrefix(l)|
    ensures c <= |t|
    ensures EnterEdit(t, c, c, false) == Edit(before + "\n\n" + after, |before| + 2)
  {
    EnterAfterContinuation(before, after, l, t, |before| + 1, c);
    CutInsertedLine(before, after, t, |before| + 1, c);
  }
}
