/** The editor's document: the ordered list of blocks and the handlers the
    blocks call, which update a block's content, remove a block left blank,
    split a block by opening a new one after it, append a block and move
    the editing mark to a neighbouring block. */
module MarkdownEditor {
  import opened Wrappers
  import opened JsText
  import opened Blocks
  import opened FileOperations
  import opened MarkdownBlock

  // ------------------------------------------------------------------ ids

  /** `blocks.findIndex(block => block.id === id)`: the first position of
      a block with that id, -1 when there is none. */
  function FindIndex(bs: seq<Block>, id: int): (k: int)
    ensures -1 <= k < |bs|
    ensures k >= 0 ==> bs[k].id == id && forall j :: 0 <= j < k ==> bs[j].id != id
    ensures k == -1 ==> forall j :: 0 <= j < |bs| ==> bs[j].id != id
  {
    if bs == [] then -1
    else if bs[0].id == id then 0
    else
      var k := FindIndex(bs[1..], id);
      if k == -1 then -1 else k + 1
  }

  /** The largest id. */
  function MaxId(ids: seq<int>): (m: int)
    requires ids != []
    ensures m in ids
    ensures forall i :: 0 <= i < |ids| ==> ids[i] <= m
  {
    if |ids| == 1 then ids[0]
    else
      var m := MaxId(ids[1..]);
      assert forall i :: 1 <= i < |ids| ==> ids[i] == ids[1..][i - 1];
      if ids[0] >= m then ids[0] else m
  }

  /** The id a new block gets: one more than the largest id, the smallest
      number above every id; 1 when there are no blocks yet. */
  function NextId(ids: seq<int>): (r: int)
    ensures forall i :: 0 <= i < |ids| ==> ids[i] < r
    ensures ids != [] ==> r - 1 in ids
  {
    if ids == [] then 1 else MaxId(ids) + 1
  }

  // ------------------------------------------------- the block updates

  /** `blocks.filter(block => block.id !== id)`. */
  function WithoutBlock(bs: seq<Block>, id: int): (r: seq<Block>)
    ensures |r| <= |bs|
    ensures forall b :: b in r ==> b in bs && b.id != id
  {
    if bs == [] then []
    else (if bs[0].id == id then [] else [bs[0]]) + WithoutBlock(bs[1..], id)
  }

  /** `blocks.map(block => block.id === id ? { ...block, content } : block)`. */
  function WithContent(bs: seq<Block>, id: int, content: string): (r: seq<Block>)
    ensures |r| == |bs|
    ensures forall i :: 0 <= i < |r| ==> r[i].id == bs[i].id && r[i].isEditing == bs[i].isEditing
    ensures forall i :: 0 <= i < |r| ==> r[i].content == if bs[i].id == id then content else bs[i].content
  {
    seq(|bs|, i requires 0 <= i < |bs| =>
      if bs[i].id == id then bs[i].(content := content) else bs[i])
  }

  /** The split: an empty block marked as being edited, with id `newId`, is
      put at position `index + 1`, or last when the list is shorter than
      that (`slice` stops at the end of the list), and every other block is
      marked as not being edited. */
  function SplitAfter(bs: seq<Block>, index: int, newId: int): (r: seq<Block>)
    requires -1 <= index
    ensures |r| == |bs| + 1
    ensures var at := if index + 1 <= |bs| then index + 1 else |bs|;
      && r[at] == Block(newId, [], true)
      && (forall i :: 0 <= i < at ==> r[i].id == bs[i].id && r[i].content == bs[i].content)
      && (forall i :: at < i < |r| ==> r[i].id == bs[i - 1].id && r[i].content == bs[i - 1].content)
    ensures forall i :: 0 <= i < |r| ==> r[i].isEditing ==> r[i].id == newId
  {
    var at := if index + 1 <= |bs| then index + 1 else |bs|;
    var inserted := bs[..at] + [Block(newId, [], true)] + bs[at..];
    seq(|inserted|, i requires 0 <= i < |inserted| =>
      if inserted[i].id == newId then inserted[i] else inserted[i].(isEditing := false))
  }

  /** True when every block of `bs` has the id of a block of `snapshot`. */
  predicate IdsWithin(bs: seq<Block>, snapshot: seq<Block>) {
    forall i :: 0 <= i < |bs| ==> bs[i].id in Ids(snapshot)
  }

  /** `handleBlockUpdate(id, content, createNewBlock)` as a handler call
      queues it. `snapshot` is the list the handler was rendered with, the
      one its `blocks` refers to; `bs` is the list as queued so far, the one
      an updater function receives as `prevBlocks`. A content that trims to
      nothing sets the list to the rendered list without the block: a plain
      value, not an update of the queued list. Otherwise the queued list
      gets the content and, when asked, a new block is opened after the
      block's rendered position, with an id above every rendered id. */
  function BlockUpdate(snapshot: seq<Block>, bs: seq<Block>, id: int, content: string, createNewBlock: bool): (r: seq<Block>)
    ensures Trim(content) == [] ==> forall b :: b in r ==> b in snapshot && b.id != id
    ensures Trim(content) != [] ==> |r| == |bs| + (if createNewBlock then 1 else 0)
    ensures Trim(content) != [] && !createNewBlock ==>
      forall i :: 0 <= i < |r| ==> r[i].id == bs[i].id && (bs[i].id == id ==> r[i].content == content)
  {
    if Trim(content) == [] then WithoutBlock(snapshot, id)
    else if createNewBlock then SplitAfter(WithContent(bs, id, content), FindIndex(snapshot, id), NextId(Ids(snapshot)))
    else WithContent(bs, id, content)
  }

  /** `addNewBlock(content)`: a block with a fresh id and the content,
      not being edited, at the end. */
  function Appended(bs: seq<Block>, content: string): (r: seq<Block>)
    ensures |r| == |bs| + 1 && r[..|bs|] == bs
    ensures r[|bs|].content == content && !r[|bs|].isEditing
    ensures forall i :: 0 <= i < |bs| ==> bs[i].id < r[|bs|].id
  {
    assert forall i :: 0 <= i < |bs| ==> Ids(bs)[i] == bs[i].id;
    bs + [Block(NextId(Ids(bs)), content, false)]
  }

  /** The content `addNewBlock` uses when it is given none. */
  const DefaultNewBlockContent: string := "New block"

  /** The position `handleNavigate(id, direction)` moves to: the one before
      or after the block's, when there is one. A block that is not found
      has position -1, so moving down from it goes to the first block. */
  function NavigateTarget(bs: seq<Block>, id: int, direction: Direction): (t: Option<nat>)
    ensures t.Some? ==> t.value < |bs|
  {
    var k := FindIndex(bs, id);
    match direction
    case Up => if k > 0 then Some(k - 1) else None
    case Down => if k < |bs| - 1 then Some(k + 1) else None
  }

  /** Every block marked as not being edited but the one at position `t`. */
  function FocusOn(bs: seq<Block>, t: nat): (r: seq<Block>)
    ensures |r| == |bs|
    ensures forall i :: 0 <= i < |r| ==>
      r[i].id == bs[i].id && r[i].content == bs[i].content && (r[i].isEditing <==> i == t)
  {
    seq(|bs|, i requires 0 <= i < |bs| => bs[i].(isEditing := i == t))
  }

  /** `handleNavigate(id, direction)` as a handler call queues it: the
      target position is found in the rendered list `snapshot` and the
      queued list `bs` is refocused on that position. When `bs` is shorter
      than that, no block is left being edited. */
  function Navigated(snapshot: seq<Block>, bs: seq<Block>, id: int, direction: Direction): (r: seq<Block>)
    ensures |r| == |bs|
    ensures forall i :: 0 <= i < |r| ==> r[i].id == bs[i].id && r[i].content == bs[i].content
    ensures NavigateTarget(snapshot, id, direction).None? ==> r == bs
    ensures NavigateTarget(snapshot, id, direction).Some? ==>
      forall i :: 0 <= i < |r| ==> (r[i].isEditing <==> i == NavigateTarget(snapshot, id, direction).value)
  {
    match NavigateTarget(snapshot, id, direction)
    case None => bs
    case Some(t) => FocusOn(bs, t)
  }

  /** One call a block makes on the document, bound to the block's id. */
  function Apply(snapshot: seq<Block>, bs: seq<Block>, id: int, event: Event): (r: seq<Block>) {
    match event
    case Update(content, createNewBlock) => BlockUpdate(snapshot, bs, id, content, createNewBlock)
    case Navigate(direction) => Navigated(snapshot, bs, id, direction)
  }

  /** The calls one handler of a block makes, in order, all against the
      list the handler was rendered with. */
  function Replay(snapshot: seq<Block>, bs: seq<Block>, id: int, events: seq<Event>): (r: seq<Block>)
    decreases |events|
  {
    if events == [] then bs
    else Replay(snapshot, Apply(snapshot, bs, id, events[0]), id, events[1..])
  }

  /** The calls of one handler: a split, if any, is the last call. */
  predicate OneHandler(events: seq<Event>) {
    forall i :: 0 <= i < |events| - 1 ==> !(events[i].Update? && events[i].createNewBlock)
  }

  /** The call lists of the block's handlers: the save, followed by a split
      (Enter) or a move (the arrows), alone (blur) or the removal (the
      delete button); each is the calls of one handler. */
  lemma {:induction false} BlockHandlersAreOneHandler(editContent: string, content: string, direction: Direction)
    ensures OneHandler(SaveEvents(editContent, content) + [Update(editContent, true)])
    ensures OneHandler(SaveEvents(editContent, content) + [Navigate(direction)])
    ensures OneHandler(SaveEvents(editContent, content))
    ensures OneHandler([Update([], false)])
  {
  }

  /** The two blocks the editor starts with. */
  const InitialBlocks: seq<Block> := [
    Block(1, "# Welcome to Logos\n\nThis is a markdown editor that works like Obsidian. Click on any block to edit it.", false),
    Block(2, "## Features\n\n- Inline editing\n- Markdown preview\n- Support for **bold**, *italic*, and [links](https://example.com)\n- Lists and checkboxes", false)
  ]

  // ---------------------------------------------------------- the lemmas

  /** Removing an id no block has changes nothing. */
  lemma {:induction false} WithoutMissingBlock(bs: seq<Block>, id: int)
    requires forall j :: 0 <= j < |bs| ==> bs[j].id != id
    ensures WithoutBlock(bs, id) == bs
  {
    if bs != [] {
      WithoutMissingBlock(bs[1..], id);
      assert [bs[0]] + bs[1..] == bs;
    }
  }

  /** With distinct ids, removing the id of the block at position `k`
      takes out exactly that block and keeps the others in order. */
  lemma {:induction false} WithoutBlockAt(bs: seq<Block>, id: int, k: nat)
    requires UniqueIds(bs) && k < |bs| && bs[k].id == id
    ensures WithoutBlock(bs, id) == bs[..k] + bs[k + 1..]
  {
    UniqueTail(bs);
    if k == 0 {
      WithoutMissingBlock(bs[1..], id);
    } else {
      var tail := WithoutBlock(bs[1..], id);
      WithoutBlockAt(bs[1..], id, k - 1);
      assert bs[1..][..k - 1] == bs[1..k] && bs[1..][k..] == bs[k + 1..];
      assert tail == bs[1..k] + bs[k + 1..];
      assert bs[0].id != id;
      assert WithoutBlock(bs, id) == [bs[0]] + tail;
      DropAtSplits(bs, k);
    }
  }

  lemma {:induction false} DropAtSplits(bs: seq<Block>, k: nat)
    requires 0 < k < |bs|
    ensures bs[..k] + bs[k + 1..] == [bs[0]] + (bs[1..k] + bs[k + 1..])
  {
    assert bs[..k] == [bs[0]] + bs[1..k];
  }

  /** The blocks after the first have distinct ids, none of them the
      first block's. */
  lemma {:induction false} UniqueTail(bs: seq<Block>)
    requires UniqueIds(bs) && bs != []
    ensures UniqueIds(bs[1..])
    ensures forall j :: 0 <= j < |bs| - 1 ==> bs[1..][j].id != bs[0].id
  {
  }

  /** With distinct ids, removing by id takes out exactly the block found
      at its position and keeps the others in order; an id that is not
      there changes nothing. */
  lemma {:induction false} RemoveOneBlock(bs: seq<Block>, id: int)
    requires UniqueIds(bs)
    ensures FindIndex(bs, id) == -1 ==> WithoutBlock(bs, id) == bs
    ensures FindIndex(bs, id) >= 0 ==>
      WithoutBlock(bs, id) == bs[..FindIndex(bs, id)] + bs[FindIndex(bs, id) + 1..]
  {
    var k := FindIndex(bs, id);
    if k == -1 {
      WithoutMissingBlock(bs, id);
    } else {
      WithoutBlockAt(bs, id, k);
    }
  }

  /** Taking one block out keeps the invariant. */
  lemma {:induction false} RemoveAtKeepsInvariant(bs: seq<Block>, k: nat)
    requires WellFormed(bs) && k < |bs|
    ensures WellFormed(bs[..k] + bs[k + 1..])
  {
    var r := bs[..k] + bs[k + 1..];
    assert forall i :: 0 <= i < |r| ==> r[i] == bs[if i < k then i else i + 1];
  }

  /** Removing blocks keeps the invariant. */
  lemma {:induction false} WithoutBlockKeepsInvariant(bs: seq<Block>, id: int)
    requires WellFormed(bs)
    ensures WellFormed(WithoutBlock(bs, id))
  {
    RemoveOneBlock(bs, id);
    if FindIndex(bs, id) >= 0 {
      RemoveAtKeepsInvariant(bs, FindIndex(bs, id));
    }
  }

  /** With distinct ids, replacing the content by id changes the content
      of exactly the block found at its position; ids, order, length and
      the other blocks are unchanged. */
  lemma {:induction false} ReplaceContentOnly(bs: seq<Block>, id: int, content: string)
    requires UniqueIds(bs)
    ensures FindIndex(bs, id) == -1 ==> WithContent(bs, id, content) == bs
    ensures FindIndex(bs, id) >= 0 ==>
      WithContent(bs, id, content)
        == bs[FindIndex(bs, id) := bs[FindIndex(bs, id)].(content := content)]
  {
  }

  /** Replacing contents keeps ids and editing marks. */
  lemma {:induction false} WithContentKeepsInvariant(bs: seq<Block>, id: int, content: string)
    requires WellFormed(bs)
    ensures Ids(WithContent(bs, id, content)) == Ids(bs)
    ensures WellFormed(WithContent(bs, id, content))
  {
  }

  /** A split with an id no block has puts exactly one new block, empty and
      being edited, right after position `index`; the blocks before and
      after keep their order and fields except that none is being edited
      any more. */
  lemma {:induction false} SplitInsertsOneEditingBlock(bs: seq<Block>, index: int, newId: int)
    requires -1 <= index < |bs|
    requires forall i :: 0 <= i < |bs| ==> bs[i].id != newId
    ensures SplitAfter(bs, index, newId)[index + 1] == Block(newId, [], true)
    ensures forall i :: 0 <= i <= index ==>
      SplitAfter(bs, index, newId)[i] == bs[i].(isEditing := false)
    ensures forall i :: index + 1 < i < |bs| + 1 ==>
      SplitAfter(bs, index, newId)[i] == bs[i - 1].(isEditing := false)
    ensures forall i :: 0 <= i < |bs| + 1 ==>
      (SplitAfter(bs, index, newId)[i].isEditing <==> i == index + 1)
  {
  }

  /** A split with an id no block has keeps the ids distinct. */
  lemma {:induction false} SplitKeepsIdsUnique(bs: seq<Block>, index: int, newId: int)
    requires -1 <= index < |bs|
    requires UniqueIds(bs)
    requires forall i :: 0 <= i < |bs| ==> bs[i].id != newId
    ensures WellFormed(SplitAfter(bs, index, newId))
  {
    var r := SplitAfter(bs, index, newId);
    SplitInsertsOneEditingBlock(bs, index, newId);
    forall i, j | 0 <= i < j < |r|
      ensures r[i].id != r[j].id
    {
      if j <= index {
        assert r[i].id == bs[i].id && r[j].id == bs[j].id;
      } else if i > index + 1 {
        assert r[i].id == bs[i - 1].id && r[j].id == bs[j - 1].id;
      } else if i <= index && j > index + 1 {
        assert r[i].id == bs[i].id && r[j].id == bs[j - 1].id;
      }
    }
  }

  /** Every update keeps the ids distinct and at most one block being
      edited, as long as the queued list holds only rendered ids; every
      update but a split keeps it that way. */
  lemma {:induction false} UpdateKeepsInvariant(snapshot: seq<Block>, bs: seq<Block>, id: int, content: string, createNewBlock: bool)
    requires WellFormed(snapshot) && WellFormed(bs) && IdsWithin(bs, snapshot)
    ensures WellFormed(BlockUpdate(snapshot, bs, id, content, createNewBlock))
    ensures !(createNewBlock && Trim(content) != []) ==>
      IdsWithin(BlockUpdate(snapshot, bs, id, content, createNewBlock), snapshot)
  {
    if Trim(content) == [] {
      WithoutBlockKeepsInvariant(snapshot, id);
      WithoutBlockIdsWithin(snapshot, id);
    } else {
      var updated := WithContent(bs, id, content);
      WithContentKeepsInvariant(bs, id, content);
      assert forall i :: 0 <= i < |bs| ==> updated[i].id == bs[i].id;
      if createNewBlock {
        var index := FindIndex(snapshot, id);
        var newId := NextId(Ids(snapshot));
        NewIdIsFresh(snapshot, bs, id, content);
        if index < |updated| {
          SplitKeepsIdsUnique(updated, index, newId);
        } else {
          assert SplitAfter(updated, index, newId) == SplitAfter(updated, |updated| - 1, newId);
          SplitKeepsIdsUnique(updated, |updated| - 1, newId);
        }
      }
    }
  }

  /** The rendered list without a block holds only rendered ids. */
  lemma {:induction false} WithoutBlockIdsWithin(snapshot: seq<Block>, id: int)
    ensures IdsWithin(WithoutBlock(snapshot, id), snapshot)
  {
    var r := WithoutBlock(snapshot, id);
    forall i | 0 <= i < |r|
      ensures r[i].id in Ids(snapshot)
    {
      assert r[i] in r;
      var j :| 0 <= j < |snapshot| && snapshot[j] == r[i];
      assert Ids(snapshot)[j] == r[i].id;
    }
  }

  /** A list holds only its own ids. */
  lemma {:induction false} IdsWithinItself(bs: seq<Block>)
    ensures IdsWithin(bs, bs)
  {
    forall i | 0 <= i < |bs|
      ensures bs[i].id in Ids(bs)
    {
      assert Ids(bs)[i] == bs[i].id;
    }
  }

  /** A split of a block with non-blank content: the block gets the
      content, an empty block being edited with a fresh id follows it, and
      it is the only block being edited. */
  lemma {:induction false} SplitOpensBlockAfter(bs: seq<Block>, id: int, content: string)
    requires WellFormed(bs)
    requires Trim(content) != [] && FindIndex(bs, id) >= 0
    ensures |BlockUpdate(bs, bs, id, content, true)| == |bs| + 1
    ensures BlockUpdate(bs, bs, id, content, true)[FindIndex(bs, id)] == Block(id, content, false)
    ensures BlockUpdate(bs, bs, id, content, true)[FindIndex(bs, id) + 1] == Block(NextId(Ids(bs)), [], true)
    ensures forall i :: 0 <= i < |bs| + 1 ==>
      (BlockUpdate(bs, bs, id, content, true)[i].isEditing <==> i == FindIndex(bs, id) + 1)
  {
    var k := FindIndex(bs, id);
    var updated := WithContent(bs, id, content);
    assert updated[k] == bs[k].(content := content);
    IdsWithinItself(bs);
    NewIdIsFresh(bs, bs, id, content);
    SplitInsertsOneEditingBlock(updated, k, NextId(Ids(bs)));
  }

  /** The id a split gives the new block is not the id of any queued
      block, when the queued blocks have rendered ids. */
  lemma {:induction false} NewIdIsFresh(snapshot: seq<Block>, bs: seq<Block>, id: int, content: string)
    requires IdsWithin(bs, snapshot)
    ensures forall i :: 0 <= i < |bs| ==> WithContent(bs, id, content)[i].id != NextId(Ids(snapshot))
  {
    forall i | 0 <= i < |bs|
      ensures bs[i].id < NextId(Ids(snapshot))
    {
      var j :| 0 <= j < |snapshot| && Ids(snapshot)[j] == bs[i].id;
    }
  }

  /** Appending keeps the blocks there, puts the content last under an id
      no block has, and keeps the invariant. */
  lemma {:induction false} AppendAddsFreshBlock(bs: seq<Block>, content: string)
    requires WellFormed(bs)
    ensures Appended(bs, content)[..|bs|] == bs
    ensures |Appended(bs, content)| == |bs| + 1
    ensures Appended(bs, content)[|bs|].content == content
    ensures forall i :: 0 <= i < |bs| ==> bs[i].id != Appended(bs, content)[|bs|].id
    ensures WellFormed(Appended(bs, content))
  {
    assert forall i :: 0 <= i < |bs| ==> bs[i].id == Ids(bs)[i];
  }

  /** Moving up from the first block or down from the last does nothing. */
  lemma {:induction false} NavigateAtEdgeIsNoOp(bs: seq<Block>, id: int, direction: Direction)
    requires (direction == Up && FindIndex(bs, id) == 0)
          || (direction == Down && FindIndex(bs, id) == |bs| - 1)
    ensures Navigated(bs, bs, id, direction) == bs
  {
  }

  /** Moving from a block to a neighbour marks exactly that neighbour as
      being edited and keeps ids, contents and order. */
  lemma {:induction false} NavigateFocusesNeighbour(bs: seq<Block>, id: int, direction: Direction)
    requires 0 <= FindIndex(bs, id)
    requires direction == Up ==> FindIndex(bs, id) > 0
    requires direction == Down ==> FindIndex(bs, id) < |bs| - 1
    ensures var t := if direction == Up then FindIndex(bs, id) - 1 else FindIndex(bs, id) + 1;
      var r := Navigated(bs, bs, id, direction);
      && Ids(r) == Ids(bs) && Contents(r) == Contents(bs)
      && forall i :: 0 <= i < |r| ==> (r[i].isEditing <==> i == t)
  {
  }

  /** Moving down from a block that is not there marks the first block as
      being edited. */
  lemma {:induction false} NavigateDownFromMissingBlock(bs: seq<Block>, id: int)
    requires FindIndex(bs, id) == -1 && bs != []
    ensures forall i :: 0 <= i < |bs| ==> (Navigated(bs, bs, id, Down)[i].isEditing <==> i == 0)
  {
  }

  /** Moving keeps the ids, the contents and the invariant of the queued
      list, whatever list the target is found in. */
  lemma {:induction false} NavigateKeepsInvariant(snapshot: seq<Block>, bs: seq<Block>, id: int, direction: Direction)
    requires WellFormed(bs)
    ensures Ids(Navigated(snapshot, bs, id, direction)) == Ids(bs)
    ensures Contents(Navigated(snapshot, bs, id, direction)) == Contents(bs)
    ensures WellFormed(Navigated(snapshot, bs, id, direction))
  {
  }

  // ------------------------------------ the calls of one handler together

  /** With distinct ids, the id of the block at position `k` is found at
      `k`. */
  lemma {:induction false} FindIndexOfUnique(bs: seq<Block>, k: nat)
    requires UniqueIds(bs) && k < |bs|
    ensures FindIndex(bs, bs[k].id) == k
  {
  }

  /** Saving a block whose text was emptied takes exactly that block out of
      the rendered list. */
  lemma {:induction false} EmptiedBlockIsRemoved(snapshot: seq<Block>, k: nat, c: string)
    requires WellFormed(snapshot) && k < |snapshot| && Trim(c) == []
    ensures BlockUpdate(snapshot, snapshot, snapshot[k].id, c, false) == snapshot[..k] + snapshot[k + 1..]
    ensures WellFormed(snapshot[..k] + snapshot[k + 1..])
  {
    WithoutBlockAt(snapshot, snapshot[k].id, k);
    RemoveAtKeepsInvariant(snapshot, k);
  }

  /** A save call followed by a move call, both of one handler. */
  lemma {:induction false} ReplaySaveThenMove(snapshot: seq<Block>, id: int, c: string, direction: Direction)
    ensures Replay(snapshot, snapshot, id, [Update(c, false), Navigate(direction)])
      == Navigated(snapshot, BlockUpdate(snapshot, snapshot, id, c, false), id, direction)
  {
    var events := [Update(c, false), Navigate(direction)];
    var saved := BlockUpdate(snapshot, snapshot, id, c, false);
    assert events[1..] == [Navigate(direction)] && events[1..][1..] == [];
    assert Replay(snapshot, snapshot, id, events) == Replay(snapshot, saved, id, events[1..]);
    assert Replay(snapshot, saved, id, events[1..])
      == Replay(snapshot, Navigated(snapshot, saved, id, direction), id, []);
  }

  /** A save call that empties the block at position `k` followed by a
      move call to position `t` of the rendered list: the block is removed
      and the remaining list is focused on position `t`. */
  lemma {:induction false} SaveEmptyThenMove(snapshot: seq<Block>, k: nat, c: string, direction: Direction, t: nat)
    requires WellFormed(snapshot) && k < |snapshot| && Trim(c) == []
    requires NavigateTarget(snapshot, snapshot[k].id, direction) == Some(t)
    ensures Replay(snapshot, snapshot, snapshot[k].id, [Update(c, false), Navigate(direction)])
         == FocusOn(snapshot[..k] + snapshot[k + 1..], t)
  {
    EmptiedBlockIsRemoved(snapshot, k, c);
    ReplaySaveThenMove(snapshot, snapshot[k].id, c, direction);
  }

  /** Focusing a list with distinct ids on one of its positions keeps ids
      and contents, and exactly the block with that position's id is being
      edited. */
  lemma {:induction false} FocusOnPosition(bs: seq<Block>, t: nat)
    requires UniqueIds(bs) && t < |bs|
    ensures Ids(FocusOn(bs, t)) == Ids(bs) && Contents(FocusOn(bs, t)) == Contents(bs)
    ensures forall i :: 0 <= i < |bs| ==> (FocusOn(bs, t)[i].isEditing <==> bs[i].id == bs[t].id)
  {
  }

  /** ArrowUp at the start of a block whose text was emptied: the save call
      removes the block and the move call opens the block that was above
      it, the only block then being edited. */
  lemma {:induction false} ArrowUpFromEmptiedBlock(snapshot: seq<Block>, k: nat, c: string)
    requires WellFormed(snapshot) && 0 < k < |snapshot| && Trim(c) == []
    ensures var r := Replay(snapshot, snapshot, snapshot[k].id, [Update(c, false), Navigate(Up)]);
      && Ids(r) == Ids(snapshot[..k] + snapshot[k + 1..])
      && Contents(r) == Contents(snapshot[..k] + snapshot[k + 1..])
      && forall i :: 0 <= i < |r| ==> (r[i].isEditing <==> r[i].id == snapshot[k - 1].id)
  {
    var removed := snapshot[..k] + snapshot[k + 1..];
    FindIndexOfUnique(snapshot, k);
    SaveEmptyThenMove(snapshot, k, c, Up, k - 1);
    EmptiedBlockIsRemoved(snapshot, k, c);
    FocusOnPosition(removed, k - 1);
    assert removed[k - 1] == snapshot[k - 1];
  }

  /** ArrowDown at the end of a block whose text was emptied, as written:
      the save call removes the block, which moves every later block up one
      place, and the move call opens the block at the position after the
      removed block's, which is the block two below it in the rendered
      list; when the removed block was second to last, no block is opened. */
  lemma {:induction false} ArrowDownFromEmptiedBlockAsWritten(snapshot: seq<Block>, k: nat, c: string)
    requires WellFormed(snapshot) && k < |snapshot| - 1 && Trim(c) == []
    ensures var r := Replay(snapshot, snapshot, snapshot[k].id, [Update(c, false), Navigate(Down)]);
      && Ids(r) == Ids(snapshot[..k] + snapshot[k + 1..])
      && forall i :: 0 <= i < |r| ==>
           (r[i].isEditing <==> k + 2 < |snapshot| && r[i].id == snapshot[k + 2].id)
  {
    var removed := snapshot[..k] + snapshot[k + 1..];
    FindIndexOfUnique(snapshot, k);
    SaveEmptyThenMove(snapshot, k, c, Down, k + 1);
    EmptiedBlockIsRemoved(snapshot, k, c);
    if k + 2 < |snapshot| {
      FocusOnPosition(removed, k + 1);
      assert removed[k + 1] == snapshot[k + 2];
    } else {
      NoBlockFocused(removed, k + 1);
    }
  }

  /** Focusing a list on a position past its end keeps its ids and leaves
      no block being edited. */
  lemma {:induction false} NoBlockFocused(bs: seq<Block>, t: nat)
    requires |bs| <= t
    ensures Ids(FocusOn(bs, t)) == Ids(bs)
    ensures forall i :: 0 <= i < |bs| ==> !FocusOn(bs, t)[i].isEditing
  {
  }

  /** Four blocks; the second is emptied and ArrowDown pressed at its end:
      the fourth block is opened and the third, which was right below the
      emptied block, is skipped. */
  lemma {:induction false} ArrowDownSkipsBlockAsWritten()
    ensures var bs := [Block(1, "a", false), Block(2, "b", false), Block(3, "c", false), Block(4, "d", false)];
      var r := Replay(bs, bs, 2, [Update([], false), Navigate(Down)]);
      && |r| == 3 && r[1] == Block(3, "c", false) && r[2] == Block(4, "d", true)
  {
    var bs := [Block(1, "a", false), Block(2, "b", false), Block(3, "c", false), Block(4, "d", false)];
    var removed := [Block(1, "a", false), Block(3, "c", false), Block(4, "d", false)];
    assert WellFormed(bs);
    assert Trim([]) == [];
    EmptiedBlockIsRemoved(bs, 1, []);
    assert bs[..1] + bs[2..] == removed;
    FindIndexOfUnique(bs, 1);
    ReplaySaveThenMove(bs, 2, [], Down);
    assert NavigateTarget(bs, 2, Down) == Some(2);
    var r := FocusOn(removed, 2);
    assert r[1] == Block(3, "c", false) && r[2] == Block(4, "d", true);
  }

  /** Every block marked as not being edited but the one with id `target`. */
  function FocusOnId(bs: seq<Block>, target: int): (r: seq<Block>)
    ensures |r| == |bs|
    ensures forall i :: 0 <= i < |r| ==>
      r[i].id == bs[i].id && r[i].content == bs[i].content && (r[i].isEditing <==> bs[i].id == target)
  {
    seq(|bs|, i requires 0 <= i < |bs| => bs[i].(isEditing := bs[i].id == target))
  }

  /** The move with the target taken by id rather than by position: the
      block found next to the moving block in the rendered list is the one
      opened in the queued list, wherever it stands there now. */
  function NavigatedById(snapshot: seq<Block>, bs: seq<Block>, id: int, direction: Direction): (r: seq<Block>) {
    match NavigateTarget(snapshot, id, direction)
    case None => bs
    case Some(t) => FocusOnId(bs, snapshot[t].id)
  }

  /** When nothing was queued before the move, taking the target by id
      moves exactly as the code does. */
  lemma {:induction false} NavigatedByIdOnRenderedList(bs: seq<Block>, id: int, direction: Direction)
    requires UniqueIds(bs)
    ensures NavigatedById(bs, bs, id, direction) == Navigated(bs, bs, id, direction)
  {
    match NavigateTarget(bs, id, direction)
    case None =>
    case Some(t) =>
      var a, b := FocusOnId(bs, bs[t].id), FocusOn(bs, t);
      forall i | 0 <= i < |bs|
        ensures a[i] == b[i]
      {
        assert bs[i].id == bs[t].id <==> i == t;
      }
  }

  /** An arrow key at the edge of a block whose text was emptied, with the
      target taken by id: the block removed, the block that was right above
      (ArrowUp) or right below (ArrowDown) it is opened, and it is the only
      block being edited. */
  lemma {:induction false} ArrowFromEmptiedBlockById(snapshot: seq<Block>, k: nat, c: string, direction: Direction)
    requires WellFormed(snapshot) && k < |snapshot| && Trim(c) == []
    requires direction == Up ==> k > 0
    requires direction == Down ==> k < |snapshot| - 1
    ensures var t := if direction == Up then k - 1 else k + 1;
      var r := NavigatedById(snapshot, BlockUpdate(snapshot, snapshot, snapshot[k].id, c, false), snapshot[k].id, direction);
      && Ids(r) == Ids(snapshot[..k] + snapshot[k + 1..])
      && snapshot[t].id in Ids(r)
      && forall i :: 0 <= i < |r| ==> (r[i].isEditing <==> r[i].id == snapshot[t].id)
  {
    var t := if direction == Up then k - 1 else k + 1;
    var removed := snapshot[..k] + snapshot[k + 1..];
    EmptiedBlockIsRemoved(snapshot, k, c);
    FindIndexOfUnique(snapshot, k);
    var r := FocusOnId(removed, snapshot[t].id);
    assert NavigatedById(snapshot, removed, snapshot[k].id, direction) == r;
    var at := if t < k then t else t - 1;
    assert removed[at] == snapshot[t];
    assert Ids(r)[at] == snapshot[t].id;
  }

  // ------------------------------------------- new ids as JavaScript has them

  /** A JavaScript number as far as the id arithmetic goes: a whole number,
      or the -Infinity that `Math.max()` gives for no arguments. */
  datatype JsNumber = Finite(value: int) | NegativeInfinity

  /** `Math.max(...ns)`. */
  function JsMax(ns: seq<JsNumber>): (r: JsNumber)
    ensures ns == [] ==> r == NegativeInfinity
    ensures forall i :: 0 <= i < |ns| && ns[i].Finite? ==> r.Finite? && ns[i].value <= r.value
    ensures r.Finite? ==> r in ns
  {
    if ns == [] then NegativeInfinity
    else
      var m := JsMax(ns[1..]);
      assert forall i :: 1 <= i < |ns| ==> ns[i] == ns[1..][i - 1];
      if m.NegativeInfinity? || (ns[0].Finite? && ns[0].value >= m.value) then ns[0] else m
  }

  /** `n + 1`; -Infinity stays -Infinity. */
  function JsPlusOne(n: JsNumber): JsNumber {
    match n
    case Finite(v) => Finite(v + 1)
    case NegativeInfinity => NegativeInfinity
  }

  /** A block whose id is a JavaScript number. */
  datatype JsBlock = JsBlock(id: JsNumber, content: string)

  function JsIds(bs: seq<JsBlock>): seq<JsNumber> {
    seq(|bs|, i requires 0 <= i < |bs| => bs[i].id)
  }

  /** `addNewBlock(content)` as written: the new id is
      `Math.max(...ids) + 1`, whatever the blocks are. */
  function AppendedAsWritten(bs: seq<JsBlock>, content: string): (r: seq<JsBlock>)
    ensures |r| == |bs| + 1 && r[..|bs|] == bs && r[|bs|].content == content
  {
    bs + [JsBlock(JsPlusOne(JsMax(JsIds(bs))), content)]
  }

  /** On blocks with whole-number ids, at least one of them, the new id as
      written is the one `NextId` gives. */
  lemma {:induction false} AsWrittenAgreesOnBlocks(bs: seq<Block>, content: string)
    requires bs != []
    ensures var js := seq(|bs|, i requires 0 <= i < |bs| => JsBlock(Finite(bs[i].id), bs[i].content));
      AppendedAsWritten(js, content)[|bs|].id == Finite(NextId(Ids(bs)))
  {
    var js := seq(|bs|, i requires 0 <= i < |bs| => JsBlock(Finite(bs[i].id), bs[i].content));
    var m := JsMax(JsIds(js));
    assert JsIds(js)[0] == Finite(bs[0].id);
    assert m.Finite?;
    assert m.value in Ids(bs) by {
      var k :| 0 <= k < |js| && JsIds(js)[k] == m;
      assert Ids(bs)[k] == m.value;
    }
    assert forall i :: 0 <= i < |bs| ==> Ids(bs)[i] <= m.value by {
      assert forall i :: 0 <= i < |bs| ==> JsIds(js)[i] == Finite(Ids(bs)[i]);
    }
    var n := NextId(Ids(bs));
    assert n - 1 in Ids(bs);
  }

  /** Adding two blocks to a document with no blocks, as written, gives
      both the id -Infinity: the ids are no longer distinct. */
  lemma {:induction false} AppendTwiceToEmptyAsWritten(a: string, b: string)
    ensures var bs := AppendedAsWritten(AppendedAsWritten([], a), b);
      |bs| == 2 && bs[0].id == bs[1].id == NegativeInfinity
  {
    var one := AppendedAsWritten([], a);
    assert JsIds(one) == [NegativeInfinity];
    assert JsMax(JsIds(one)) == NegativeInfinity;
  }

  // ---------------------------------------------------------- the document

  class Document {
    var blocks: seq<Block>

    predicate Valid()
      reads this
    {
      WellFormed(blocks)
    }

    /** The editor opens with its two welcome blocks. */
    constructor()
      ensures blocks == InitialBlocks
      ensures Valid()
    {
      blocks := InitialBlocks;
    }

    /** `handleBlockUpdate(blockId, newContent, createNewBlock)` called from
        a handler rendered with the list `snapshot`. */
    method UpdateBlock(snapshot: seq<Block>, blockId: int, newContent: string, createNewBlock: bool)
      requires Valid() && WellFormed(snapshot) && IdsWithin(blocks, snapshot)
      modifies this
      ensures Valid()
      ensures blocks == BlockUpdate(snapshot, old(blocks), blockId, newContent, createNewBlock)
      ensures !(createNewBlock && Trim(newContent) != []) ==> IdsWithin(blocks, snapshot)
    {
      UpdateKeepsInvariant(snapshot, blocks, blockId, newContent, createNewBlock);
      if Trim(newContent) == [] {
        blocks := WithoutBlock(snapshot, blockId);
        return;
      }
      blocks := WithContent(blocks, blockId, newContent);
      if createNewBlock {
        var newId := NextId(Ids(snapshot));
        var blockIndex := FindIndex(snapshot, blockId);
        blocks := SplitAfter(blocks, blockIndex, newId);
      }
    }

    /** `addNewBlock(content)` called from a handler rendered with the list
        `snapshot`; `DefaultNewBlockContent` is what the add button passes.
        The list is set to a value built from `snapshot`, so whatever was
        queued before is dropped. */
    method AddNewBlock(snapshot: seq<Block>, content: string)
      requires WellFormed(snapshot)
      modifies this
      ensures Valid()
      ensures blocks == Appended(snapshot, content)
    {
      AppendAddsFreshBlock(snapshot, content);
      var newId := NextId(Ids(snapshot));
      blocks := snapshot + [Block(newId, content, false)];
    }

    /** `handleNavigate(blockId, direction)` called from a handler rendered
        with the list `snapshot`. */
    method Navigate(snapshot: seq<Block>, blockId: int, direction: Direction)
      requires Valid()
      modifies this
      ensures Valid()
      ensures blocks == Navigated(snapshot, old(blocks), blockId, direction)
      ensures IdsWithin(old(blocks), snapshot) ==> IdsWithin(blocks, snapshot)
    {
      NavigateKeepsInvariant(snapshot, blocks, blockId, direction);
      ghost var before := blocks;
      var target := NavigateTarget(snapshot, blockId, direction);
      if target.Some? {
        blocks := FocusOn(blocks, target.value);
      }
      assert forall i :: 0 <= i < |blocks| ==> blocks[i].id == before[i].id;
    }

    /** One call of a block's `onUpdate` or `onNavigate`, which are bound to
        the block's id. */
    method OnBlockEvent(snapshot: seq<Block>, blockId: int, event: Event)
      requires Valid() && WellFormed(snapshot) && IdsWithin(blocks, snapshot)
      modifies this
      ensures Valid()
      ensures blocks == Apply(snapshot, old(blocks), blockId, event)
      ensures !(event.Update? && event.createNewBlock) ==> IdsWithin(blocks, snapshot)
    {
      match event
      case Update(c, createNewBlock) => UpdateBlock(snapshot, blockId, c, createNewBlock);
      case Navigate(direction) => Navigate(snapshot, blockId, direction);
    }

    /** The calls one handler of a block makes, in order, all from the
        render with the list `snapshot`. */
    method OnBlockEvents(snapshot: seq<Block>, blockId: int, events: seq<Event>)
      requires Valid() && WellFormed(snapshot) && IdsWithin(blocks, snapshot)
      requires OneHandler(events)
      modifies this
      ensures Valid()
      ensures blocks == Replay(snapshot, old(blocks), blockId, events)
    {
      var k := 0;
      while k < |events|
        invariant k <= |events|
        invariant Valid()
        invariant k < |events| ==> IdsWithin(blocks, snapshot)
        invariant Replay(snapshot, blocks, blockId, events[k..]) == Replay(snapshot, old(blocks), blockId, events)
      {
        assert events[k..][1..] == events[k + 1..];
        OnBlockEvent(snapshot, blockId, events[k]);
        k := k + 1;
      }
      assert events[k..] == [];
    }

    /** Opening a file replaces the blocks with the parsed document; the
        clock readings are passed in. */
    method Open(markdown: string, clock: nat -> int)
      requires RunsForward(clock)
      modifies this
      ensures Valid()
      ensures blocks == ParseMarkdownToBlocks(markdown, clock)
    {
      blocks := ParseMarkdownToBlocks(markdown, clock);
    }
  }
}
