/** The document's blocks: an ordered list of records, each with an id, the
    markdown content of the block and whether it is being edited. */
module Blocks {

  datatype Block = Block(id: int, content: string, isEditing: bool)

  function Ids(bs: seq<Block>): seq<int> {
    seq(|bs|, i requires 0 <= i < |bs| => bs[i].id)
  }

  function Contents(bs: seq<Block>): seq<string> {
    seq(|bs|, i requires 0 <= i < |bs| => bs[i].content)
  }

  /** The contents of a block put in front of others. */
  lemma {:induction false} ContentsCons(b: Block, bs: seq<Block>)
    ensures Contents([b] + bs) == [b.content] + Contents(bs)
  {
    var l := Contents([b] + bs);
    var r := [b.content] + Contents(bs);
    forall i | 0 <= i < |l|
      ensures l[i] == r[i]
    {
      if i > 0 {
        assert ([b] + bs)[i] == bs[i - 1];
      }
    }
  }

  /** No two blocks share an id; the ids key the rendered blocks and pick
      the block an update or a move applies to. */
  predicate UniqueIds(bs: seq<Block>) {
    forall i, j :: 0 <= i < j < |bs| ==> bs[i].id != bs[j].id
  }

  /** At most one block is marked as being edited. */
  predicate AtMostOneEditing(bs: seq<Block>) {
    forall i, j :: 0 <= i < j < |bs| && bs[i].isEditing ==> !bs[j].isEditing
  }

  /** The invariant of the document's block list. */
  predicate WellFormed(bs: seq<Block>) {
    UniqueIds(bs) && AtMostOneEditing(bs)
  }
}
