/** Conversion between a markdown document and the editor's blocks: the
    document is cut at every run of two or more line feeds, blank pieces
    are dropped, the rest are trimmed and numbered from a time stamp; the
    blocks are written back with one blank line between neighbours. */
module FileOperations {
  import opened JsText
  import opened Blocks

  // ------------------------------------------------------------ splitting

  /** `s` with the line feeds it starts with cut off. */
  function DropLineFeeds(s: string): (r: string)
    ensures |r| <= |s| && r == s[|s| - |r|..]
    ensures r == [] || r[0] != '\n'
    ensures forall i :: 0 <= i < |s| - |r| ==> s[i] == '\n'
  {
    if s != [] && s[0] == '\n' then DropLineFeeds(s[1..]) else s
  }

  /** Putting a character in front of a string without a blank line makes
      no blank line unless both the character and the string's first
      character are line feeds. */
  lemma {:induction false} ConsNoBlankLine(c: char, t: string)
    requires !HasBlankLine(t)
    requires c == '\n' ==> t == [] || t[0] != '\n'
    ensures !HasBlankLine([c] + t)
  {
    var s := [c] + t;
    forall i | 0 < i < |s| - 1
      ensures !(s[i] == '\n' && s[i + 1] == '\n')
    {
      assert s[i] == t[i - 1] && s[i + 1] == t[i];
    }
  }

  /** `s.split(/\n\n+/)`: the pieces of `s` between runs of two or more
      line feeds, in order. A run is always taken whole, so no piece holds
      a blank line; a run at either end leaves an empty piece there. */
  function SplitOnBlankLines(s: string): (r: seq<string>)
    ensures |r| >= 1
    ensures |r[0]| <= |s| && r[0] == s[..|r[0]|]
    ensures forall i :: 0 <= i < |r| ==> !HasBlankLine(r[i])
    decreases |s|
  {
    if s == [] then [[]]
    else if |s| >= 2 && s[0] == '\n' && s[1] == '\n' then [[]] + SplitOnBlankLines(DropLineFeeds(s))
    else
      var rest := SplitOnBlankLines(s[1..]);
      ConsNoBlankLine(s[0], rest[0]);
      [[s[0]] + rest[0]] + rest[1..]
  }

  /** Dropping the first character of a string keeps it free of blank
      lines. */
  lemma {:induction false} NoBlankLineTail(s: string)
    requires s != [] && !HasBlankLine(s)
    ensures !HasBlankLine(s[1..])
  {
    forall i | 0 <= i < |s[1..]| - 1
      ensures !(s[1..][i] == '\n' && s[1..][i + 1] == '\n')
    {
      assert s[1..][i] == s[i + 1] && s[1..][i + 1] == s[i + 2];
    }
  }

  /** A string without a blank line is a single piece. */
  lemma {:induction false} SplitWithoutBlankLine(s: string)
    requires !HasBlankLine(s)
    ensures SplitOnBlankLines(s) == [s]
  {
    if s != [] {
      assert !(|s| >= 2 && s[0] == '\n' && s[1] == '\n') by {
        if |s| >= 2 {
          assert !(s[0] == '\n' && s[0 + 1] == '\n');
        }
      }
      NoBlankLineTail(s);
      SplitWithoutBlankLine(s[1..]);
      assert [s[0]] + s[1..] == s;
    }
  }

  /** A piece that ends in something other than a line feed, then a blank
      line, then text that does not start with a line feed: the split
      yields the piece, then the pieces of the rest. */
  lemma {:induction false} SplitAfterPiece(a: string, b: string)
    requires !HasBlankLine(a)
    requires a == [] || a[|a| - 1] != '\n'
    requires b == [] || b[0] != '\n'
    ensures SplitOnBlankLines(a + "\n\n" + b) == [a] + SplitOnBlankLines(b)
    decreases |a|
  {
    var s := a + "\n\n" + b;
    if a == [] {
      SplitAfterBlankLine(b);
      assert s == "\n\n" + b;
    } else {
      assert !(|s| >= 2 && s[0] == '\n' && s[1] == '\n') by {
        if |a| == 1 {
          assert s[0] == a[0] && a[0] != '\n';
        } else {
          assert s[0] == a[0] && s[1] == a[1];
          assert !(a[0] == '\n' && a[0 + 1] == '\n');
        }
      }
      NoBlankLineTail(a);
      assert s[1..] == a[1..] + "\n\n" + b;
      var rest := SplitOnBlankLines(s[1..]);
      SplitAfterPiece(a[1..], b);
      assert rest[0] == a[1..] && rest[1..] == SplitOnBlankLines(b);
      assert SplitOnBlankLines(s) == [[s[0]] + rest[0]] + rest[1..];
      assert [s[0]] + a[1..] == a;
    }
  }

  /** A blank line in front of text that does not start with a line feed
      splits off an empty piece. */
  lemma {:induction false} SplitAfterBlankLine(b: string)
    requires b == [] || b[0] != '\n'
    ensures SplitOnBlankLines("\n\n" + b) == [[]] + SplitOnBlankLines(b)
  {
    var s := "\n\n" + b;
    assert DropLineFeeds(s) == b by {
      assert s[1..][1..] == b;
    }
  }

  /** A piece the split can give back unchanged between blank lines:
      not empty, without a blank line, and neither starting nor ending with
      a line feed. */
  predicate CleanPiece(c: string) {
    c != [] && c[0] != '\n' && c[|c| - 1] != '\n' && !HasBlankLine(c)
  }

  /** Joining clean pieces with blank lines and splitting the result gives
      the pieces back. */
  lemma {:induction false} SplitJoinedPieces(cs: seq<string>)
    requires |cs| >= 1
    requires forall i :: 0 <= i < |cs| ==> CleanPiece(cs[i])
    ensures SplitOnBlankLines(Join(cs, "\n\n")) == cs
  {
    if |cs| == 1 {
      SplitWithoutBlankLine(cs[0]);
    } else {
      SplitJoinedPieces(cs[1..]);
      var rest := Join(cs[1..], "\n\n");
      assert rest == [] || rest[0] != '\n' by {
        JoinStartsWithFirst(cs[1..], "\n\n");
      }
      assert Join(cs, "\n\n") == cs[0] + "\n\n" + rest;
      SplitAfterPiece(cs[0], rest);
      assert cs == [cs[0]] + cs[1..];
    }
  }

  /** A join of pieces starts with the first piece. */
  lemma {:induction false} JoinStartsWithFirst(cs: seq<string>, sep: string)
    requires |cs| >= 1
    ensures |cs[0]| <= |Join(cs, sep)| && Join(cs, sep)[..|cs[0]|] == cs[0]
  {
    if |cs| > 1 {
      assert Join(cs, sep) == cs[0] + (sep + Join(cs[1..], sep));
    }
  }

  // ----------------------------------------------------------- parsing

  /** Trimming twice trims no more than trimming once. */
  lemma {:induction false} TrimIdempotent(s: string)
    ensures Trim(Trim(s)) == Trim(s)
  {
    TrimmedIsFixedPoint(Trim(s));
  }

  /** A content that survives the round trip: not empty, its own trim, and
      without a blank line. */
  predicate CleanContent(c: string) {
    c != [] && Trim(c) == c && !HasBlankLine(c)
  }

  /** A piece that is not blank trims to a clean content. */
  lemma {:induction false} TrimmedPieceIsClean(p: string)
    requires !HasBlankLine(p) && Trim(p) != []
    ensures CleanContent(Trim(p))
  {
    TrimIdempotent(p);
    TrimKeepsNoBlankLine(p);
  }

  /** The blocks of the pieces that are not blank, trimmed, in their
      order; the block at position `index` of the result list gets the id
      `clock(index) + index`, the clock reading taken for it plus its
      position. */
  function PiecesToBlocks(pieces: seq<string>, clock: nat -> int, index: nat): (r: seq<Block>)
    ensures |r| <= |pieces|
    ensures forall i :: 0 <= i < |r| ==> r[i].id == clock(index + i) + index + i && !r[i].isEditing
  {
    if pieces == [] then []
    else if Trim(pieces[0]) == [] then PiecesToBlocks(pieces[1..], clock, index)
    else
      var rest := PiecesToBlocks(pieces[1..], clock, index + 1);
      var first := Block(clock(index) + index, Trim(pieces[0]), false);
      StampedCons(first, rest, clock, index);
      [first] + rest
  }

  /** Blocks stamped from position `index + 1` on, after one stamped at
      `index`, are stamped from position `index` on. */
  lemma {:induction false} StampedCons(first: Block, rest: seq<Block>, clock: nat -> int, index: nat)
    requires first.id == clock(index) + index && !first.isEditing
    requires forall i :: 0 <= i < |rest| ==> rest[i].id == clock(index + 1 + i) + index + 1 + i && !rest[i].isEditing
    ensures forall i :: 0 <= i < |[first] + rest| ==>
      ([first] + rest)[i].id == clock(index + i) + index + i && !([first] + rest)[i].isEditing
  {
    forall i | 1 <= i < |[first] + rest|
      ensures ([first] + rest)[i].id == clock(index + i) + index + i
    {
      assert ([first] + rest)[i] == rest[i - 1];
      assert index + 1 + (i - 1) == index + i;
    }
  }

  /** Every block made from pieces has a clean content. */
  lemma {:induction false} PiecesToBlocksClean(pieces: seq<string>, clock: nat -> int, index: nat)
    requires forall i :: 0 <= i < |pieces| ==> !HasBlankLine(pieces[i])
    ensures forall i :: 0 <= i < |PiecesToBlocks(pieces, clock, index)| ==>
      CleanContent(PiecesToBlocks(pieces, clock, index)[i].content)
  {
    if pieces != [] {
      if Trim(pieces[0]) == [] {
        PiecesToBlocksClean(pieces[1..], clock, index);
      } else {
        PiecesToBlocksClean(pieces[1..], clock, index + 1);
        TrimmedPieceIsClean(pieces[0]);
      }
    }
  }

  /** True when the clock never reads less than it read before. */
  ghost predicate RunsForward(clock: nat -> int) {
    forall i: nat, j: nat :: i <= j ==> clock(i) <= clock(j)
  }

  /** `parseMarkdownToBlocks`. `Date.now()` is read once for every block
      made; `clock(i)` is the reading taken for the block at position `i`.
      An empty document has no blocks; otherwise the pieces between blank
      lines that are not blank become blocks in order, trimmed, not being
      edited, the block at position `i` with id `clock(i) + i`. The ids are
      distinct when the clock runs forward. */
  function ParseMarkdownToBlocks(markdown: string, clock: nat -> int): (r: seq<Block>)
    ensures markdown == [] ==> r == []
    ensures forall i :: 0 <= i < |r| ==> r[i].id == clock(i) + i && !r[i].isEditing
    ensures forall i :: 0 <= i < |r| ==> CleanContent(r[i].content)
    ensures RunsForward(clock) ==> WellFormed(r)
  {
    if markdown == [] then []
    else
      PiecesToBlocksClean(SplitOnBlankLines(markdown), clock, 0);
      PiecesToBlocks(SplitOnBlankLines(markdown), clock, 0)
  }

  /** `blocksToMarkdown`: the contents with a blank line between
      neighbours. Its contract is stated by `MarkdownLength`,
      `JoinedBlankLines` and `RoundTrip`. */
  function BlocksToMarkdown(bs: seq<Block>): string {
    Join(Contents(bs), "\n\n")
  }

  // -------------------------------------------------------- properties

  /** Clean pieces all become blocks, in order and unchanged. */
  lemma {:induction false} PiecesToBlocksOfClean(pieces: seq<string>, clock: nat -> int, index: nat)
    requires forall i :: 0 <= i < |pieces| ==> !HasBlankLine(pieces[i]) && CleanContent(pieces[i])
    ensures Contents(PiecesToBlocks(pieces, clock, index)) == pieces
  {
    if pieces != [] {
      var rest := pieces[1..];
      PiecesToBlocksOfClean(rest, clock, index + 1);
      CleanHeadBecomesBlock(pieces, clock, index);
    }
  }

  /** A clean first piece becomes the first block unchanged. */
  lemma {:induction false} CleanHeadBecomesBlock(pieces: seq<string>, clock: nat -> int, index: nat)
    requires pieces != [] && CleanContent(pieces[0])
    requires forall i :: 0 <= i < |pieces| ==> !HasBlankLine(pieces[i])
    ensures Contents(PiecesToBlocks(pieces, clock, index))
      == [pieces[0]] + Contents(PiecesToBlocks(pieces[1..], clock, index + 1))
  {
    var rest := PiecesToBlocks(pieces[1..], clock, index + 1);
    var first := Block(clock(index) + index, pieces[0], false);
    assert Trim(pieces[0]) == pieces[0] != [];
    assert PiecesToBlocks(pieces, clock, index) == [first] + rest;
    ContentsCons(first, rest);
  }

  lemma {:induction false} CleanContentIsCleanPiece(c: string)
    requires CleanContent(c)
    ensures CleanPiece(c)
  {
    TrimmedIsFixedPoint(c);
  }

  /** Writing blocks out and reading them back gives their contents back,
      in order, when every content is clean. */
  lemma {:induction false} RoundTrip(bs: seq<Block>, clock: nat -> int)
    requires forall i :: 0 <= i < |bs| ==> CleanContent(bs[i].content)
    ensures Contents(ParseMarkdownToBlocks(BlocksToMarkdown(bs), clock)) == Contents(bs)
  {
    var cs := Contents(bs);
    if bs != [] {
      forall i | 0 <= i < |cs|
        ensures CleanPiece(cs[i])
      {
        CleanContentIsCleanPiece(cs[i]);
      }
      assert BlocksToMarkdown(bs) != [] by {
        JoinStartsWithFirst(cs, "\n\n");
      }
      SplitJoinedPieces(cs);
      PiecesToBlocksOfClean(cs, clock, 0);
    }
  }

  /** Reading back what the parsed blocks write out gives the same blocks,
      whatever the lengths of the original runs of line feeds were. */
  lemma {:induction false} ReparseIsStable(markdown: string, clock: nat -> int)
    ensures ParseMarkdownToBlocks(BlocksToMarkdown(ParseMarkdownToBlocks(markdown, clock)), clock)
         == ParseMarkdownToBlocks(markdown, clock)
  {
    var bs := ParseMarkdownToBlocks(markdown, clock);
    RoundTrip(bs, clock);
    SameStampsSameBlocks(ParseMarkdownToBlocks(BlocksToMarkdown(bs), clock), bs, clock);
  }

  /** Two lists of parsed blocks with the same contents are the same list:
      ids and flags follow from the positions. */
  lemma {:induction false} SameStampsSameBlocks(rs: seq<Block>, bs: seq<Block>, clock: nat -> int)
    requires forall i :: 0 <= i < |rs| ==> rs[i].id == clock(i) + i && !rs[i].isEditing
    requires forall i :: 0 <= i < |bs| ==> bs[i].id == clock(i) + i && !bs[i].isEditing
    requires Contents(rs) == Contents(bs)
    ensures rs == bs
  {
    assert |rs| == |Contents(rs)| == |Contents(bs)| == |bs|;
    forall i | 0 <= i < |bs|
      ensures rs[i] == bs[i]
    {
      assert rs[i].content == Contents(rs)[i] == Contents(bs)[i] == bs[i].content;
    }
  }

  /** The number of places where two line feeds follow each other. */
  function BlankLineCount(s: string): nat {
    if |s| < 2 then 0
    else (if s[0] == '\n' && s[1] == '\n' then 1 else 0) + BlankLineCount(s[1..])
  }

  lemma {:induction false} BlankLineCountNone(s: string)
    requires !HasBlankLine(s)
    ensures BlankLineCount(s) == 0
  {
    if |s| >= 2 {
      assert !(s[0] == '\n' && s[0 + 1] == '\n');
      assert !HasBlankLine(s[1..]) by {
        forall i | 0 <= i < |s[1..]| - 1
          ensures !(s[1..][i] == '\n' && s[1..][i + 1] == '\n')
        {
          assert s[1..][i] == s[i + 1] && s[1..][i + 1] == s[i + 2];
        }
      }
      BlankLineCountNone(s[1..]);
    }
  }

  /** Counting over a concatenation: the two parts, and one more when a
      line feed ends the first and another starts the second. */
  lemma {:induction false} BlankLineCountAppend(a: string, b: string)
    ensures BlankLineCount(a + b)
         == BlankLineCount(a) + BlankLineCount(b)
          + (if a != [] && b != [] && a[|a| - 1] == '\n' && b[0] == '\n' then 1 else 0)
    decreases |a|
  {
    if a != [] {
      assert (a + b)[1..] == a[1..] + b;
      BlankLineCountAppend(a[1..], b);
      if |a| == 1 && b != [] {
        assert (a + b)[1] == b[0];
      }
    } else {
      assert a + b == b;
    }
  }

  /** Clean pieces joined with blank lines hold exactly one blank line
      between each pair of neighbours and none inside a piece. */
  lemma {:induction false} JoinedBlankLines(cs: seq<string>)
    requires |cs| >= 1
    requires forall i :: 0 <= i < |cs| ==> CleanPiece(cs[i])
    ensures BlankLineCount(Join(cs, "\n\n")) == |cs| - 1
  {
    BlankLineCountNone(cs[0]);
    if |cs| > 1 {
      JoinedBlankLines(cs[1..]);
      var rest := Join(cs[1..], "\n\n");
      JoinStartsWithFirst(cs[1..], "\n\n");
      assert rest[0] == cs[1][0];
      assert Join(cs, "\n\n") == (cs[0] + "\n\n") + rest;
      BlankLineCountAppend(cs[0], "\n\n");
      BlankLineCountAppend(cs[0] + "\n\n", rest);
    }
  }

  /** Written back out, `n` parsed blocks hold exactly `n - 1` blank lines,
      whatever the original runs of line feeds between them were. */
  lemma {:induction false} SeparatorsAfterParse(markdown: string, clock: nat -> int)
    ensures var bs := ParseMarkdownToBlocks(markdown, clock);
      BlankLineCount(BlocksToMarkdown(bs)) == if bs == [] then 0 else |bs| - 1
  {
    var bs := ParseMarkdownToBlocks(markdown, clock);
    if bs != [] {
      var cs := Contents(bs);
      forall i | 0 <= i < |cs|
        ensures CleanPiece(cs[i])
      {
        CleanContentIsCleanPiece(cs[i]);
      }
      JoinedBlankLines(cs);
    }
  }

  /** The written document is as long as the contents together plus two
      line feeds between each pair of neighbours; no blocks give the empty
      document and one block gives its content. */
  lemma {:induction false} MarkdownLength(bs: seq<Block>)
    ensures bs == [] ==> BlocksToMarkdown(bs) == []
    ensures |bs| == 1 ==> BlocksToMarkdown(bs) == bs[0].content
    ensures bs != [] ==> |BlocksToMarkdown(bs)| == TotalLength(bs) + 2 * (|bs| - 1)
  {
    if |bs| > 1 {
      MarkdownLength(bs[1..]);
      assert Contents(bs)[1..] == Contents(bs[1..]);
    }
  }

  function TotalLength(bs: seq<Block>): nat {
    if bs == [] then 0 else |bs[0].content| + TotalLength(bs[1..])
  }
}
