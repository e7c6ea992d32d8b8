/** What the Tab key does to a block's text and selection: the lines the
    selection touches, the indent or outdent of the list items among them,
    and the new selection offsets the handler computes and hands to the
    text area's `setSelectionRange`. */
module TabIndent {
  import opened JsText
  import opened ListSyntax

  // ------------------------------------------------------------ offsets

  /** The offset at which line `k` starts in the text the lines were split
      from: the lengths of the lines before it, one line feed each. */
  function Cum(lines: seq<string>, k: nat): nat
    requires k <= |lines|
  {
    if k == 0 then 0 else Cum(lines, k - 1) + |lines[k - 1]| + 1
  }

  lemma {:induction false} CumMonotone(lines: seq<string>, j: nat, k: nat)
    requires j <= k <= |lines|
    ensures Cum(lines, j) + (k - j) <= Cum(lines, k)
    decreases k
  {
    if j < k {
      CumMonotone(lines, j, k - 1);
    }
  }

  /** Line `k` starts where the lines after the first one start, shifted by
      the first line and its line feed. */
  lemma {:induction false} CumTail(lines: seq<string>, k: nat)
    requires k < |lines|
    ensures Cum(lines, k + 1) == |lines[0]| + 1 + Cum(lines[1..], k)
  {
    if k > 0 {
      CumTail(lines, k - 1);
      assert lines[1..][k - 1] == lines[k];
    }
  }

  /** The joined text is one character shorter than the offset just past
      its last line. */
  lemma {:induction false} JoinLength(lines: seq<string>)
    requires |lines| >= 1
    ensures |Join(lines, "\n")| + 1 == Cum(lines, |lines|)
  {
    if |lines| > 1 {
      JoinLength(lines[1..]);
      CumTail(lines, |lines| - 1);
    }
  }

  /** The joined text from the start of line `k` on is the join of the
      lines from `k` on. */
  lemma {:induction false} JoinSuffix(lines: seq<string>, k: nat)
    requires k < |lines|
    ensures Cum(lines, k) <= |Join(lines, "\n")|
    ensures Join(lines, "\n")[Cum(lines, k)..] == Join(lines[k..], "\n")
  {
    if k == 0 {
      assert lines[0..] == lines;
    } else {
      CumTail(lines, k - 1);
      JoinSuffix(lines[1..], k - 1);
      assert lines[1..][k - 1..] == lines[k..];
      var p := lines[0] + "\n";
      assert Join(lines, "\n") == p + Join(lines[1..], "\n");
    }
  }

  /** The join of the lines from `k` on: line `k`, then the rest after a
      line feed when there is a rest. */
  lemma {:induction false} JoinFrom(lines: seq<string>, k: nat)
    requires k < |lines|
    ensures k + 1 == |lines| ==> Join(lines[k..], "\n") == lines[k]
    ensures k + 1 < |lines| ==>
      Join(lines[k..], "\n") == lines[k] + "\n" + Join(lines[k + 1..], "\n")
  {
    assert lines[k..][1..] == lines[k + 1..];
  }

  // --------------------------------------------------- touched lines

  /** The line the Tab handler's scan attributes offset `off` to: the first
      line whose end, line feed included, is at or after `off`, so the offset
      lies after the start of that line (or is 0 on line 0) and no later than
      the start of the next. An offset right at the start of line `k > 0`
      therefore belongs to line `k - 1`. */
  function LineOfOffset(lines: seq<string>, off: int): (i: nat)
    requires |lines| >= 1 && off < Cum(lines, |lines|)
    ensures i < |lines| && off <= Cum(lines, i + 1)
    ensures i > 0 ==> Cum(lines, i) < off
  {
    FirstLineFrom(lines, off, 0)
  }

  function FirstLineFrom(lines: seq<string>, off: int, i: nat): (r: nat)
    requires i < |lines| && off < Cum(lines, |lines|)
    requires i > 0 ==> Cum(lines, i) < off
    ensures i <= r < |lines| && off <= Cum(lines, r + 1)
    ensures r > 0 ==> Cum(lines, r) < off
    decreases |lines| - i
  {
    if off <= Cum(lines, i + 1) then i else FirstLineFrom(lines, off, i + 1)
  }

  /** The two facts of `LineOfOffset`'s contract pin the line down: no other
      line has them. */
  lemma {:induction false} LineOfOffsetUnique(lines: seq<string>, off: int, i: nat)
    requires |lines| >= 1 && off < Cum(lines, |lines|)
    requires i < |lines| && off <= Cum(lines, i + 1)
    requires i > 0 ==> Cum(lines, i) < off
    ensures LineOfOffset(lines, off) == i
  {
    var r := LineOfOffset(lines, off);
    if r < i {
      CumMonotone(lines, r + 1, i);
    } else if r > i {
      CumMonotone(lines, i + 1, r);
    }
  }

  /** A later offset never lies on an earlier line. */
  lemma {:induction false} LineOfOffsetMonotone(lines: seq<string>, a: int, b: int)
    requires |lines| >= 1 && a <= b < Cum(lines, |lines|)
    ensures LineOfOffset(lines, a) <= LineOfOffset(lines, b)
  {
    var i, j := LineOfOffset(lines, a), LineOfOffset(lines, b);
    if j < i {
      CumMonotone(lines, j + 1, i);
    }
  }

  /** An offset lies after the start of the line it is attributed to, or at
      the very start of the text. */
  lemma {:induction false} LineOfOffsetStart(lines: seq<string>, off: int)
    requires |lines| >= 1 && 0 <= off < Cum(lines, |lines|)
    ensures Cum(lines, LineOfOffset(lines, off)) <= off
    ensures LineOfOffset(lines, off) > 0 ==> Cum(lines, LineOfOffset(lines, off)) < off
  {
  }

  /** The test the handler applies to move a selection offset: "after the
      start of the selection's last line". For the start of the selection it
      holds exactly when the selection lies on one line and does not start
      the text; for the end, exactly when the end does not start the text. */
  lemma {:induction false} ScanPositionTest(lines: seq<string>, selStart: int, selEnd: int)
    requires |lines| >= 1 && 0 <= selStart <= selEnd < Cum(lines, |lines|)
    ensures var s := LineOfOffset(lines, selStart);
      var e := LineOfOffset(lines, selEnd);
      && s <= e
      && (selStart > Cum(lines, e) <==> s == e && selStart > 0)
      && (selEnd > Cum(lines, e) <==> selEnd > 0)
  {
    var s := LineOfOffset(lines, selStart);
    var e := LineOfOffset(lines, selEnd);
    assert s <= e by {
      LineOfOffsetMonotone(lines, selStart, selEnd);
    }
    if s < e {
      assert selStart <= Cum(lines, e) by {
        CumMonotone(lines, s + 1, e);
      }
    }
  }

  // ----------------------------------------------------- line rewrites

  // The line-level facts below hold for any function on lines; the handler
  // runs the indentation mutator, `Mutator(action)`, over the touched lines.

  /** The indentation mutator for one action, as a function on lines. */
  function Mutator(action: IndentAction): string -> string {
    line => ModifyIndentation(line, action)
  }

  /** The lines after `mutate` has been run over lines `s` to `e`. */
  function Retab(lines: seq<string>, s: nat, e: nat, mutate: string -> string): seq<string> {
    seq(|lines|, i requires 0 <= i < |lines| =>
      if s <= i <= e then mutate(lines[i]) else lines[i])
  }

  /** Every line run through `mutate`: the table the handler's loop is
      proved against. */
  function RewriteAll(lines: seq<string>, mutate: string -> string): (r: seq<string>)
    ensures |r| == |lines|
  {
    RewriteFrom(lines, mutate, 0)
  }

  /** Lines `k` onwards run through `mutate`. The first line is rewritten
      in `RewriteAt`, one unfolding away, so that unfolding the table once
      does not apply `mutate`. */
  function RewriteFrom(lines: seq<string>, mutate: string -> string, k: nat): (r: seq<string>)
    requires k <= |lines|
    ensures |r| == |lines| - k
    decreases |lines| - k, 1
  {
    if k == |lines| then [] else RewriteAt(lines, mutate, k)
  }

  function RewriteAt(lines: seq<string>, mutate: string -> string, k: nat): (r: seq<string>)
    requires k < |lines|
    ensures |r| == |lines| - k
    decreases |lines| - k, 0
  {
    [mutate(lines[k])] + RewriteFrom(lines, mutate, k + 1)
  }

  lemma {:induction false} RewriteFromAt(lines: seq<string>, mutate: string -> string, k: nat, i: nat)
    requires k <= i < |lines|
    ensures RewriteFrom(lines, mutate, k)[i - k] == mutate(lines[i])
    decreases i - k
  {
    assert RewriteFrom(lines, mutate, k) == RewriteAt(lines, mutate, k);
    if k < i {
      RewriteFromAt(lines, mutate, k + 1, i);
    }
  }

  /** `modified` holds every line of `lines` run through `mutate`. The fact
      about a line is only drawn where `mutate` is applied to it, so a proof
      that merely moves lines of the table around never looks at `mutate`. */
  predicate Rewritten(lines: seq<string>, modified: seq<string>, mutate: string -> string) {
    && |modified| == |lines|
    && forall i {:trigger mutate(lines[i])} :: 0 <= i < |lines| ==> modified[i] == mutate(lines[i])
  }

  /** The table built line by line is such a table. */
  lemma {:induction false} RewriteAllRewritten(lines: seq<string>, mutate: string -> string)
    ensures Rewritten(lines, RewriteAll(lines, mutate), mutate)
  {
    forall i | 0 <= i < |lines|
      ensures RewriteAll(lines, mutate)[i] == mutate(lines[i])
    {
      RewriteFromAt(lines, mutate, 0, i);
    }
  }

  /** The lines with lines `s` to `t - 1` replaced by their rewritten form:
      the handler's array part way through its rewrite loop. */
  function Spliced(lines: seq<string>, modified: seq<string>, s: nat, t: nat): (r: seq<string>)
    requires s <= t <= |lines| == |modified|
    ensures |r| == |lines|
  {
    seq(|lines|, i requires 0 <= i < |lines| => if s <= i < t then modified[i] else lines[i])
  }

  /** One more pass of the loop replaces line `t` and nothing else. */
  lemma {:induction false} SplicedStep(lines: seq<string>, modified: seq<string>, s: nat, t: nat)
    requires s <= t < |lines| == |modified|
    ensures Spliced(lines, modified, s, t)[t] == lines[t]
    ensures Spliced(lines, modified, s, t + 1) == Spliced(lines, modified, s, t)[t := modified[t]]
  {
    var a := Spliced(lines, modified, s, t);
    var b := Spliced(lines, modified, s, t + 1);
    assert a[t] == lines[t];
    forall i | 0 <= i < |lines|
      ensures b[i] == a[t := modified[t]][i]
    {
      if i < s {
        assert b[i] == lines[i] && a[i] == lines[i];
      } else if i < t {
        assert b[i] == modified[i] && a[i] == modified[i];
      } else if i == t {
        assert b[i] == modified[t];
      } else {
        assert b[i] == lines[i] && a[i] == lines[i];
      }
    }
  }

  /** Before the loop nothing is replaced. */
  lemma {:induction false} SplicedStart(lines: seq<string>, modified: seq<string>, s: nat)
    requires s <= |lines| == |modified|
    ensures Spliced(lines, modified, s, s) == lines
  {
    assert Spliced(lines, modified, s, s) == lines[..s] + lines[s..];
  }

  /** After line `e` the array is the whole `Retab`. */
  lemma {:induction false} SplicedEnd(lines: seq<string>, modified: seq<string>, s: nat, e: nat, mutate: string -> string)
    requires s <= e < |lines| && Rewritten(lines, modified, mutate)
    ensures Spliced(lines, modified, s, e + 1) == Retab(lines, s, e, mutate)
  {
    var r := Spliced(lines, modified, s, e + 1);
    forall i | 0 <= i < |lines|
      ensures r[i] == Retab(lines, s, e, mutate)[i]
    {
      if s <= i <= e {
        assert r[i] == modified[i];
      } else {
        assert r[i] == lines[i];
      }
    }
  }

  /** How much `mutate` changes the length of a line. */
  function Delta(line: string, mutate: string -> string): int {
    |mutate(line)| - |line|
  }

  /** Indenting lengthens a list item by two; outdenting shortens one
      indented by at least two by two; nothing else changes length. */
  lemma {:induction false} DeltaValue(line: string, action: IndentAction)
    ensures action == Indent ==> Delta(line, Mutator(action)) == if IsListItem(line) then 2 else 0
    ensures action == Outdent ==>
      Delta(line, Mutator(action)) == if IsListItem(line) && IndentationLevel(line) >= 2 then -2 else 0
  {
  }

  /** The total change of length of lines `s` to `t - 1`. */
  function SumDeltas(lines: seq<string>, s: nat, t: nat, mutate: string -> string): int
    requires t <= |lines|
  {
    if t <= s then 0 else SumDeltas(lines, s, t - 1, mutate) + Delta(lines[t - 1], mutate)
  }

  /** The total change of length from lines `s` to `t - 1` of `lines` to
      those of `modified`. */
  function Growth(lines: seq<string>, modified: seq<string>, s: nat, t: nat): int
    requires t <= |lines| == |modified|
  {
    if t <= s then 0 else Growth(lines, modified, s, t - 1) + (|modified[t - 1]| - |lines[t - 1]|)
  }

  /** Against a table of rewritten lines the growth is the sum of the
      changes of length. */
  lemma {:induction false} GrowthIsSumDeltas(lines: seq<string>, modified: seq<string>, s: nat, t: nat,
                                            mutate: string -> string)
    requires t <= |lines| && Rewritten(lines, modified, mutate)
    ensures Growth(lines, modified, s, t) == SumDeltas(lines, s, t, mutate)
    decreases t
  {
    if t > s {
      GrowthIsSumDeltas(lines, modified, s, t - 1, mutate);
      assert modified[t - 1] == mutate(lines[t - 1]);
    }
  }

  /** Line `k` of the rewritten lines starts later by the change of length
      of the rewritten lines before it. */
  lemma {:induction false} CumRetab(lines: seq<string>, s: nat, e: nat, mutate: string -> string, k: nat)
    requires e < |lines| && k <= |lines|
    ensures Cum(Retab(lines, s, e, mutate), k)
         == Cum(lines, k) + SumDeltas(lines, s, if k <= e + 1 then k else e + 1, mutate)
  {
    if k > 0 {
      CumRetab(lines, s, e, mutate, k - 1);
    }
  }

  /** Indenting never shortens a line. */
  lemma {:induction false} IndentDeltasNonNegative(lines: seq<string>, s: nat, t: nat)
    requires t <= |lines|
    ensures SumDeltas(lines, s, t, Mutator(Indent)) >= 0
  {
    if t > s {
      IndentDeltasNonNegative(lines, s, t - 1);
      DeltaValue(lines[t - 1], Indent);
    }
  }

  /** The mutator puts no line feed into a line. */
  lemma {:induction false} RetabLinesHaveNoLineFeed(lines: seq<string>, s: nat, e: nat, action: IndentAction)
    requires forall i :: 0 <= i < |lines| ==> '\n' !in lines[i]
    ensures forall i :: 0 <= i < |lines| ==> '\n' !in Retab(lines, s, e, Mutator(action))[i]
  {
    forall i | 0 <= i < |lines|
      ensures '\n' !in Retab(lines, s, e, Mutator(action))[i]
    {
      ModifyKeepsLineFeedsOut(lines[i], action);
    }
  }

  /** Shift+Tab over the same lines undoes Tab. */
  lemma {:induction false} RetabOutdentUndoesIndent(lines: seq<string>, s: nat, e: nat)
    ensures Retab(Retab(lines, s, e, Mutator(Indent)), s, e, Mutator(Outdent)) == lines
  {
    forall i | s <= i <= e && i < |lines|
      ensures ModifyIndentation(ModifyIndentation(lines[i], Indent), Outdent) == lines[i]
    {
      OutdentUndoesIndent(lines[i]);
    }
  }

  /** `mutate` puts two spaces in front of `line`, takes its first two
      characters off, or leaves it alone, and its change of length says
      which. */
  predicate ShapedAt(line: string, mutate: string -> string) {
    var r := mutate(line);
    var d := Delta(line, mutate);
    || (d == 2 && r == "  " + line)
    || (d == -2 && |line| >= 2 && line == line[..2] + r)
    || (d == 0 && r == line)
  }

  /** The indentation mutator has that shape on every line. */
  lemma {:induction false} ModifyShape(line: string, action: IndentAction)
    ensures ShapedAt(line, Mutator(action))
  {
    if IsListItem(line) && action == Outdent && IndentationLevel(line) >= 2 {
      assert line == line[..2] + line[2..];
    }
  }

  /** The join of the lines from `k` on, minus line `k` itself. */
  function JoinRest(lines: seq<string>, k: nat): string
    requires k < |lines|
  {
    if k + 1 < |lines| then "\n" + Join(lines[k + 1..], "\n") else []
  }

  lemma {:induction false} JoinFromRest(lines: seq<string>, k: nat)
    requires k < |lines|
    ensures Join(lines[k..], "\n") == lines[k] + JoinRest(lines, k)
  {
    JoinFrom(lines, k);
  }

  /** From the start of line `e`, the last touched line, the rewritten
      text is the old text with two characters put in front, taken off, or
      unchanged, as `mutate` does to line `e`. */
  lemma {:induction false} RetabTail(lines: seq<string>, s: nat, e: nat, mutate: string -> string)
    requires s <= e < |lines| && ShapedAt(lines[e], mutate)
    ensures var tail := Join(lines[e..], "\n");
      var rtail := Join(Retab(lines, s, e, mutate)[e..], "\n");
      var d := Delta(lines[e], mutate);
      && (d == 2 || d == -2 || d == 0)
      && (d == 2 ==> rtail == "  " + tail)
      && (d == -2 ==> |lines[e]| >= 2 && tail == lines[e][..2] + rtail)
      && (d == 0 ==> rtail == tail)
  {
    var rt := Retab(lines, s, e, mutate);
    var rest := JoinRest(lines, e);
    assert Join(lines[e..], "\n") == lines[e] + rest by {
      JoinFromRest(lines, e);
    }
    assert Join(rt[e..], "\n") == rt[e] + rest by {
      JoinFromRest(rt, e);
      assert rt[e + 1..] == lines[e + 1..];
    }
    assert rt[e] == mutate(lines[e]);
    TailShape(lines[e], rt[e], rest, Delta(lines[e], mutate));
  }

  lemma {:induction false} TailShape(line: string, rline: string, rest: string, d: int)
    requires || (d == 2 && rline == "  " + line)
             || (d == -2 && |line| >= 2 && line == line[..2] + rline)
             || (d == 0 && rline == line)
    ensures d == 2 || d == -2 || d == 0
    ensures d == 2 ==> rline + rest == "  " + (line + rest)
    ensures d == -2 ==> |line| >= 2 && line + rest == line[..2] + (rline + rest)
    ensures d == 0 ==> rline + rest == line + rest
  {
  }

  /** Moving an offset on line `e` by the change of length of lines `s` to
      `e` keeps it in front of the same character, provided the rewrite does
      not remove characters in front of it from its own line. */
  lemma {:induction false} RemappedOffsetKeepsItsCharacter(lines: seq<string>, s: nat, e: nat, mutate: string -> string, off: nat)
    requires |lines| >= 1 && 0 < off < Cum(lines, |lines|)
    requires s <= e == LineOfOffset(lines, off)
    requires ShapedAt(lines[e], mutate)
    requires Delta(lines[e], mutate) == -2 ==> off - Cum(lines, e) >= 2
    ensures off <= |Join(lines, "\n")|
    ensures 0 <= off + SumDeltas(lines, s, e + 1, mutate) <= |Join(Retab(lines, s, e, mutate), "\n")|
    ensures Join(Retab(lines, s, e, mutate), "\n")[off + SumDeltas(lines, s, e + 1, mutate)..]
         == Join(lines, "\n")[off..]
  {
    var rt := Retab(lines, s, e, mutate);
    var c, rc := Cum(lines, e), Cum(rt, e);
    var a, b := Join(lines, "\n"), Join(rt, "\n");
    var tail, rtail := Join(lines[e..], "\n"), Join(rt[e..], "\n");
    var d := Delta(lines[e], mutate);
    assert off <= |a| by {
      JoinLength(lines);
    }
    assert c <= off by {
      LineOfOffsetStart(lines, off);
    }
    assert c <= |a| && a[c..] == tail by {
      JoinSuffix(lines, e);
    }
    assert rc <= |b| && b[rc..] == rtail by {
      JoinSuffix(rt, e);
    }
    assert rc + d == c + SumDeltas(lines, s, e + 1, mutate) by {
      CumRetab(lines, s, e, mutate, e);
    }
    RetabTail(lines, s, e, mutate);
    ShiftedSuffix(a, b, c, rc, tail, rtail, off, off + SumDeltas(lines, s, e + 1, mutate), d, lines[e]);
  }

  /** Suffix bookkeeping for `RemappedOffsetKeepsItsCharacter`: if the two
      texts agree from their offsets `c` and `rc` on up to `d` characters
      put in front or taken off, then an offset `off` at or after `c` (and
      past the characters taken off) corresponds to `r = off - c + rc + d`. */
  lemma {:induction false} ShiftedSuffix(a: string, b: string, c: nat, rc: nat, tail: string, rtail: string,
                      off: nat, r: int, d: int, line: string)
    requires c <= off <= |a| && rc <= |b| && a[c..] == tail && b[rc..] == rtail
    requires r == off - c + rc + d
    requires d == 2 || d == -2 || d == 0
    requires d == 2 ==> rtail == "  " + tail
    requires d == -2 ==> |line| >= 2 && tail == line[..2] + rtail && off - c >= 2
    requires d == 0 ==> rtail == tail
    ensures 0 <= r <= |b| && b[r..] == a[off..]
  {
    var j := off - c;
    assert a[off..] == tail[j..];
    assert b[r..] == rtail[j + d..];
  }

  // ------------------------------------------------------ the Tab edit

  /** The line of `value` the scan attributes offset `off` to. */
  function LineOf(value: string, off: nat): (i: nat)
    requires off <= |value|
    ensures i < |SplitLines(value)|
  {
    var lines := SplitLines(value);
    JoinSplitLines(value);
    JoinLength(lines);
    LineOfOffset(lines, off)
  }

  /** The position of offset `off` within the line the scan attributes it
      to. */
  function Column(value: string, off: nat): int
    requires off <= |value|
  {
    off - Cum(SplitLines(value), LineOf(value, off))
  }

  /** The lines of `value` join back to it, and the offset past the last
      line is one past its end. */
  lemma {:induction false} LinesOfValue(value: string)
    ensures Join(SplitLines(value), "\n") == value
    ensures |value| + 1 == Cum(SplitLines(value), |SplitLines(value)|)
  {
    JoinSplitLines(value);
    JoinLength(SplitLines(value));
  }

  /** A later offset of `value` never lies on an earlier line. */
  lemma {:induction false} LineOfMonotone(value: string, a: nat, b: nat)
    requires a <= b <= |value|
    ensures LineOf(value, a) <= LineOf(value, b)
  {
    LinesOfValue(value);
    LineOfOffsetMonotone(SplitLines(value), a, b);
  }

  /** The new text and the new selection offsets as the handler computes
      them, before the text area clamps them. */
  datatype TabResult = TabResult(text: string, rawStart: int, rawEnd: int)

  /** The Tab key (`Indent`) or Shift+Tab (`Outdent`) on `value` with the
      given selection. Its contract is stated by `TabEditText`,
      `TabEditStart`, `TabEditEnd` and `TabRewritesTouchedListItems`. */
  function TabEdit(value: string, selStart: nat, selEnd: nat, action: IndentAction): TabResult
    requires selStart <= selEnd <= |value|
  {
    TabEditWith(value, selStart, selEnd, Mutator(action))
  }

  /** The Tab edit with `mutate` run over the lines: lines `s` to `e`, those
      the selection touches, are replaced by their rewritten form; the
      selection start moves with its line only when the selection lies on
      one line, and the end moves by the change of length of every touched
      line. */
  function TabEditWith(value: string, selStart: nat, selEnd: nat, mutate: string -> string): TabResult
    requires selStart <= selEnd <= |value|
  {
    var lines := SplitLines(value);
    var rewritten := RewriteAll(lines, mutate);
    var s := LineOf(value, selStart);
    var e := LineOf(value, selEnd);
    LineOfMonotone(value, selStart, selEnd);
    TabResult(
      Join(Spliced(lines, rewritten, s, e + 1), "\n"),
      selStart + (if s == e && selStart > 0 then |rewritten[s]| - |lines[s]| else 0),
      selEnd + (if selEnd > 0 then Growth(lines, rewritten, s, e + 1) else 0))
  }

  /** The Tab edit, given its three parts computed from the table of
      rewritten lines. */
  lemma {:induction false} TabEditWithParts(value: string, selStart: nat, selEnd: nat, mutate: string -> string,
                                            lines: seq<string>, s: nat, e: nat, modified: seq<string>,
                                            text: string, rawStart: int, rawEnd: int)
    requires selStart <= selEnd <= |value|
    requires lines == SplitLines(value) && s == LineOf(value, selStart) && e == LineOf(value, selEnd)
    requires modified == RewriteAll(lines, mutate)
    requires s <= e
    requires text == Join(Spliced(lines, modified, s, e + 1), "\n")
    requires rawStart == selStart + (if s == e && selStart > 0 then |modified[s]| - |lines[s]| else 0)
    requires rawEnd == selEnd + (if selEnd > 0 then Growth(lines, modified, s, e + 1) else 0)
    ensures TabEditWith(value, selStart, selEnd, mutate) == TabResult(text, rawStart, rawEnd)
  {
  }

  /** The new text is the lines joined back after `Retab`. */
  lemma {:induction false} TabEditText(value: string, selStart: nat, selEnd: nat, mutate: string -> string)
    requires selStart <= selEnd <= |value|
    ensures LineOf(value, selStart) <= LineOf(value, selEnd)
    ensures TabEditWith(value, selStart, selEnd, mutate).text
         == Join(Retab(SplitLines(value), LineOf(value, selStart), LineOf(value, selEnd), mutate), "\n")
  {
    var lines := SplitLines(value);
    var rewritten := RewriteAll(lines, mutate);
    var s := LineOf(value, selStart);
    var e := LineOf(value, selEnd);
    LineOfMonotone(value, selStart, selEnd);
    RewriteAllRewritten(lines, mutate);
    var spliced := Spliced(lines, rewritten, s, e + 1);
    assert TabEditWith(value, selStart, selEnd, mutate).text == Join(spliced, "\n");
    SplicedEnd(lines, rewritten, s, e, mutate);
  }

  /** The start moves by the change of length of its own line, and only
      when the selection lies on one line and the start is not at 0. */
  lemma {:induction false} TabEditStart(value: string, selStart: nat, selEnd: nat, mutate: string -> string)
    requires selStart <= selEnd <= |value|
    ensures TabEditWith(value, selStart, selEnd, mutate).rawStart
         == selStart + (if LineOf(value, selStart) == LineOf(value, selEnd) && selStart > 0
                        then Delta(SplitLines(value)[LineOf(value, selStart)], mutate) else 0)
  {
    RewriteFromAt(SplitLines(value), mutate, 0, LineOf(value, selStart));
  }

  /** The end moves by the change of length of every touched line, unless
      it is at 0. */
  lemma {:induction false} TabEditEnd(value: string, selStart: nat, selEnd: nat, mutate: string -> string)
    requires selStart <= selEnd <= |value|
    ensures TabEditWith(value, selStart, selEnd, mutate).rawEnd
         == selEnd + (if selEnd > 0
                      then SumDeltas(SplitLines(value), LineOf(value, selStart), LineOf(value, selEnd) + 1, mutate)
                      else 0)
  {
    RewriteAllRewritten(SplitLines(value), mutate);
    GrowthIsSumDeltas(SplitLines(value), RewriteAll(SplitLines(value), mutate),
                      LineOf(value, selStart), LineOf(value, selEnd) + 1, mutate);
  }

  /** The lines of the new text are the old lines with exactly the list
      items among the touched lines run through the mutator; every other
      line, touched or not, is unchanged. */
  lemma {:induction false} TabRewritesTouchedListItems(value: string, selStart: nat, selEnd: nat, action: IndentAction)
    requires selStart <= selEnd <= |value|
    ensures var lines := SplitLines(value);
      var r := SplitLines(TabEdit(value, selStart, selEnd, action).text);
      var s := LineOf(value, selStart);
      var e := LineOf(value, selEnd);
      && |r| == |lines|
      && s <= e
      && (forall i :: 0 <= i < |lines| && s <= i <= e && IsListItem(lines[i]) ==>
            r[i] == ModifyIndentation(lines[i], action))
      && (forall i :: 0 <= i < |lines| && (i < s || e < i || !IsListItem(lines[i])) ==>
            r[i] == lines[i])
  {
    var lines := SplitLines(value);
    var s := LineOf(value, selStart);
    var e := LineOf(value, selEnd);
    TabEditText(value, selStart, selEnd, Mutator(action));
    var rt := Retab(lines, s, e, Mutator(action));
    assert SplitLines(Join(rt, "\n")) == rt by {
      SplitLinesHaveNoLineFeed(value);
      RetabLinesHaveNoLineFeed(lines, s, e, action);
      SplitJoinLines(rt);
    }
  }

  /** The new text is longer by the change of length of the touched lines. */
  lemma {:induction false} TabTextLength(value: string, selStart: nat, selEnd: nat, mutate: string -> string)
    requires selStart <= selEnd <= |value|
    ensures var lines := SplitLines(value);
      var s := LineOf(value, selStart);
      var e := LineOf(value, selEnd);
      && s <= e
      && |Join(Retab(lines, s, e, mutate), "\n")| == |value| + SumDeltas(lines, s, e + 1, mutate)
  {
    LineOfMonotone(value, selStart, selEnd);
    LinesOfValue(value);
    RetabLength(SplitLines(value), LineOf(value, selStart), LineOf(value, selEnd), mutate);
  }

  lemma {:induction false} RetabLength(lines: seq<string>, s: nat, e: nat, mutate: string -> string)
    requires s <= e < |lines|
    ensures |Join(Retab(lines, s, e, mutate), "\n")| + 1 == Cum(lines, |lines|) + SumDeltas(lines, s, e + 1, mutate)
  {
    var rt := Retab(lines, s, e, mutate);
    JoinLength(rt);
    CumRetab(lines, s, e, mutate, |lines|);
  }

  /** After Tab the selection the handler computes is a valid selection of
      the new text, so the text area takes it as it is. */
  lemma {:induction false} IndentSelectionInBounds(value: string, selStart: nat, selEnd: nat)
    requires selStart <= selEnd <= |value|
    ensures var t := TabEdit(value, selStart, selEnd, Indent);
      0 <= t.rawStart <= t.rawEnd <= |t.text|
  {
    LineOfMonotone(value, selStart, selEnd);
    IndentDeltasNonNegative(SplitLines(value), LineOf(value, selStart), LineOf(value, selEnd) + 1);
    GrowingSelectionInBounds(value, selStart, selEnd, Mutator(Indent));
  }

  /** When the touched lines do not shrink in total, the selection the
      handler computes is a valid selection of the new text. */
  lemma {:induction false} GrowingSelectionInBounds(value: string, selStart: nat, selEnd: nat, mutate: string -> string)
    requires selStart <= selEnd <= |value|
    requires LineOf(value, selStart) <= LineOf(value, selEnd)
    requires SumDeltas(SplitLines(value), LineOf(value, selStart), LineOf(value, selEnd) + 1, mutate) >= 0
    ensures var t := TabEditWith(value, selStart, selEnd, mutate);
      0 <= t.rawStart <= t.rawEnd <= |t.text|
  {
    var lines := SplitLines(value);
    var s := LineOf(value, selStart);
    var e := LineOf(value, selEnd);
    var sum := SumDeltas(lines, s, e + 1, mutate);
    var t := TabEditWith(value, selStart, selEnd, mutate);
    TabEditStart(value, selStart, selEnd, mutate);
    TabEditEnd(value, selStart, selEnd, mutate);
    assert |t.text| == |value| + sum by {
      TabEditText(value, selStart, selEnd, mutate);
      TabTextLength(value, selStart, selEnd, mutate);
    }
    if s == e {
      assert SumDeltas(lines, s, s, mutate) == 0;
      assert sum == Delta(lines[s], mutate);
    }
  }

  /** After Tab, or Shift+Tab when it removes no indentation in front of
      it on its own line, the end of the selection stays in front of the
      character it was in front of (unless it starts the text). */
  lemma {:induction false} TabEndKeepsItsCharacter(value: string, selStart: nat, selEnd: nat, action: IndentAction)
    requires selStart <= selEnd <= |value|
    requires selEnd > 0
    requires action == Outdent ==> Column(value, selEnd) >= 2
    ensures var t := TabEdit(value, selStart, selEnd, action);
      0 <= t.rawEnd <= |t.text| && t.text[t.rawEnd..] == value[selEnd..]
  {
    var lines := SplitLines(value);
    var s := LineOf(value, selStart);
    var e := LineOf(value, selEnd);
    LineOfMonotone(value, selStart, selEnd);
    LinesOfValue(value);
    TabEditText(value, selStart, selEnd, Mutator(action));
    TabEditEnd(value, selStart, selEnd, Mutator(action));
    ModifyShape(lines[e], action);
    DeltaValue(lines[e], action);
    RemappedOffsetKeepsItsCharacter(lines, s, e, Mutator(action), selEnd);
  }

  /** The same holds for the start of a selection that lies on one line:
      only then does the handler move the start. */
  lemma {:induction false} TabStartKeepsItsCharacter(value: string, selStart: nat, selEnd: nat, action: IndentAction)
    requires selStart <= selEnd <= |value|
    requires selStart > 0 && LineOf(value, selStart) == LineOf(value, selEnd)
    requires action == Outdent ==> Column(value, selStart) >= 2
    ensures var t := TabEdit(value, selStart, selEnd, action);
      0 <= t.rawStart <= |t.text| && t.text[t.rawStart..] == value[selStart..]
  {
    var lines := SplitLines(value);
    var s := LineOf(value, selStart);
    assert SumDeltas(lines, s, s + 1, Mutator(action)) == Delta(lines[s], Mutator(action));
    LinesOfValue(value);
    TabEditText(value, selStart, selEnd, Mutator(action));
    TabEditStart(value, selStart, selEnd, Mutator(action));
    ModifyShape(lines[s], action);
    DeltaValue(lines[s], action);
    RemappedOffsetKeepsItsCharacter(lines, s, s, Mutator(action), selStart);
  }

  // --------------------------------------------- setSelectionRange

  const Uint32Modulus: nat := 0x1_0000_0000

  /** WebIDL's conversion of a number to `unsigned long`: reduction modulo
      2^32, so a negative offset becomes a very large one. */
  function ToUint32(x: int): (r: nat)
    ensures r < Uint32Modulus
    ensures 0 <= x < Uint32Modulus ==> r == x
    ensures x < 0 && -x <= Uint32Modulus ==> r == Uint32Modulus + x
  {
    x % Uint32Modulus
  }

  datatype Selection = Selection(start: nat, end: nat)

  /** `setSelectionRange(start, end)` on a text area holding `len`
      characters: both offsets are converted, clamped to the length, and a
      start after the end is moved to the end. */
  function SetSelectionRange(len: nat, start: int, end: int): (r: Selection)
    ensures r.start <= r.end <= len
    ensures 0 <= start <= end <= len < Uint32Modulus ==> r == Selection(start, end)
    ensures len - Uint32Modulus <= end < 0 ==> r.end == len
  {
    var e := if ToUint32(end) > len then len else ToUint32(end);
    var s := if ToUint32(start) > len then len else ToUint32(start);
    if s > e then Selection(e, e) else Selection(s, e)
  }

  // --------------------------------------------------- edge behaviour

  /** A caret right at the start of line `k > 0` is attributed to line
      `k - 1`: Tab there rewrites the line above the caret and leaves the
      caret's own line alone. */
  lemma {:induction false} LineStartBelongsToLineAbove(value: string, k: nat)
    requires 0 < k < |SplitLines(value)|
    ensures Cum(SplitLines(value), k) <= |value|
    ensures LineOf(value, Cum(SplitLines(value), k)) == k - 1
  {
    var lines := SplitLines(value);
    LinesOfValue(value);
    CumMonotone(lines, k, |lines|);
    if k > 1 {
      CumMonotone(lines, k - 1, k);
    }
    LineOfOffsetUnique(lines, Cum(lines, k), k - 1);
  }

  /** Shift+Tab with the caret at offset 1 of a first line that is a list
      item indented by two or more: the caret offset the handler computes
      is -1, which the text area reads as 2^32 - 1 and clamps to the end of
      the new text, instead of the start of the line. */
  lemma {:induction false} OutdentAtColumnOneSendsCaretToEnd(value: string)
    requires IsListItem(SplitLines(value)[0]) && IndentationLevel(SplitLines(value)[0]) >= 2
    requires |value| < Uint32Modulus
    ensures 1 <= |value|
    ensures var t := TabEdit(value, 1, 1, Outdent);
      && t.rawStart == -1 && t.rawEnd == -1
      && |t.text| == |value| - 2
      && SetSelectionRange(|t.text|, t.rawStart, t.rawEnd) == Selection(|t.text|, |t.text|)
  {
    var lines := SplitLines(value);
    LinesOfValue(value);
    assert Delta(lines[0], Mutator(Outdent)) == -2 by {
      DeltaValue(lines[0], Outdent);
    }
    assert |lines[0]| >= 2;
    assert 2 <= |value| by {
      CumMonotone(lines, 1, |lines|);
    }
    assert LineOf(value, 1) == 0 by {
      LineOfOffsetUnique(lines, 1, 0);
    }
    TabEditStart(value, 1, 1, Mutator(Outdent));
    TabEditEnd(value, 1, 1, Mutator(Outdent));
    TabEditText(value, 1, 1, Mutator(Outdent));
    TabTextLength(value, 1, 1, Mutator(Outdent));
  }
}
