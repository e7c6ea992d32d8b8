/** The list-line syntax of the block editor: the two regular expressions
    that recognise a list item (`isListItem`/`getIndentationLevel` and the
    Enter handler's line pattern) written as functions over strings, and the
    indent/outdent mutator `modifyListItemIndentation`. */
module ListSyntax {
  import opened Wrappers
  import opened JsText

  /** A list marker: a bullet `-`, `*` or `+`, or an ordered marker made of
      decimal digits followed by a full stop. */
  datatype Marker = Bullet(symbol: char) | Ordered(digits: string)

  predicate IsBulletChar(c: char) {
    c == '-' || c == '*' || c == '+'
  }

  predicate ValidMarker(m: Marker) {
    match m
    case Bullet(c) => IsBulletChar(c)
    case Ordered(d) => d != [] && AllDigits(d)
  }

  /** The characters of a marker as they stand in the line. */
  function MarkerText(m: Marker): string {
    match m
    case Bullet(c) => [c]
    case Ordered(d) => d + "."
  }

  /** A marker's text never starts with whitespace, so the whitespace run in
      front of a marker is always the line's whole leading run. */
  lemma {:induction false} MarkerTextStartsSolid(m: Marker)
    requires ValidMarker(m)
    ensures |MarkerText(m)| >= 1 && !IsSpace(MarkerText(m)[0])
  {
  }

  /** The length of the run of decimal digits that `s` starts with. */
  function LeadingDigits(s: string): (n: nat)
    ensures n <= |s|
    ensures forall i :: 0 <= i < n ==> IsDigit(s[i])
    ensures n < |s| ==> !IsDigit(s[n])
  {
    DigitRunFrom(s, 0)
  }

  /** The index at which the run of decimal digits starting at index `i` of
      `s` ends. */
  function DigitRunFrom(s: string, i: nat): (n: nat)
    requires i <= |s|
    ensures i <= n <= |s|
    ensures forall k :: i <= k < n ==> IsDigit(s[k])
    ensures n < |s| ==> !IsDigit(s[n])
    decreases |s| - i
  {
    if i < |s| && IsDigit(s[i]) then DigitRunFrom(s, i + 1) else i
  }

  /** `[-*+]|\d+\.` anchored at the start of `s`: the marker `s` starts with.
      Its contract is stated by `MatchMarkerSound` and `MatchMarkerComplete`. */
  function MatchMarker(s: string): Option<Marker> {
    if s != [] && IsBulletChar(s[0]) then Some(Bullet(s[0]))
    else
      var d := LeadingDigits(s);
      if 0 < d < |s| && s[d] == '.' then Some(Ordered(s[..d])) else None
  }

  /** A recognised marker is valid and its text is a prefix of `s`. */
  lemma {:induction false} MatchMarkerSound(s: string)
    requires MatchMarker(s).Some?
    ensures var m := MatchMarker(s).value;
      && ValidMarker(m)
      && |MarkerText(m)| <= |s|
      && s[..|MarkerText(m)|] == MarkerText(m)
  {
    if !(s != [] && IsBulletChar(s[0])) {
      var d := LeadingDigits(s);
      assert s[..d + 1] == s[..d] + ".";
    }
  }

  /** Every marker is recognised, whatever follows it. */
  lemma {:induction false} MatchMarkerComplete(m: Marker, rest: string)
    requires ValidMarker(m)
    ensures MatchMarker(MarkerText(m) + rest) == Some(m)
  {
    var s := MarkerText(m) + rest;
    if m.Ordered? {
      var d := m.digits;
      assert s[|d|] == '.';
      assert forall i :: 0 <= i < |d| ==> s[i] == d[i];
      assert LeadingDigits(s) == |d|;
      assert s[..|d|] == d;
    }
  }

  /** The whitespace run in front of `t` is all of `indent` when `t` starts
      with a non-whitespace character. */
  lemma {:induction false} LeadingSpacesOfIndented(indent: string, t: string)
    requires AllSpace(indent)
    requires t != [] && !IsSpace(t[0])
    ensures LeadingSpaces(indent + t) == |indent|
    ensures (indent + t)[|indent|..] == t
  {
    var s := indent + t;
    assert s[|indent|] == t[0];
    assert forall i :: 0 <= i < |indent| ==> s[i] == indent[i];
  }

  // ------------------------------------------- /^(\s*)([-*+]|\d+\.)\s/

  /** What `/^(\s*)([-*+]|\d+\.)\s/` captures in a line it matches. */
  datatype ListHead = ListHead(indentWidth: nat, marker: Marker)

  /** The pattern of `isListItem` and `getIndentationLevel`: leading
      whitespace, a marker, then one whitespace character. Its contract is
      stated by `MatchListHeadSound` and `MatchListHeadComplete`. */
  function MatchListHead(line: string): Option<ListHead> {
    var w := LeadingSpaces(line);
    match MatchMarker(line[w..])
    case None => None
    case Some(m) =>
      var k := w + |MarkerText(m)|;
      if k < |line| && IsSpace(line[k]) then Some(ListHead(w, m)) else None
  }

  /** A list head means whitespace up to the indent width, then the marker's
      text, then one whitespace character. */
  lemma {:induction false} MatchListHeadSound(line: string)
    requires MatchListHead(line).Some?
    ensures var h := MatchListHead(line).value;
      var w := h.indentWidth;
      var t := MarkerText(h.marker);
      && ValidMarker(h.marker)
      && w + |t| < |line|
      && AllSpace(line[..w])
      && line[w..w + |t|] == t
      && IsSpace(line[w + |t|])
  {
    var w := LeadingSpaces(line);
    MatchMarkerSound(line[w..]);
    var m := MatchMarker(line[w..]).value;
    assert line[w..w + |MarkerText(m)|] == line[w..][..|MarkerText(m)|];
  }

  /** Every line of the form indent, marker, whitespace character, rest is
      recognised, with the indent's length as its indentation width. With
      `MatchListHeadSound` this makes the match an exact
      characterisation of the pattern. */
  lemma {:induction false} MatchListHeadComplete(indent: string, m: Marker, c: char, rest: string)
    requires AllSpace(indent) && ValidMarker(m) && IsSpace(c)
    ensures MatchListHead(indent + MarkerText(m) + [c] + rest) == Some(ListHead(|indent|, m))
  {
    var line := indent + MarkerText(m) + [c] + rest;
    var t := MarkerText(m) + [c] + rest;
    assert line == indent + t;
    MarkerTextStartsSolid(m);
    LeadingSpacesOfIndented(indent, t);
    assert t == MarkerText(m) + ([c] + rest);
    MatchMarkerComplete(m, [c] + rest);
    assert line[|indent| + |MarkerText(m)|] == c;
  }

  /** `isListItem`: the line has a list head (see `MatchListHeadSound`). */
  predicate IsListItem(line: string) {
    MatchListHead(line).Some?
  }

  /** `getIndentationLevel`: the number of whitespace characters (tabs
      included) in front of the marker of a list item, 0 for other lines. */
  function IndentationLevel(line: string): (n: nat)
    ensures IsListItem(line) ==> n < |line| && AllSpace(line[..n]) && !IsSpace(line[n])
    ensures !IsListItem(line) ==> n == 0
  {
    match MatchListHead(line)
    case Some(h) =>
      MarkerTextStartsSolid(h.marker);
      assert line[h.indentWidth] == MarkerText(h.marker)[0];
      h.indentWidth
    case None => 0
  }

  /** The indentation level of a list item is the length of its leading
      whitespace run; any other line has level 0. */
  lemma {:induction false} IndentationLevelIsLeadingRun(line: string)
    ensures IsListItem(line) ==> IndentationLevel(line) == LeadingSpaces(line)
    ensures !IsListItem(line) ==> IndentationLevel(line) == 0
  {
    if IsListItem(line) {
      var h := MatchListHead(line).value;
      var t := MarkerText(h.marker);
      MarkerTextStartsSolid(h.marker);
      assert line[h.indentWidth] == t[0];
      assert forall i :: 0 <= i < h.indentWidth ==> line[i] == line[..h.indentWidth][i];
    }
  }

  /** A list item splits into its indent, marker, separating whitespace
      character and the rest of the line. */
  lemma {:induction false} ListItemParts(line: string)
    requires IsListItem(line)
    ensures var h := MatchListHead(line).value;
      var w := h.indentWidth;
      var k := w + |MarkerText(h.marker)|;
      line == line[..w] + MarkerText(h.marker) + [line[k]] + line[k + 1..]
  {
    var h := MatchListHead(line).value;
    var w := h.indentWidth;
    var k := w + |MarkerText(h.marker)|;
    assert line == line[..w] + line[w..k] + [line[k]] + line[k + 1..];
  }

  // ------------------------------------------ modifyListItemIndentation

  datatype IndentAction = Indent | Outdent

  /** `modifyListItemIndentation`; its contract is stated by
      `NonListLineUnchanged`, `IndentListItem` and `OutdentListItem`. */
  function ModifyIndentation(line: string, action: IndentAction): string {
    if !IsListItem(line) then line
    else if action == Indent then "  " + line
    else if IndentationLevel(line) >= 2 then line[2..]
    else line
  }

  /** Two spaces in front of a list item give a list item with the same
      marker and an indentation two deeper. */
  lemma {:induction false} IndentedItem(line: string)
    requires IsListItem(line)
    ensures IsListItem("  " + line)
    ensures MatchListHead("  " + line).value.marker == MatchListHead(line).value.marker
    ensures IndentationLevel("  " + line) == IndentationLevel(line) + 2
  {
    var h := MatchListHead(line).value;
    var w := h.indentWidth;
    var k := w + |MarkerText(h.marker)|;
    ListItemParts(line);
    var indent := line[..w];
    var rest := line[k + 1..];
    PrefixIndent(indent, MarkerText(h.marker) + [line[k]] + rest);
    assert line == indent + (MarkerText(h.marker) + [line[k]] + rest);
    assert "  " + line == ("  " + indent) + MarkerText(h.marker) + [line[k]] + rest;
    MatchListHeadComplete("  " + indent, h.marker, line[k], rest);
  }

  /** Indenting a list item prepends two spaces; it stays a list item with
      the same marker and two more characters of indentation. */
  lemma {:induction false} IndentListItem(line: string)
    requires IsListItem(line)
    ensures var r := ModifyIndentation(line, Indent);
      && r == "  " + line
      && IsListItem(r)
      && IndentationLevel(r) == IndentationLevel(line) + 2
      && MatchListHead(r).value.marker == MatchListHead(line).value.marker
  {
    IndentedItem(line);
  }

  /** Two spaces in front of an all-whitespace indent leave it all
      whitespace, and the rest of the line where it was. */
  lemma {:induction false} PrefixIndent(indent: string, t: string)
    requires AllSpace(indent)
    ensures AllSpace("  " + indent)
    ensures "  " + (indent + t) == ("  " + indent) + t
  {
    assert forall i :: 2 <= i < 2 + |indent| ==> ("  " + indent)[i] == indent[i - 2];
  }

  /** Outdenting a list item indented by at least two characters keeps it a
      list item with the same marker and two characters less indentation;
      an item indented by less is left alone. */
  lemma {:induction false} OutdentListItem(line: string)
    requires IsListItem(line)
    ensures var r := ModifyIndentation(line, Outdent);
      && IsListItem(r)
      && MatchListHead(r).value.marker == MatchListHead(line).value.marker
      && (IndentationLevel(line) >= 2 ==>
            r == line[2..] && IndentationLevel(r) == IndentationLevel(line) - 2)
      && (IndentationLevel(line) < 2 ==> r == line)
  {
    if IndentationLevel(line) >= 2 {
      OutdentedItem(line);
    }
  }

  /** A list item indented by at least two characters, with its first two
      characters dropped, is a list item with the same marker and an
      indentation two shallower. */
  lemma {:induction false} OutdentedItem(line: string)
    requires IsListItem(line) && IndentationLevel(line) >= 2
    ensures IsListItem(line[2..])
    ensures MatchListHead(line[2..]).value.marker == MatchListHead(line).value.marker
    ensures IndentationLevel(line[2..]) == IndentationLevel(line) - 2
  {
    var h := MatchListHead(line).value;
    var w := h.indentWidth;
    var k := w + |MarkerText(h.marker)|;
    ListItemParts(line);
    OutdentedParts(line[..w], h.marker, line[k], line[k + 1..]);
  }

  /** Dropping two characters of an indent of at least two leaves a list
      item with the same marker and the indent two shorter. */
  lemma {:induction false} OutdentedParts(indent: string, m: Marker, c: char, rest: string)
    requires AllSpace(indent) && |indent| >= 2 && ValidMarker(m) && IsSpace(c)
    ensures (indent + MarkerText(m) + [c] + rest)[2..] == indent[2..] + MarkerText(m) + [c] + rest
    ensures MatchListHead(indent[2..] + MarkerText(m) + [c] + rest) == Some(ListHead(|indent| - 2, m))
  {
    assert AllSpace(indent[2..]) by {
      assert forall i :: 0 <= i < |indent| - 2 ==> indent[2..][i] == indent[i + 2];
    }
    MatchListHeadComplete(indent[2..], m, c, rest);
  }

  /** A line that is not a list item is never changed, in either direction. */
  lemma {:induction false} NonListLineUnchanged(line: string, action: IndentAction)
    requires !IsListItem(line)
    ensures ModifyIndentation(line, action) == line
  {
  }

  /** Outdenting an indented list item gives the item back. */
  lemma {:induction false} OutdentUndoesIndent(line: string)
    ensures ModifyIndentation(ModifyIndentation(line, Indent), Outdent) == line
  {
    if IsListItem(line) {
      IndentListItem(line);
      var r := "  " + line;
      OutdentListItem(r);
      assert r[2..] == line;
    }
  }

  /** Indenting an outdented list item gives the item back when the two
      characters outdenting drops are spaces. */
  lemma {:induction false} IndentUndoesOutdent(line: string)
    requires IsListItem(line) ==> IndentationLevel(line) >= 2 && |line| >= 2 && line[..2] == "  "
    ensures ModifyIndentation(ModifyIndentation(line, Outdent), Indent) == line
  {
    if IsListItem(line) {
      OutdentListItem(line);
      var r := line[2..];
      IndentListItem(r);
      assert line == line[..2] + r;
    }
  }

  /** The mutator adds or removes characters only at the front, so a line
      without a line feed stays without one. */
  lemma {:induction false} ModifyKeepsLineFeedsOut(line: string, action: IndentAction)
    requires '\n' !in line
    ensures '\n' !in ModifyIndentation(line, action)
  {
    if IsListItem(line) && action == Outdent && IndentationLevel(line) >= 2 {
      assert forall c :: c in line[2..] ==> c in line;
    }
  }

  // ------------------------------------- /^(\s*)([-*+]|\d+\.)(\s+)(.*)$/

  /** The four groups of the Enter handler's pattern. */
  datatype ListLine = ListLine(indent: string, marker: Marker, space: string, content: string)

  function RenderListLine(l: ListLine): string {
    l.indent + MarkerText(l.marker) + l.space + l.content
  }

  predicate NoLineTerminator(s: string) {
    forall i :: 0 <= i < |s| ==> !IsLineTerminator(s[i])
  }

  /** The groups as the greedy match leaves them: whitespace indent, a
      marker, a non-empty whitespace run taken in full, and a content with
      no line terminator (`.` does not match one and `$` is the end of
      input). */
  predicate WellFormedListLine(l: ListLine) {
    && AllSpace(l.indent)
    && ValidMarker(l.marker)
    && l.space != [] && AllSpace(l.space)
    && (l.content == [] || !IsSpace(l.content[0]))
    && NoLineTerminator(l.content)
  }

  /** The pattern of the Enter handler, matched against the text from the
      start of the caret's line to the caret. */
  function MatchListLine(line: string): (r: Option<ListLine>)
    ensures r.Some? ==> WellFormedListLine(r.value) && RenderListLine(r.value) == line
  {
    var w := LeadingSpaces(line);
    match MatchMarker(line[w..])
    case None => None
    case Some(m) =>
      var k := w + |MarkerText(m)|;
      var s := LeadingSpaces(line[k..]);
      if s > 0 && NoLineTerminator(line[k + s..]) then
        ListLineParts(line, w, m, k, s);
        Some(ListLine(line[..w], m, line[k..k + s], line[k + s..]))
      else None
  }

  /** What the pattern captures are well-formed groups that make up the
      line. */
  lemma {:induction false} MatchListLineSound(line: string)
    requires MatchListLine(line).Some?
    ensures WellFormedListLine(MatchListLine(line).value)
    ensures RenderListLine(MatchListLine(line).value) == line
  {
    var w := LeadingSpaces(line);
    var m := MatchMarker(line[w..]).value;
    var k := w + |MarkerText(m)|;
    var s := LeadingSpaces(line[k..]);
    assert s > 0 && NoLineTerminator(line[k + s..]);
    MatchListLineAt(line, w, m, k, s);
    ListLineParts(line, w, m, k, s);
  }

  lemma {:induction false} ListLineParts(line: string, w: nat, m: Marker, k: nat, s: nat)
    requires w == LeadingSpaces(line)
    requires MatchMarker(line[w..]) == Some(m)
    requires k == w + |MarkerText(m)|
    requires s == LeadingSpaces(line[k..]) && s > 0
    requires NoLineTerminator(line[k + s..])
    ensures WellFormedListLine(ListLine(line[..w], m, line[k..k + s], line[k + s..]))
    ensures RenderListLine(ListLine(line[..w], m, line[k..k + s], line[k + s..])) == line
  {
    var t := MarkerText(m);
    assert line[w..k] == t by {
      MatchMarkerSound(line[w..]);
      assert line[w..k] == line[w..][..|t|];
    }
    FourPieces(line, w, k, k + s);
    LeadingRunIsSpace(line, w);
    SpaceThenContent(line[k..], s);
    assert line[k..][..s] == line[k..k + s] && line[k..][s..] == line[k + s..];
  }

  /** A string is the concatenation of its slices at three cut points. */
  lemma {:induction false} FourPieces(line: string, a: nat, b: nat, c: nat)
    requires a <= b <= c <= |line|
    ensures line[..a] + line[a..b] + line[b..c] + line[c..] == line
  {
  }

  /** The leading whitespace run of a string is all whitespace. */
  lemma {:induction false} LeadingRunIsSpace(line: string, w: nat)
    requires w == LeadingSpaces(line)
    ensures AllSpace(line[..w])
  {
    assert forall i :: 0 <= i < w ==> line[..w][i] == line[i];
  }

  /** Cut after its leading whitespace run, a string splits into an
      all-whitespace part and a part that does not start with whitespace. */
  lemma {:induction false} SpaceThenContent(r: string, s: nat)
    requires s == LeadingSpaces(r)
    ensures AllSpace(r[..s])
    ensures r[s..] == [] || !IsSpace(r[s..][0])
  {
    LeadingRunIsSpace(r, s);
    if s < |r| {
      assert r[s..][0] == r[s];
    }
  }

  /** Every well-formed list line is matched, with exactly its own groups:
      the match recognises the pattern and nothing else. */
  lemma {:induction false} MatchListLineComplete(l: ListLine)
    requires WellFormedListLine(l)
    ensures MatchListLine(RenderListLine(l)) == Some(l)
  {
    var line := RenderListLine(l);
    var w, k, s := |l.indent|, |l.indent| + |MarkerText(l.marker)|, |l.space|;
    assert LeadingSpaces(line) == w && MatchMarker(line[w..]) == Some(l.marker) by {
      RenderedIndentAndMarker(l);
    }
    assert k <= |line| && LeadingSpaces(line[k..]) == s by {
      RenderedSpace(l);
    }
    assert k + s <= |line| && line[..w] == l.indent && line[k..k + s] == l.space
        && line[k + s..] == l.content by {
      ConcatSlices(l.indent, MarkerText(l.marker), l.space, l.content);
    }
    MatchListLineAt(line, w, l.marker, k, s);
  }

  /** In a rendered list line the pattern's first two groups find the
      indent and the marker. */
  lemma {:induction false} RenderedIndentAndMarker(l: ListLine)
    requires WellFormedListLine(l)
    ensures var line := RenderListLine(l);
      && LeadingSpaces(line) == |l.indent|
      && MatchMarker(line[|l.indent|..]) == Some(l.marker)
  {
    var t := MarkerText(l.marker);
    ConcatSlices(l.indent, t, l.space, l.content);
    MarkerTextStartsSolid(l.marker);
    LeadingSpacesOfIndented(l.indent, t + (l.space + l.content));
    MatchMarkerComplete(l.marker, l.space + l.content);
  }

  /** In a rendered list line the whitespace run after the marker is the
      whole separating whitespace group. */
  lemma {:induction false} RenderedSpace(l: ListLine)
    requires WellFormedListLine(l)
    ensures var line := RenderListLine(l);
      var k := |l.indent| + |MarkerText(l.marker)|;
      k <= |line| && LeadingSpaces(line[k..]) == |l.space|
  {
    var t := MarkerText(l.marker);
    ConcatSlices(l.indent, t, l.space, l.content);
    if l.content == [] {
      assert l.space + l.content == l.space;
      assert LeadingSpaces(l.space) == |l.space|;
    } else {
      LeadingSpacesOfIndented(l.space, l.content);
    }
  }

  /** The slices of a line made of four pieces. */
  lemma {:induction false} ConcatSlices(a: string, b: string, c: string, d: string)
    ensures var line := a + b + c + d;
      && line == a + (b + (c + d))
      && line[..|a|] == a
      && line[|a|..] == b + (c + d)
      && line[|a| + |b|..] == c + d
      && line[|a| + |b|..|a| + |b| + |c|] == c
      && line[|a| + |b| + |c|..] == d
  {
  }

  /** `MatchListLine` once its intermediate positions are known. */
  lemma {:induction false} MatchListLineAt(line: string, w: nat, m: Marker, k: nat, s: nat)
    requires w == LeadingSpaces(line)
    requires MatchMarker(line[w..]) == Some(m)
    requires k == w + |MarkerText(m)|
    requires s == LeadingSpaces(line[k..]) && s > 0
    requires NoLineTerminator(line[k + s..])
    ensures MatchListLine(line) == Some(ListLine(line[..w], m, line[k..k + s], line[k + s..]))
  {
    assert MatchMarker(line[LeadingSpaces(line)..]) == Some(m);
    assert LeadingSpaces(line) + |MarkerText(MatchMarker(line[LeadingSpaces(line)..]).value)| == k;
    var r := MatchListLine(line);
    assert r.Some?;
    assert r.value.indent == line[..w];
    assert r.value.marker == m;
    assert r.value.space == line[k..k + s];
    assert r.value.content == line[k + s..];
  }

  /** A line the Enter pattern matches is also a list item for the Tab
      handler's pattern, with the same marker. */
  lemma {:induction false} ListLineIsListItem(line: string)
    requires MatchListLine(line).Some?
    ensures IsListItem(line)
    ensures MatchListHead(line).value.marker == MatchListLine(line).value.marker
  {
    var l := MatchListLine(line).value;
    MatchListLineSound(line);
    assert line == l.indent + MarkerText(l.marker) + [l.space[0]] + (l.space[1..] + l.content);
    MatchListHeadComplete(l.indent, l.marker, l.space[0], l.space[1..] + l.content);
  }

  /** The content group of a match is blank exactly when it is empty, since
      the whitespace run before it is taken in full. */
  lemma {:induction false} ContentBlankIffEmpty(l: ListLine)
    requires WellFormedListLine(l)
    ensures Trim(l.content) == [] <==> l.content == []
  {
  }

  // ----------------------------------------------------- list continuation

  /** The marker of the item that continues a list: an ordered marker's
      number (read as `parseInt` does) plus one, or the same bullet. */
  function NextMarker(m: Marker): (r: Marker)
    requires ValidMarker(m)
    ensures ValidMarker(r)
    ensures m.Bullet? ==> r == m
    ensures m.Ordered? ==> r.Ordered? && DigitsValue(r.digits) == DigitsValue(m.digits) + 1
  {
    match m
    case Bullet(_) => m
    case Ordered(d) =>
      var next := DigitsValue(d) + 1;
      DecimalRoundTrip(next);
      Ordered(NatToDecimal(next))
  }

  /** The text put on the new line when a list continues:
      indent, next marker, and the same separating whitespace. */
  function ContinuationPrefix(l: ListLine): (r: string)
    requires ValidMarker(l.marker)
    ensures WellFormedListLine(l) ==>
      MatchListLine(r) == Some(ListLine(l.indent, NextMarker(l.marker), l.space, []))
  {
    var prefix := l.indent + MarkerText(NextMarker(l.marker)) + l.space;
    if WellFormedListLine(l) then
      var n := ListLine(l.indent, NextMarker(l.marker), l.space, []);
      assert RenderListLine(n) == prefix;
      MatchListLineComplete(n);
      prefix
    else prefix
  }

  /** The continuation prefix is itself an empty list item with the next
      marker, so pressing Enter again right after it leaves the list. */
  lemma {:induction false} ContinuationIsEmptyItem(l: ListLine)
    requires WellFormedListLine(l)
    ensures MatchListLine(ContinuationPrefix(l))
         == Some(ListLine(l.indent, NextMarker(l.marker), l.space, []))
  {
    var n := ListLine(l.indent, NextMarker(l.marker), l.space, []);
    assert RenderListLine(n) == ContinuationPrefix(l);
    MatchListLineComplete(n);
  }
}
