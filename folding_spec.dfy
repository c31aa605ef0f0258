/**
 * The meaning of the folding state, stated once and independently of the
 * loops that compute it: which regions are foldable, which lines a set of
 * collapsed regions hides, which lines stay visible, how the hidden ranges are
 * hashed, and how collapsed states move when lines are inserted or deleted.
 */
module FoldingSpec {
  import opened SparseArrays

  datatype Option<T> = None | Some(value: T)

  /** A code block reported by the styling pass: lines startLine..endLine. */
  datatype CodeBlock = CodeBlock(startLine: int, endLine: int)

  /** What `getFoldRegion` reports about a foldable start line. */
  datatype FoldRegion = FoldRegion(startLine: int, endLine: int, collapsed: bool)

  /** The region [start, end] can hide something (end > start) and contains `line`. */
  predicate Encloses(start: int, end: int, line: int) {
    start < end && start <= line <= end
  }

  // ---------------------------------------------------------------------------
  // Foldable regions

  /** `max(0, lineCount - 1)` */
  function LastLine(lineCount: int): (r: int)
    ensures r >= 0 && r >= lineCount - 1
    ensures lineCount >= 1 ==> r == lineCount - 1
  {
    if lineCount - 1 > 0 then lineCount - 1 else 0
  }

  /** A block's end line, clamped to the last line of the document. */
  function ClampedEnd(b: CodeBlock, lastLine: int): (r: int)
    ensures r <= lastLine && r <= b.endLine
    ensures r == b.endLine || r == lastLine
  {
    if b.endLine > lastLine then lastLine else b.endLine
  }

  /** A non-null block whose start is a line of the document and whose end,
      clamped to the last line, lies after its start. */
  predicate Admits(b: Option<CodeBlock>, lastLine: int)
    ensures Admits(b, lastLine) ==> b.Some? && 0 <= b.value.startLine < ClampedEnd(b.value, lastLine) <= lastLine
  {
    b.Some? && 0 <= b.value.startLine <= lastLine && b.value.startLine < ClampedEnd(b.value, lastLine)
  }

  /** `f` holds, for every start line of an admitted block among the first n,
      the largest clamped end among those blocks with that start, and nothing
      else. */
  ghost predicate FoldableAmong(f: map<int, int>, blocks: seq<Option<CodeBlock>>, n: nat, lastLine: int)
    requires n <= |blocks|
  {
    && (forall s :: s in f <==> exists i :: 0 <= i < n && Admits(blocks[i], lastLine) && blocks[i].value.startLine == s)
    && (forall i :: 0 <= i < n && Admits(blocks[i], lastLine) ==>
          blocks[i].value.startLine in f && ClampedEnd(blocks[i].value, lastLine) <= f[blocks[i].value.startLine])
    && (forall s :: s in f ==>
          exists i :: 0 <= i < n && Admits(blocks[i], lastLine) &&
            blocks[i].value.startLine == s && ClampedEnd(blocks[i].value, lastLine) == f[s])
  }

  ghost predicate FoldableFrom(f: map<int, int>, blocks: seq<Option<CodeBlock>>, lastLine: int) {
    FoldableAmong(f, blocks, |blocks|, lastLine)
  }

  /** The foldable regions computed from the blocks in order: an admitted
      block records its clamped end at its start line unless a larger or equal
      end is recorded there already. */
  function FoldableEnds(blocks: seq<Option<CodeBlock>>, lastLine: int): (r: map<int, int>)
    ensures forall s :: s in r ==> 0 <= s < r[s] <= lastLine
  {
    if |blocks| == 0 then map[]
    else
      var f := FoldableEnds(blocks[..|blocks| - 1], lastLine);
      var b := blocks[|blocks| - 1];
      if Admits(b, lastLine) && (b.value.startLine !in f || f[b.value.startLine] < ClampedEnd(b.value, lastLine))
      then f[b.value.startLine := ClampedEnd(b.value, lastLine)]
      else f
  }

  /** The computed regions are exactly the largest clamped ends per start line
      of the admitted blocks. */
  lemma {:induction false} FoldableEndsExact(blocks: seq<Option<CodeBlock>>, n: nat, lastLine: int)
    requires n <= |blocks|
    ensures FoldableAmong(FoldableEnds(blocks[..n], lastLine), blocks, n, lastLine)
  {
    if n > 0 {
      var m := n - 1;
      FoldableEndsExact(blocks, m, lastLine);
      var pre := blocks[..n];
      assert pre[..|pre| - 1] == blocks[..m];
      var f := FoldableEnds(blocks[..m], lastLine);
      var b := blocks[m];
      assert pre[|pre| - 1] == b;
      if !Admits(b, lastLine) {
        assert FoldableEnds(pre, lastLine) == f;
        FoldableSkip(f, blocks, m, lastLine);
      } else if b.value.startLine !in f || f[b.value.startLine] < ClampedEnd(b.value, lastLine) {
        assert FoldableEnds(pre, lastLine) == f[b.value.startLine := ClampedEnd(b.value, lastLine)];
        FoldableRaise(f, blocks, m, lastLine);
      } else {
        assert FoldableEnds(pre, lastLine) == f;
        FoldableKeep(f, blocks, m, lastLine);
      }
    }
  }

  lemma FoldableEndsMeaning(blocks: seq<Option<CodeBlock>>, lastLine: int)
    ensures FoldableFrom(FoldableEnds(blocks, lastLine), blocks, lastLine)
  {
    FoldableEndsExact(blocks, |blocks|, lastLine);
    assert blocks[..|blocks|] == blocks;
  }

  /** Every foldable region starts at a line of the document, ends at or
      before its last line and hides at least one line. */
  lemma FoldableEndsBounds(blocks: seq<Option<CodeBlock>>, lastLine: int)
    ensures forall s :: s in FoldableEnds(blocks, lastLine) ==>
      0 <= s < FoldableEnds(blocks, lastLine)[s] <= lastLine
  {
    FoldableEndsMeaning(blocks, lastLine);
    FoldableBounds(FoldableEnds(blocks, lastLine), blocks, lastLine);
  }

  /** Every foldable region lies in the document and hides at least one line. */
  lemma FoldableBounds(f: map<int, int>, blocks: seq<Option<CodeBlock>>, lastLine: int)
    requires FoldableFrom(f, blocks, lastLine)
    ensures forall s :: s in f ==> 0 <= s < f[s] <= lastLine
  {
    forall s | s in f ensures 0 <= s < f[s] <= lastLine {
      var i :| 0 <= i < |blocks| && Admits(blocks[i], lastLine) &&
          blocks[i].value.startLine == s && ClampedEnd(blocks[i].value, lastLine) == f[s];
    }
  }

  lemma FoldableSkip(f: map<int, int>, blocks: seq<Option<CodeBlock>>, i: nat, lastLine: int)
    requires i < |blocks| && FoldableAmong(f, blocks, i, lastLine) && !Admits(blocks[i], lastLine)
    ensures FoldableAmong(f, blocks, i + 1, lastLine)
  {
  }

  lemma FoldableKeep(f: map<int, int>, blocks: seq<Option<CodeBlock>>, i: nat, lastLine: int)
    requires i < |blocks| && FoldableAmong(f, blocks, i, lastLine) && Admits(blocks[i], lastLine)
    requires blocks[i].value.startLine in f && ClampedEnd(blocks[i].value, lastLine) <= f[blocks[i].value.startLine]
    ensures FoldableAmong(f, blocks, i + 1, lastLine)
  {
  }

  lemma FoldableRaise(f: map<int, int>, blocks: seq<Option<CodeBlock>>, i: nat, lastLine: int)
    requires i < |blocks| && FoldableAmong(f, blocks, i, lastLine) && Admits(blocks[i], lastLine)
    requires var s := blocks[i].value.startLine;
      s !in f || f[s] < ClampedEnd(blocks[i].value, lastLine)
    ensures var b := blocks[i].value;
      FoldableAmong(f[b.startLine := ClampedEnd(b, lastLine)], blocks, i + 1, lastLine)
  {
    var b := blocks[i].value;
    var g := f[b.startLine := ClampedEnd(b, lastLine)];
    forall s | s in g
      ensures exists j ::
          0 <= j < i + 1 && Admits(blocks[j], lastLine) &&
          blocks[j].value.startLine == s && ClampedEnd(blocks[j].value, lastLine) == g[s]
    {
      if s == b.startLine {
        assert Admits(blocks[i], lastLine) && ClampedEnd(blocks[i].value, lastLine) == g[s];
      } else {
        var j :| 0 <= j < i && Admits(blocks[j], lastLine) &&
          blocks[j].value.startLine == s && ClampedEnd(blocks[j].value, lastLine) == f[s];
      }
    }
  }


  // ---------------------------------------------------------------------------
  // Hidden ranges

  /** `line` is covered by the collapsed region starting at `s`: the lines
      after the start line up to the region's end. */
  ghost predicate Covered(collapsed: map<int, bool>, foldable: map<int, int>, line: int) {
    exists s :: s in collapsed && s in foldable && s < line <= foldable[s]
  }

  /** `line` lies in one of the ranges [k, h[k]]. */
  ghost predicate InRanges(h: SparseArray<int>, line: int) {
    exists k :: k in h.entries && k <= line <= h.entries[k]
  }

  /** Ascending, non-empty ranges, each ending at least two lines before the
      next one starts (ranges that touch are merged). */
  ghost predicate WellFormedRanges(h: SparseArray<int>) {
    && h.Valid()
    && (forall k :: k in h.entries ==> k <= h.entries[k])
    && (forall i, j :: 0 <= i < j < |h.keys| ==> h.ValueAt(i) + 1 < h.keys[j])
  }

  /** The hidden ranges are exactly the merged collapsed regions. */
  ghost predicate HiddenExact(h: SparseArray<int>, collapsed: map<int, bool>, foldable: map<int, int>) {
    WellFormedRanges(h) && forall line :: InRanges(h, line) <==> Covered(collapsed, foldable, line)
  }

  /** A collapsed region's own start line is hidden only when some other
      collapsed region covers it. */
  lemma StartLineHiddenOnlyIfCovered(h: SparseArray<int>, collapsed: map<int, bool>, foldable: map<int, int>, s: int)
    requires HiddenExact(h, collapsed, foldable)
    requires s in collapsed && s in foldable
    ensures InRanges(h, s) <==> exists t :: t in collapsed && t in foldable && t != s && t < s <= foldable[t]
  {
  }

  /** Two well-formed range arrays covering the same lines are the same. */
  lemma {:induction false} RangesCanonical(h: SparseArray<int>, g: SparseArray<int>)
    requires WellFormedRanges(h) && WellFormedRanges(g)
    requires forall line :: InRanges(h, line) <==> InRanges(g, line)
    ensures h == g
  {
    RangesCanonicalFrom(h, g, 0);
    assert h.entries == g.entries by {
      forall k | k in h.entries ensures k in g.entries && h.entries[k] == g.entries[k] {
        var i :| 0 <= i < |h.keys| && h.keys[i] == k;
      }
      forall k | k in g.entries ensures k in h.entries {
        var i :| 0 <= i < |g.keys| && g.keys[i] == k;
      }
    }
  }

  lemma {:induction false} RangesCanonicalFrom(h: SparseArray<int>, g: SparseArray<int>, n: nat)
    requires WellFormedRanges(h) && WellFormedRanges(g)
    requires forall line :: InRanges(h, line) <==> InRanges(g, line)
    requires n <= |h.keys| && n <= |g.keys|
    requires forall i :: 0 <= i < n ==> h.keys[i] == g.keys[i] && h.ValueAt(i) == g.ValueAt(i)
    ensures |h.keys| == |g.keys|
    ensures forall i :: 0 <= i < |h.keys| ==> h.keys[i] == g.keys[i] && h.ValueAt(i) == g.ValueAt(i)
    decreases |h.keys| - n
  {
    if n < |h.keys| {
      var j := RangeHolding(h, g, n);
      if j < |g.keys| {
        var j' := RangeHolding(g, h, n);
        assert j == n && j' == n;
        EndsAgree(h, g, n);
        EndsAgree(g, h, n);
        RangesCanonicalFrom(h, g, n + 1);
      }
    } else if n < |g.keys| {
      var j' := RangeHolding(g, h, n);
    }
  }

  /** With the first n ranges equal, the start of h's n-th range lies in g's
      n-th range (so g has one), and the two starts coincide when both have one. */
  lemma RangeHolding(h: SparseArray<int>, g: SparseArray<int>, n: nat) returns (j: nat)
    requires WellFormedRanges(h) && WellFormedRanges(g)
    requires forall line :: InRanges(h, line) <==> InRanges(g, line)
    requires n < |h.keys| && n <= |g.keys|
    requires forall i :: 0 <= i < n ==> h.keys[i] == g.keys[i] && h.ValueAt(i) == g.ValueAt(i)
    ensures j == n < |g.keys| && g.keys[n] <= h.keys[n] <= g.ValueAt(n)
  {
    var a := h.keys[n];
    assert a in h.entries && InRanges(h, a);
    assert InRanges(g, a);
    var k :| k in g.entries && k <= a <= g.entries[k];
    j :| 0 <= j < |g.keys| && g.keys[j] == k;
    if n < |g.keys| {
      StartNotAfter(h, g, n);
    }
  }

  /** With the first n ranges equal, h's n-th range starts no later than g's. */
  lemma StartNotAfter(h: SparseArray<int>, g: SparseArray<int>, n: nat)
    requires WellFormedRanges(h) && WellFormedRanges(g)
    requires forall line :: InRanges(h, line) <==> InRanges(g, line)
    requires n < |h.keys| && n < |g.keys|
    requires forall i :: 0 <= i < n ==> h.keys[i] == g.keys[i] && h.ValueAt(i) == g.ValueAt(i)
    ensures h.keys[n] <= g.keys[n]
  {
    var b := g.keys[n];
    assert b in g.entries && InRanges(g, b);
    assert InRanges(h, b);
    var k :| k in h.entries && k <= b <= h.entries[k];
    var i :| 0 <= i < |h.keys| && h.keys[i] == k;
  }

  /** With the first n ranges and the n-th starts equal, h's n-th range ends no
      later than g's. */
  lemma EndsAgree(h: SparseArray<int>, g: SparseArray<int>, n: nat)
    requires WellFormedRanges(h) && WellFormedRanges(g)
    requires forall line :: InRanges(h, line) <==> InRanges(g, line)
    requires n < |h.keys| && n < |g.keys| && h.keys[n] == g.keys[n]
    requires forall i :: 0 <= i < n ==> h.keys[i] == g.keys[i] && h.ValueAt(i) == g.ValueAt(i)
    ensures h.ValueAt(n) <= g.ValueAt(n)
  {
    var a, b := h.keys[n], h.ValueAt(n);
    if g.ValueAt(n) < b {
      var line := g.ValueAt(n) + 1;
      assert a in h.entries && InRanges(h, line);
    }
  }

  /** Equal collapsed and foldable states determine the hidden ranges. */
  lemma HiddenRangesDetermined(h: SparseArray<int>, g: SparseArray<int>,
                               collapsed: map<int, bool>, foldable: map<int, int>)
    requires HiddenExact(h, collapsed, foldable) && HiddenExact(g, collapsed, foldable)
    ensures h == g
  {
    RangesCanonical(h, g);
  }

  /** With nothing collapsed there is no hidden range. */
  lemma NothingCollapsedNothingHidden(h: SparseArray<int>, foldable: map<int, int>)
    requires HiddenExact(h, map[], foldable)
    ensures h == Empty()
  {
    assert forall k :: k in h.entries ==> InRanges(h, k);
    assert forall k :: k !in h.entries;
    SameEntriesSameArray(h, Empty());
  }

  /** Collapsing a start that was not collapsed and then expanding it again
      restores the collapse states, the recorded ends and the hidden ranges. */
  lemma FoldThenUnfoldRestores(c: SparseArray<bool>, e: SparseArray<int>, foldable: map<int, int>,
                               h: SparseArray<int>, g: SparseArray<int>, s: int, end: int)
    requires c.Valid() && e.Valid() && s !in c.entries && s !in e.entries
    requires HiddenExact(h, c.entries, foldable)
    requires HiddenExact(g, c.Put(s, true).Delete(s).entries, foldable)
    ensures c.Put(s, true).Delete(s) == c
    ensures e.Put(s, end).Delete(s) == e
    ensures g == h
  {
    var c2, e2 := c.Put(s, true).Delete(s), e.Put(s, end).Delete(s);
    assert c2.entries == c.entries;
    assert e2.entries == e.entries;
    SameEntriesSameArray(c2, c);
    SameEntriesSameArray(e2, e);
    HiddenRangesDetermined(g, h, c.entries, foldable);
  }

  // ---------------------------------------------------------------------------
  // Visible lines

  /** The lines of 0..n-1 outside every hidden range, in ascending order: the
      visible row r shows line VisibleLinesOf(h, n)[r]. */
  ghost function VisibleLinesOf(h: SparseArray<int>, n: nat): (r: seq<int>)
    ensures StrictlyIncreasing(r)
    ensures forall i :: 0 <= i < |r| ==> 0 <= r[i] < n
  {
    if n == 0 then []
    else
      var prev := VisibleLinesOf(h, n - 1);
      if InRanges(h, n - 1) then prev else prev + [n - 1]
  }

  /** The row of a line: -1 when it is hidden, otherwise the number of
      visible lines before it. */
  ghost function RowOfLine(h: SparseArray<int>, line: nat): (r: int)
    ensures r == -1 <==> InRanges(h, line)
    ensures -1 <= r
  {
    if InRanges(h, line) then -1 else |VisibleLinesOf(h, line)|
  }

  /** A line is listed exactly when it lies in 0..n-1 and is not hidden. */
  lemma {:induction false} VisibleLinesExact(h: SparseArray<int>, n: nat)
    ensures forall line :: line in VisibleLinesOf(h, n) <==> 0 <= line < n && !InRanges(h, line)
  {
    if n > 0 {
      VisibleLinesExact(h, n - 1);
    }
  }

  /** The visible lines below m are a prefix of those below n, and the rest
      are lines from m on. */
  lemma {:induction false} VisiblePrefix(h: SparseArray<int>, m: nat, n: nat)
    requires m <= n
    ensures |VisibleLinesOf(h, m)| <= |VisibleLinesOf(h, n)|
    ensures VisibleLinesOf(h, n)[..|VisibleLinesOf(h, m)|] == VisibleLinesOf(h, m)
    ensures forall j :: |VisibleLinesOf(h, m)| <= j < |VisibleLinesOf(h, n)| ==> m <= VisibleLinesOf(h, n)[j]
    decreases n - m
  {
    if m < n {
      VisiblePrefix(h, m, n - 1);
      var vm, vp, vn := VisibleLinesOf(h, m), VisibleLinesOf(h, n - 1), VisibleLinesOf(h, n);
      if !InRanges(h, n - 1) {
        assert vn == vp + [n - 1];
        assert vn[..|vm|] == vp[..|vm|];
        forall j | |vm| <= j < |vn| ensures m <= vn[j] {
          if j < |vp| {
            assert vn[j] == vp[j];
          }
        }
      }
    }
  }

  /** A visible line's row is the number of visible lines before it. */
  lemma RowOfVisibleLine(h: SparseArray<int>, line: nat, n: nat)
    requires line < n && !InRanges(h, line)
    ensures |VisibleLinesOf(h, line)| < |VisibleLinesOf(h, n)|
    ensures VisibleLinesOf(h, n)[|VisibleLinesOf(h, line)|] == line
  {
    VisiblePrefix(h, line + 1, n);
    assert VisibleLinesOf(h, line + 1) == VisibleLinesOf(h, line) + [line];
  }

  /** The insertion point of a line among the visible lines is the number of
      visible lines before it. */
  lemma RankAmongVisible(h: SparseArray<int>, line: nat, n: nat)
    requires line <= n
    ensures Rank(VisibleLinesOf(h, n), line) == |VisibleLinesOf(h, line)|
  {
    VisiblePrefix(h, line, n);
    var vl, vn := VisibleLinesOf(h, line), VisibleLinesOf(h, n);
    forall j | 0 <= j < |vl| ensures vn[j] < line {
      assert vn[j] == vl[j];
    }
    RankIs(vn, line, |vl|);
  }

  /** Row and line agree both ways: the line shown on a row is a visible line
      of the document whose own row is that row. */
  lemma VisibleRowRoundTrip(h: SparseArray<int>, n: nat, row: nat)
    requires row < |VisibleLinesOf(h, n)|
    ensures 0 <= VisibleLinesOf(h, n)[row] < n
    ensures !InRanges(h, VisibleLinesOf(h, n)[row])
    ensures |VisibleLinesOf(h, VisibleLinesOf(h, n)[row])| == row
  {
    var vn := VisibleLinesOf(h, n);
    var line := vn[row];
    VisibleLinesExact(h, n);
    assert line in vn;
    RankAmongVisible(h, line, n);
    RankIs(vn, line, row);
  }

  /** The line-to-row map and the row-to-line list are inverse: a line has
      row `row` exactly when that row shows the line. */
  lemma MappingInverse(h: SparseArray<int>, n: nat, line: nat, row: int)
    requires line < n && 0 <= row
    ensures RowOfLine(h, line) == row <==> row < |VisibleLinesOf(h, n)| && VisibleLinesOf(h, n)[row] == line
  {
    if RowOfLine(h, line) == row {
      RowOfVisibleLine(h, line, n);
    }
    if row < |VisibleLinesOf(h, n)| && VisibleLinesOf(h, n)[row] == line {
      VisibleRowRoundTrip(h, n, row);
    }
  }

  // ---------------------------------------------------------------------------
  // Hash of the hidden ranges

  /** Java's `int` arithmetic: the value congruent to x modulo 2^32 in
      [-2^31, 2^31). */
  function Int32(x: int): (r: int)
    ensures -0x8000_0000 <= r < 0x8000_0000
    ensures (x - r) % 0x1_0000_0000 == 0
    ensures -0x8000_0000 <= x < 0x8000_0000 ==> r == x
  {
    (x + 0x8000_0000) % 0x1_0000_0000 - 0x8000_0000
  }

  /** One step `h = 31 * h + x` in `int` arithmetic. */
  function Mix(h: int, x: int): (r: int)
    ensures -0x8000_0000 <= r < 0x8000_0000
    ensures (r - (31 * h + x)) % 0x1_0000_0000 == 0
  {
    Int32(31 * h + x)
  }

  /** The hash after the first n ranges: start 17, then mix in each range's
      start and end. */
  function HashOfFirst(h: SparseArray<int>, n: nat): (r: int)
    requires h.Valid() && n <= |h.keys|
    ensures n > 0 ==> -0x8000_0000 <= r < 0x8000_0000
  {
    if n == 0 then 17 else Mix(Mix(HashOfFirst(h, n - 1), h.keys[n - 1]), h.ValueAt(n - 1))
  }

  function RangesHash(h: SparseArray<int>): (r: int)
    requires h.Valid()
    ensures |h.keys| == 0 ==> r == 17
    ensures -0x8000_0000 <= r < 0x8000_0000
  {
    HashOfFirst(h, |h.keys|)
  }

  /** When two states hide the same lines their ranges, and hence their hashes,
      are equal: a restyling that hides nothing new or old reports no change. */
  lemma SameHiddenLinesSameHash(h: SparseArray<int>, c1: map<int, bool>, f1: map<int, int>,
                                g: SparseArray<int>, c2: map<int, bool>, f2: map<int, int>)
    requires HiddenExact(h, c1, f1) && HiddenExact(g, c2, f2)
    requires forall line :: Covered(c1, f1, line) <==> Covered(c2, f2, line)
    ensures h == g && RangesHash(h) == RangesHash(g)
  {
    RangesCanonical(h, g);
  }

  /** The converse fails: the single ranges [1, 40] and [2, 9] hash alike, so a
      change between them goes unreported. */
  lemma HashCollision()
    ensures var h, g := SparseArray([1], map[1 := 40]), SparseArray([2], map[2 := 9]);
      && WellFormedRanges(h) && WellFormedRanges(g) && h != g
      && RangesHash(h) == RangesHash(g) == 16408
  {
    var h, g := SparseArray([1], map[1 := 40]), SparseArray([2], map[2 := 9]);
    assert h.keys[0] in h.keys && g.keys[0] in g.keys;
  }

  // ---------------------------------------------------------------------------
  // Shifting collapsed states after lines are inserted or deleted

  /** A line after the anchor moves by delta; others stay. */
  function NewLine(x: int, anchor: int, delta: int): (r: int)
    ensures x <= anchor ==> r == x
    ensures anchor < x ==> r == x + delta
  {
    if x > anchor then x + delta else x
  }

  /** On deletion, the states starting in [anchor, deletedEnd] are discarded. */
  predicate Dropped(k: int, anchor: int, delta: int, deletedEnd: int)
    ensures delta >= 0 ==> !Dropped(k, anchor, delta, deletedEnd)
    ensures Dropped(k, anchor, delta, deletedEnd) ==> anchor <= k <= deletedEnd
  {
    delta < 0 && anchor <= k <= deletedEnd
  }

  /** A kept start whose new line is not negative survives the shift. */
  predicate Kept(k: int, anchor: int, delta: int, deletedEnd: int)
    ensures delta > 0 && 0 <= k ==> Kept(k, anchor, delta, deletedEnd)
    ensures 0 <= k < anchor ==> Kept(k, anchor, delta, deletedEnd)
    ensures Kept(k, anchor, delta, deletedEnd) ==> 0 <= NewLine(k, anchor, delta)
  {
    !Dropped(k, anchor, delta, deletedEnd) && NewLine(k, anchor, delta) >= 0
  }

  /** Some surviving start among `keys` moves to line s. */
  ghost predicate LandsOn(keys: seq<int>, s: int, anchor: int, delta: int, deletedEnd: int) {
    exists i :: 0 <= i < |keys| && Kept(keys[i], anchor, delta, deletedEnd) && NewLine(keys[i], anchor, delta) == s
  }

  /** The recorded end of start k after the shift: its old end (-1 when none
      is recorded), moved by delta when after the anchor. */
  function MovedEnd(k: int, ends: map<int, int>, anchor: int, delta: int): (r: int)
    ensures k !in ends && anchor >= -1 ==> r == -1
    ensures k in ends && ends[k] > anchor ==> r == ends[k] + delta
    ensures k in ends && ends[k] <= anchor ==> r == ends[k]
  {
    NewLine(if k in ends then ends[k] else -1, anchor, delta)
  }

  /** Processing one old start k with old recorded ends `ends` (an absent end
      reads as -1): a surviving start is marked collapsed at its new line, and
      its moved end is recorded there when non-negative. */
  function ShiftStep(st: (SparseArray<bool>, SparseArray<int>), k: int, ends: map<int, int>,
                     anchor: int, delta: int, deletedEnd: int): (r: (SparseArray<bool>, SparseArray<int>))
    requires st.0.Valid() && st.1.Valid()
    ensures r.0.Valid() && r.1.Valid()
  {
    var nk := NewLine(k, anchor, delta);
    var ne := MovedEnd(k, ends, anchor, delta);
    if !Kept(k, anchor, delta, deletedEnd) then st
    else (st.0.Put(nk, true), if ne >= 0 then st.1.Put(nk, ne) else st.1)
  }

  /** The collapsed starts and recorded ends after a shift, processing the old
      collapsed starts `keys` in order.  A later start landing on the same line
      as an earlier one overwrites its recorded end. */
  function ShiftStates(keys: seq<int>, ends: map<int, int>, anchor: int, delta: int, deletedEnd: int)
    : (r: (SparseArray<bool>, SparseArray<int>))
    ensures r.0.Valid() && r.1.Valid()
  {
    if |keys| == 0 then (Empty(), Empty())
    else ShiftStep(ShiftStates(keys[..|keys| - 1], ends, anchor, delta, deletedEnd), keys[|keys| - 1],
                   ends, anchor, delta, deletedEnd)
  }

  /** Every stored collapsed state is `true`. */
  ghost predicate AllCollapsed(c: SparseArray<bool>) {
    forall s :: s in c.entries ==> c.entries[s]
  }

  /** Ends are recorded only for collapsed starts, and are non-negative. */
  ghost predicate EndsRecordedFor(e: SparseArray<int>, c: SparseArray<bool>) {
    forall s :: s in e.entries ==> s in c.entries && 0 <= e.entries[s]
  }

  /** A start is collapsed after the shift exactly when a surviving old start
      lands on it; every state is collapsed, an end is recorded only for a
      collapsed start, and recorded ends are non-negative. */
  lemma {:induction false} ShiftKeys(keys: seq<int>, ends: map<int, int>, anchor: int, delta: int, deletedEnd: int)
    ensures forall s :: s in ShiftStates(keys, ends, anchor, delta, deletedEnd).0.entries <==> LandsOn(keys, s, anchor, delta, deletedEnd)
    ensures AllCollapsed(ShiftStates(keys, ends, anchor, delta, deletedEnd).0)
    ensures EndsRecordedFor(ShiftStates(keys, ends, anchor, delta, deletedEnd).1,
                            ShiftStates(keys, ends, anchor, delta, deletedEnd).0)
  {
    if |keys| > 0 {
      var pre, k := keys[..|keys| - 1], keys[|keys| - 1];
      ShiftKeys(pre, ends, anchor, delta, deletedEnd);
      var p := ShiftStates(pre, ends, anchor, delta, deletedEnd);
      ShiftStepKeys(p, k, ends, anchor, delta, deletedEnd);
      assert keys == pre + [k];
      forall s ensures LandsOn(keys, s, anchor, delta, deletedEnd) <==>
                       LandsOn(pre, s, anchor, delta, deletedEnd) || (Kept(k, anchor, delta, deletedEnd) && NewLine(k, anchor, delta) == s) {
        LandsOnSnoc(pre, k, s, anchor, delta, deletedEnd);
      }
    }
  }

  /** One shift step marks exactly the new line of a surviving start and keeps
      the states and ends consistent. */
  lemma ShiftStepKeys(p: (SparseArray<bool>, SparseArray<int>), k: int, ends: map<int, int>,
                      anchor: int, delta: int, deletedEnd: int)
    requires p.0.Valid() && p.1.Valid() && AllCollapsed(p.0) && EndsRecordedFor(p.1, p.0)
    ensures forall s :: s in ShiftStep(p, k, ends, anchor, delta, deletedEnd).0.entries <==>
              s in p.0.entries || (Kept(k, anchor, delta, deletedEnd) && NewLine(k, anchor, delta) == s)
    ensures AllCollapsed(ShiftStep(p, k, ends, anchor, delta, deletedEnd).0)
    ensures EndsRecordedFor(ShiftStep(p, k, ends, anchor, delta, deletedEnd).1, ShiftStep(p, k, ends, anchor, delta, deletedEnd).0)
  {
    var r := ShiftStep(p, k, ends, anchor, delta, deletedEnd);
    if Kept(k, anchor, delta, deletedEnd) {
      var nk := NewLine(k, anchor, delta);
      assert r.0.entries == p.0.entries[nk := true];
      assert forall s :: s in r.1.entries ==> s in p.1.entries || s == nk;
    }
  }

  /** A start lands on s after appending k exactly when one already did or k
      survives and moves to s. */
  lemma LandsOnSnoc(pre: seq<int>, k: int, s: int, anchor: int, delta: int, deletedEnd: int)
    ensures LandsOn(pre + [k], s, anchor, delta, deletedEnd) <==>
            LandsOn(pre, s, anchor, delta, deletedEnd) || (Kept(k, anchor, delta, deletedEnd) && NewLine(k, anchor, delta) == s)
  {
    var keys := pre + [k];
    if LandsOn(pre, s, anchor, delta, deletedEnd) {
      var i :| 0 <= i < |pre| && Kept(pre[i], anchor, delta, deletedEnd) && NewLine(pre[i], anchor, delta) == s;
      assert keys[i] == pre[i];
    }
    if Kept(k, anchor, delta, deletedEnd) && NewLine(k, anchor, delta) == s {
      assert keys[|pre|] == k;
    }
    if LandsOn(keys, s, anchor, delta, deletedEnd) {
      var i :| 0 <= i < |keys| && Kept(keys[i], anchor, delta, deletedEnd) && NewLine(keys[i], anchor, delta) == s;
      if i < |pre| {
        assert pre[i] == keys[i];
      }
    }
  }

  /** Inserting lines, or deleting a range that reaches at least to the last
      deleted line, never sends two kept starts to the same line. */
  lemma ShiftInjective(k1: int, k2: int, anchor: int, delta: int, deletedEnd: int)
    requires delta > 0 || deletedEnd >= anchor - delta - 1
    requires !Dropped(k1, anchor, delta, deletedEnd) && !Dropped(k2, anchor, delta, deletedEnd)
    requires k1 != k2
    ensures NewLine(k1, anchor, delta) != NewLine(k2, anchor, delta)
  {
  }
  /** After the shift the start nk carries the end ne when ne is not
      negative, and no end otherwise. */
  ghost predicate CarriesEnd(e: SparseArray<int>, nk: int, ne: int) {
    && (nk in e.entries <==> 0 <= ne)
    && (0 <= ne ==> nk in e.entries && e.entries[nk] == ne)
  }

  /** The step for a surviving start whose new line no earlier start took
      records exactly its moved end there. */
  lemma ShiftStepCarries(p: (SparseArray<bool>, SparseArray<int>), k: int, ends: map<int, int>,
                         anchor: int, delta: int, deletedEnd: int)
    requires p.0.Valid() && p.1.Valid() && Kept(k, anchor, delta, deletedEnd)
    requires NewLine(k, anchor, delta) !in p.1.entries
    ensures CarriesEnd(ShiftStep(p, k, ends, anchor, delta, deletedEnd).1, NewLine(k, anchor, delta),
                       MovedEnd(k, ends, anchor, delta))
  {
  }

  /** A step for a start landing elsewhere leaves the end at nk as it was. */
  lemma ShiftStepKeepsEnd(p: (SparseArray<bool>, SparseArray<int>), k: int, ends: map<int, int>,
                          anchor: int, delta: int, deletedEnd: int, nk: int, ne: int)
    requires p.0.Valid() && p.1.Valid() && CarriesEnd(p.1, nk, ne)
    requires Kept(k, anchor, delta, deletedEnd) ==> NewLine(k, anchor, delta) != nk
    ensures CarriesEnd(ShiftStep(p, k, ends, anchor, delta, deletedEnd).1, nk, ne)
  {
  }

  /** Where a surviving start's recorded end goes: when no two kept starts
      collide (an insertion, or a deletion whose dropped range covers the
      deleted lines), the shifted start carries exactly its moved end, and no
      end when the moved end is negative. */
  lemma {:induction false} ShiftEnds(keys: seq<int>, ends: map<int, int>, anchor: int, delta: int, deletedEnd: int, i: nat)
    requires StrictlyIncreasing(keys)
    requires delta > 0 || deletedEnd >= anchor - delta - 1
    requires i < |keys| && Kept(keys[i], anchor, delta, deletedEnd)
    ensures CarriesEnd(ShiftStates(keys, ends, anchor, delta, deletedEnd).1, NewLine(keys[i], anchor, delta),
                       MovedEnd(keys[i], ends, anchor, delta))
  {
    var pre, k := keys[..|keys| - 1], keys[|keys| - 1];
    var p := ShiftStates(pre, ends, anchor, delta, deletedEnd);
    var nk := NewLine(keys[i], anchor, delta);
    if i == |keys| - 1 {
      ShiftKeys(pre, ends, anchor, delta, deletedEnd);
      assert nk !in p.0.entries by {
        if nk in p.0.entries {
          var j :| 0 <= j < |pre| && Kept(pre[j], anchor, delta, deletedEnd) && NewLine(pre[j], anchor, delta) == nk;
          assert pre[j] == keys[j] && keys[j] < k;
          ShiftInjective(pre[j], k, anchor, delta, deletedEnd);
        }
      }
      ShiftStepCarries(p, k, ends, anchor, delta, deletedEnd);
    } else {
      assert pre[i] == keys[i] && keys[i] < k;
      ShiftEnds(pre, ends, anchor, delta, deletedEnd, i);
      if Kept(k, anchor, delta, deletedEnd) {
        ShiftInjective(keys[i], k, anchor, delta, deletedEnd);
      }
      ShiftStepKeepsEnd(p, k, ends, anchor, delta, deletedEnd, nk, MovedEnd(keys[i], ends, anchor, delta));
    }
  }

  /** Every surviving start carries its moved end after the shift, or none
      when the moved end is negative. */
  ghost predicate EndsMoved(keys: seq<int>, ends: map<int, int>, e: SparseArray<int>,
                            anchor: int, delta: int, deletedEnd: int) {
    forall i :: 0 <= i < |keys| && Kept(keys[i], anchor, delta, deletedEnd) ==>
      CarriesEnd(e, NewLine(keys[i], anchor, delta), MovedEnd(keys[i], ends, anchor, delta))
  }

  lemma ShiftEndsAll(keys: seq<int>, ends: map<int, int>, anchor: int, delta: int, deletedEnd: int)
    requires StrictlyIncreasing(keys)
    requires delta > 0 || deletedEnd >= anchor - delta - 1
    ensures EndsMoved(keys, ends, ShiftStates(keys, ends, anchor, delta, deletedEnd).1, anchor, delta, deletedEnd)
  {
    forall i | 0 <= i < |keys| && Kept(keys[i], anchor, delta, deletedEnd)
      ensures CarriesEnd(ShiftStates(keys, ends, anchor, delta, deletedEnd).1, NewLine(keys[i], anchor, delta),
                         MovedEnd(keys[i], ends, anchor, delta))
    {
      ShiftEnds(keys, ends, anchor, delta, deletedEnd, i);
    }
  }
}
