/**
 * The folding manager of the code editor: which lines start foldable regions,
 * which of them are collapsed, the hidden line ranges those collapsed regions
 * produce, and the mapping between document lines and visible rows.
 */
module Folding {
  import opened SparseArrays
  import opened FoldingSpec

  /** The foldable regions of a restyled document: for each block whose start
      lies in the document and whose end, clamped to the last line, lies after
      the start, the largest such end per start line. */
  method CollectFoldableEnds(blocks: seq<Option<CodeBlock>>, lastLine: int) returns (f: SparseArray<int>)
    ensures f.Valid() && f.entries == FoldableEnds(blocks, lastLine)
  {
    f := Empty();
    for i := 0 to |blocks|
      invariant f.Valid() && f.entries == FoldableEnds(blocks[..i], lastLine)
    {
      assert blocks[..i + 1][..i] == blocks[..i];
      var block := blocks[i];
      if block.None? {
        continue;
      }
      var startLine := block.value.startLine;
      if startLine < 0 || startLine > lastLine {
        continue;
      }
      var endLine := block.value.endLine;
      if endLine > lastLine {
        endLine := lastLine;
      }
      if endLine <= startLine {
        continue;
      }
      var oldEnd := f.Get(startLine, -1);
      if endLine > oldEnd {
        f := f.Put(startLine, endLine);
      }
    }
    assert blocks[..|blocks|] == blocks;
  }

  // ---------------------------------------------------------------------------
  // Hidden ranges

  /** Some collapsed start among the first n, with a foldable end, covers `line`. */
  ghost predicate CoveredAmong(collapsed: SparseArray<bool>, foldable: map<int, int>, n: nat, line: int)
    requires n <= |collapsed.keys|
  {
    exists j :: 0 <= j < n && collapsed.keys[j] in foldable && collapsed.keys[j] < line <= foldable[collapsed.keys[j]]
  }

  lemma CoveredAmongStep(collapsed: SparseArray<bool>, foldable: map<int, int>, n: nat, line: int)
    requires n < |collapsed.keys|
    ensures CoveredAmong(collapsed, foldable, n + 1, line) <==>
      CoveredAmong(collapsed, foldable, n, line) ||
      (collapsed.keys[n] in foldable && collapsed.keys[n] < line <= foldable[collapsed.keys[n]])
  {
  }

  lemma CoveredAmongAll(collapsed: SparseArray<bool>, foldable: map<int, int>, line: int)
    requires collapsed.Valid()
    ensures CoveredAmong(collapsed, foldable, |collapsed.keys|, line) <==> Covered(collapsed.entries, foldable, line)
  {
    if Covered(collapsed.entries, foldable, line) {
      var s :| s in collapsed.entries && s in foldable && s < line <= foldable[s];
      var j :| 0 <= j < |collapsed.keys| && collapsed.keys[j] == s;
    }
  }

  lemma InRangesPut(h: SparseArray<int>, k: int, v: int, line: int)
    requires h.Valid() && k !in h.entries
    ensures InRanges(h.Put(k, v), line) <==> InRanges(h, line) || k <= line <= v
  {
    var g := h.Put(k, v);
    if InRanges(g, line) {
      var k' :| k' in g.entries && k' <= line <= g.entries[k'];
      if k' != k {
        assert k' in h.entries;
      }
    }
    if InRanges(h, line) {
      var k' :| k' in h.entries && k' <= line <= h.entries[k'];
      assert k' in g.entries;
    }
    assert k in g.entries && g.entries[k] == v;
  }

  /** The finished ranges `h` and the current range [start, end] (none when
      start is negative) hide exactly the lines the first n collapsed regions
      cover. */
  ghost predicate Tracks(h: SparseArray<int>, start: int, end: int, collapsed: SparseArray<bool>,
                         foldable: map<int, int>, n: nat)
    requires n <= |collapsed.keys|
  {
    forall line :: InRanges(h, line) || 0 <= start <= line <= end <==> CoveredAmong(collapsed, foldable, n, line)
  }

  /** A collapsed start without a region that hides something adds no lines. */
  lemma TracksSkip(h: SparseArray<int>, start: int, end: int, collapsed: SparseArray<bool>,
                   foldable: map<int, int>, n: nat)
    requires n < |collapsed.keys| && Tracks(h, start, end, collapsed, foldable, n)
    requires var s := collapsed.keys[n]; !(s in foldable && s < foldable[s])
    ensures Tracks(h, start, end, collapsed, foldable, n + 1)
  {
    var m := n + 1;
    forall line
      ensures InRanges(h, line) || 0 <= start <= line <= end <==> CoveredAmong(collapsed, foldable, m, line)
    {
      CoveredAmongStep(collapsed, foldable, n, line);
    }
  }

  /** The first region that hides something opens the current range. */
  lemma TracksFirst(h: SparseArray<int>, start: int, end: int, collapsed: SparseArray<bool>,
                    foldable: map<int, int>, n: nat)
    requires n < |collapsed.keys| && Tracks(h, start, end, collapsed, foldable, n) && start < 0
    requires var s := collapsed.keys[n]; 0 <= s && s in foldable && s < foldable[s]
    ensures var s := collapsed.keys[n]; Tracks(h, s + 1, foldable[s], collapsed, foldable, n + 1)
  {
    var s, m := collapsed.keys[n], n + 1;
    forall line
      ensures InRanges(h, line) || 0 <= s + 1 <= line <= foldable[s] <==> CoveredAmong(collapsed, foldable, m, line)
    {
      CoveredAmongStep(collapsed, foldable, n, line);
    }
  }

  /** A region starting inside, or right after, the current range extends it. */
  lemma TracksExtend(h: SparseArray<int>, start: int, end: int, collapsed: SparseArray<bool>,
                     foldable: map<int, int>, n: nat)
    requires n < |collapsed.keys| && Tracks(h, start, end, collapsed, foldable, n)
    requires var s := collapsed.keys[n];
      s in foldable && s < foldable[s] && 0 <= start <= s + 1 <= end + 1
    ensures var e := foldable[collapsed.keys[n]];
      Tracks(h, start, if end > e then end else e, collapsed, foldable, n + 1)
  {
    var e, m := foldable[collapsed.keys[n]], n + 1;
    var end' := if end > e then end else e;
    forall line
      ensures InRanges(h, line) || 0 <= start <= line <= end' <==> CoveredAmong(collapsed, foldable, m, line)
    {
      CoveredAmongStep(collapsed, foldable, n, line);
    }
  }

  /** A region starting more than one line after the current range closes it
      and opens a new one. */
  lemma TracksClose(h: SparseArray<int>, start: int, end: int, collapsed: SparseArray<bool>,
                    foldable: map<int, int>, n: nat)
    requires n < |collapsed.keys| && Tracks(h, start, end, collapsed, foldable, n)
    requires h.Valid() && 0 <= start && start !in h.entries
    requires var s := collapsed.keys[n]; 0 <= s && s in foldable && s < foldable[s]
    ensures var s := collapsed.keys[n];
      Tracks(h.Put(start, end), s + 1, foldable[s], collapsed, foldable, n + 1)
  {
    var s, m, g := collapsed.keys[n], n + 1, h.Put(start, end);
    forall line
      ensures InRanges(g, line) || 0 <= s + 1 <= line <= foldable[s] <==> CoveredAmong(collapsed, foldable, m, line)
    {
      CoveredAmongStep(collapsed, foldable, n, line);
      InRangesPut(h, start, end, line);
    }
  }

  /** A range starting more than one line after every existing range ends is
      appended at the end and keeps the ranges well formed. */
  lemma AppendRange(h: SparseArray<int>, k: int, v: int)
    requires WellFormedRanges(h) && k <= v
    requires forall j :: 0 <= j < |h.keys| ==> h.ValueAt(j) + 1 < k
    ensures h.Put(k, v).keys == h.keys + [k]
    ensures WellFormedRanges(h.Put(k, v))
    ensures forall i :: 0 <= i < |h.keys| ==> h.Put(k, v).ValueAt(i) == h.ValueAt(i)
    ensures h.Put(k, v).ValueAt(|h.keys|) == v
  {
    if |h.keys| > 0 {
      assert h.keys[|h.keys| - 1] <= h.ValueAt(|h.keys| - 1);
    }
    var g := h.Put(k, v);
    forall i | 0 <= i < |h.keys| ensures g.ValueAt(i) == h.ValueAt(i) {
      assert g.keys[i] == h.keys[i] && h.keys[i] != k;
    }
  }

  /** The hidden ranges of the collapsed regions: each collapsed start whose
      foldable end lies after it hides the lines after it up to that end;
      scanning the starts in ascending order, a region that begins at most one
      line after the current range ends extends it, otherwise the current range
      is closed. */
  method BuildHiddenRanges(collapsed: SparseArray<bool>, foldable: SparseArray<int>) returns (h: SparseArray<int>)
    requires collapsed.Valid() && foldable.Valid()
    requires forall s :: s in collapsed.entries ==> 0 <= s
    ensures HiddenExact(h, collapsed.entries, foldable.entries)
  {
    h := Empty();
    if collapsed.Size() == 0 {
      return;
    }
    var currentStart, currentEnd := -1, -1;
    for i := 0 to collapsed.Size()
      invariant WellFormedRanges(h)
      invariant currentStart < 0 ==> currentStart == -1 && h.keys == []
      invariant 0 <= currentStart ==> 0 < i && currentStart <= collapsed.keys[i - 1] + 1 && currentStart <= currentEnd
      invariant 0 <= currentStart ==> forall j :: 0 <= j < |h.keys| ==> h.ValueAt(j) + 1 < currentStart
      invariant 0 <= currentStart ==> forall k :: k in h.entries ==> k < currentStart
      invariant Tracks(h, currentStart, currentEnd, collapsed, foldable.entries, i)
    {
      var startLine := collapsed.keys[i];
      assert startLine in collapsed.keys;
      var endLine := foldable.Get(startLine, -1);
      if endLine <= startLine {
        TracksSkip(h, currentStart, currentEnd, collapsed, foldable.entries, i);
        continue;
      }
      // hideStart <= hideEnd holds here, so the source's check for an empty
      // region never skips
      var hideStart, hideEnd := startLine + 1, endLine;
      if currentStart < 0 {
        TracksFirst(h, currentStart, currentEnd, collapsed, foldable.entries, i);
        currentStart, currentEnd := hideStart, hideEnd;
        continue;
      }
      assert collapsed.keys[i - 1] < startLine;
      if hideStart <= currentEnd + 1 {
        TracksExtend(h, currentStart, currentEnd, collapsed, foldable.entries, i);
        currentEnd := if currentEnd > hideEnd then currentEnd else hideEnd;
      } else {
        TracksClose(h, currentStart, currentEnd, collapsed, foldable.entries, i);
        AppendRange(h, currentStart, currentEnd);
        h := h.Put(currentStart, currentEnd);
        currentStart, currentEnd := hideStart, hideEnd;
      }
    }
    if currentStart >= 0 {
      forall line {
        InRangesPut(h, currentStart, currentEnd, line);
      }
      AppendRange(h, currentStart, currentEnd);
      h := h.Put(currentStart, currentEnd);
    }
    forall line {
      CoveredAmongAll(collapsed, foldable.entries, line);
    }
  }

  // ---------------------------------------------------------------------------
  // Line shifts

  lemma ShiftStatesSnoc(keys: seq<int>, i: nat, ends: map<int, int>, anchor: int, delta: int, deletedEnd: int)
    requires i < |keys|
    ensures ShiftStates(keys[..i + 1], ends, anchor, delta, deletedEnd) ==
      ShiftStep(ShiftStates(keys[..i], ends, anchor, delta, deletedEnd), keys[i], ends, anchor, delta, deletedEnd)
  {
    assert keys[..i + 1][..i] == keys[..i];
  }

  /** The temporary collapsed states built by a line shift: each old collapsed
      start, in ascending order, with its recorded end (-1 when none). */
  method ShiftCollapsed(collapsed: SparseArray<bool>, ends: SparseArray<int>,
                        anchor: int, delta: int, deletedEnd: int)
    returns (newCollapsed: SparseArray<bool>, newEnds: SparseArray<int>)
    requires collapsed.Valid() && ends.Valid()
    ensures (newCollapsed, newEnds) == ShiftStates(collapsed.keys, ends.entries, anchor, delta, deletedEnd)
  {
    newCollapsed, newEnds := Empty(), Empty();
    for i := 0 to collapsed.Size()
      invariant newCollapsed == ShiftStates(collapsed.keys[..i], ends.entries, anchor, delta, deletedEnd).0
      invariant newEnds == ShiftStates(collapsed.keys[..i], ends.entries, anchor, delta, deletedEnd).1
    {
      ghost var before := (newCollapsed, newEnds);
      var key := collapsed.keys[i];
      var originalEndLine := ends.Get(key, -1);
      if !(delta < 0 && key >= anchor && key <= deletedEnd) {
        var newKey := NewLine(key, anchor, delta);
        var newEndLine := NewLine(originalEndLine, anchor, delta);
        if newKey >= 0 {
          newCollapsed := newCollapsed.Put(newKey, true);
          if newEndLine >= 0 {
            newEnds := newEnds.Put(newKey, newEndLine);
          }
        }
      }
      assert (newCollapsed, newEnds) == ShiftStep(before, key, ends.entries, anchor, delta, deletedEnd);
      ShiftStatesSnoc(collapsed.keys, i, ends.entries, anchor, delta, deletedEnd);
    }
    assert collapsed.keys[..collapsed.Size()] == collapsed.keys;
  }

  /** The copy-back loop of a line shift: put every shifted start back as
      collapsed, with its shifted end when one was recorded.  The copy is exact. */
  method CopyShifted(newCollapsed: SparseArray<bool>, newEnds: SparseArray<int>)
    returns (c: SparseArray<bool>, e: SparseArray<int>)
    requires newCollapsed.Valid() && newEnds.Valid()
    requires AllCollapsed(newCollapsed) && EndsRecordedFor(newEnds, newCollapsed)
    ensures c == newCollapsed && e == newEnds
  {
    c, e := Empty(), Empty();
    for i := 0 to newCollapsed.Size()
      invariant c.Valid() && e.Valid() && AllCollapsed(c)
      invariant forall s :: s in c.entries <==> s in newCollapsed.keys[..i]
      invariant forall s :: s in e.entries <==> s in newCollapsed.keys[..i] && s in newEnds.entries
      invariant forall s :: s in e.entries ==> e.entries[s] == newEnds.entries[s]
    {
      var key := newCollapsed.keys[i];
      assert newCollapsed.keys[..i + 1] == newCollapsed.keys[..i] + [key];
      c := c.Put(key, true);
      var endLine := newEnds.Get(key, -1);
      if endLine >= 0 {
        e := e.Put(key, endLine);
      }
    }
    assert newCollapsed.keys[..newCollapsed.Size()] == newCollapsed.keys;
    assert forall s :: s in c.entries <==> s in newCollapsed.keys;
    assert forall s :: s in c.entries <==> s in newCollapsed.entries;
    assert forall s :: s in c.entries ==> c.entries[s] == newCollapsed.entries[s];
    forall s | s in newEnds.entries ensures s in e.entries {
      assert s in newCollapsed.entries;
      assert s in newCollapsed.keys;
    }
    assert c.entries == newCollapsed.entries;
    forall s | s in e.entries ensures s in newEnds.entries && e.entries[s] == newEnds.entries[s] {
    }
    assert e.entries == newEnds.entries;
    SameEntriesSameArray(c, newCollapsed);
    SameEntriesSameArray(e, newEnds);
  }

  /** The body of onLineShift for a non-zero delta on values: shift the
      collapse states into temporary arrays, copy them back, and rebuild the
      hidden ranges against the unchanged foldable regions. */
  method ShiftAndRebuild(collapsed: SparseArray<bool>, ends: SparseArray<int>, foldable: SparseArray<int>,
                         anchor: int, delta: int, deletedEnd: int)
    returns (c: SparseArray<bool>, e: SparseArray<int>, h: SparseArray<int>)
    requires collapsed.Valid() && ends.Valid() && foldable.Valid()
    ensures (c, e) == ShiftStates(collapsed.keys, ends.entries, anchor, delta, deletedEnd)
    ensures forall s :: s in c.entries <==> LandsOn(collapsed.keys, s, anchor, delta, deletedEnd)
    ensures forall s :: s in c.entries ==> 0 <= s
    ensures AllCollapsed(c) && EndsRecordedFor(e, c)
    ensures (delta > 0 || deletedEnd >= anchor - delta - 1) ==> EndsMoved(collapsed.keys, ends.entries, e, anchor, delta, deletedEnd)
    ensures HiddenExact(h, c.entries, foldable.entries)
  {
    var nc, ne := ShiftCollapsed(collapsed, ends, anchor, delta, deletedEnd);
    ShiftKeys(collapsed.keys, ends.entries, anchor, delta, deletedEnd);
    if delta > 0 || deletedEnd >= anchor - delta - 1 {
      ShiftEndsAll(collapsed.keys, ends.entries, anchor, delta, deletedEnd);
    }
    c, e := CopyShifted(nc, ne);
    assert forall s :: s in c.entries ==> 0 <= s;
    h := BuildHiddenRanges(c, foldable);
  }

  /** The `int` hash of the hidden ranges used to detect a change: start at
      17, then mix in each range's first and last line. */
  method HiddenRangesHash(hiddenRanges: SparseArray<int>) returns (h: int)
    requires hiddenRanges.Valid()
    ensures h == RangesHash(hiddenRanges)
  {
    h := 17;
    for i := 0 to hiddenRanges.Size()
      invariant h == HashOfFirst(hiddenRanges, i)
    {
      h := Mix(h, hiddenRanges.keys[i]);
      h := Mix(h, hiddenRanges.ValueAt(i));
    }
  }

  /** The body of onStylesUpdated on values: the new foldable regions, the
      pruned collapse states and recorded ends, the rebuilt hidden ranges, and
      whether the hidden ranges' hash differs from the previous one. */
  method Restyle(styles: Option<seq<Option<CodeBlock>>>, lineCount: int,
                 collapsed: SparseArray<bool>, collapsedEnds: SparseArray<int>, hiddenRanges: SparseArray<int>)
    returns (f: SparseArray<int>, c: SparseArray<bool>, e: SparseArray<int>, h: SparseArray<int>, changed: bool)
    requires collapsed.Valid() && collapsedEnds.Valid() && hiddenRanges.Valid()
    requires forall s :: s in collapsed.entries ==> 0 <= s
    requires AllCollapsed(collapsed) && EndsRecordedFor(collapsedEnds, collapsed)
    ensures f.Valid() && c.Valid() && e.Valid()
    ensures f.entries == FoldableEnds(if styles.Some? then styles.value else [], LastLine(lineCount))
    ensures forall s :: s in f.entries ==> 0 <= s < f.entries[s] <= LastLine(lineCount)
    ensures forall s :: s in c.entries <==> s in collapsed.entries && s in f.entries
    ensures AllCollapsed(c) && EndsRecordedFor(e, c)
    ensures forall s :: s in e.entries <==> s in c.entries
    ensures forall s :: s in e.entries ==> e.entries[s] == f.entries[s]
    ensures HiddenExact(h, c.entries, f.entries)
    ensures changed <==> RangesHash(hiddenRanges) != RangesHash(h)
  {
    var oldHiddenHash := HiddenRangesHash(hiddenRanges);
    var blocks := if styles.Some? then styles.value else [];
    var lastLine := LastLine(lineCount);
    f := CollectFoldableEnds(blocks, lastLine);
    FoldableEndsBounds(blocks, lastLine);
    c, e := PruneCollapsed(collapsed, collapsedEnds, f);
    assert forall s :: s in c.entries <==> s in collapsed.entries && s in f.entries;
    h := BuildHiddenRanges(c, f);
    var newHiddenHash := HiddenRangesHash(h);
    changed := oldHiddenHash != newHiddenHash;
  }

  /** The starts among the first n regions of `f` that hide a line. */
  ghost function HidingKeys(f: SparseArray<int>, n: nat): set<int>
    requires f.Valid() && n <= |f.keys|
  {
    if n == 0 then {}
    else HidingKeys(f, n - 1) + (if f.keys[n - 1] < f.ValueAt(n - 1) then {f.keys[n - 1]} else {})
  }

  lemma {:induction false} HidingKeysAll(f: SparseArray<int>, n: nat)
    requires f.Valid() && n <= |f.keys|
    ensures forall s :: s in HidingKeys(f, n) <==> s in f.keys[..n] && s < f.entries[s]
  {
    if n > 0 {
      HidingKeysAll(f, n - 1);
      assert f.keys[..n] == f.keys[..n - 1] + [f.keys[n - 1]];
      assert f.keys[n - 1] in f.keys;
    }
  }

  /** The state of foldAll's loop once the regions whose starts are in
      `hiding` have been visited: they are collapsed, an end is recorded for
      each newly collapsed one, and `changed` says whether there was one. */
  ghost predicate CollapsedWith(f: SparseArray<int>, collapsed: SparseArray<bool>, ends: SparseArray<int>,
                                c: SparseArray<bool>, e: SparseArray<int>, changed: bool, hiding: set<int>)
  {
    && c.Valid() && e.Valid()
    && AllCollapsed(c) && EndsRecordedFor(e, c)
    && (forall s :: s in c.entries ==> 0 <= s)
    && (forall s :: s in hiding ==> s in f.entries && s < f.entries[s])
    && (forall s :: s in c.entries <==> s in collapsed.entries || s in hiding)
    && (forall s :: s in e.entries <==> s in ends.entries || (s in hiding && s !in collapsed.entries))
    && (forall s :: s in ends.entries ==> s in e.entries && e.entries[s] == ends.entries[s])
    && (forall s :: s in e.entries && s !in collapsed.entries ==> s in f.entries && e.entries[s] == f.entries[s])
    && (changed <==> exists s :: s in hiding && s !in collapsed.entries)
  }

  /** The state of foldAll's loop after the first i foldable regions. */
  ghost predicate CollapsedUpTo(f: SparseArray<int>, collapsed: SparseArray<bool>, ends: SparseArray<int>,
                                c: SparseArray<bool>, e: SparseArray<int>, changed: bool, i: nat)
    requires f.Valid() && i <= |f.keys|
  {
    CollapsedWith(f, collapsed, ends, c, e, changed, HidingKeys(f, i))
  }

  /** Collapsing a region that hides a line and is not collapsed yet keeps
      the collapsed map and the recorded ends in step with the visited set. */
  lemma CollapsePutEntries(f: SparseArray<int>, collapsed: SparseArray<bool>, ends: SparseArray<int>,
                           c: SparseArray<bool>, e: SparseArray<int>, changed: bool, hiding: set<int>, k: int)
    requires CollapsedWith(f, collapsed, ends, c, e, changed, hiding)
    requires k in f.entries && 0 <= k < f.entries[k] && k !in c.entries
    ensures AllCollapsed(c.Put(k, true)) && EndsRecordedFor(e.Put(k, f.entries[k]), c.Put(k, true))
    ensures forall s :: s in c.Put(k, true).entries ==> 0 <= s
    ensures forall s :: s in c.Put(k, true).entries <==> s in collapsed.entries || s in hiding + {k}
    ensures forall s :: s in e.Put(k, f.entries[k]).entries <==>
              s in ends.entries || (s in hiding + {k} && s !in collapsed.entries)
  {
  }

  /** The same step keeps the recorded values and reports a change. */
  lemma CollapsePutValues(f: SparseArray<int>, collapsed: SparseArray<bool>, ends: SparseArray<int>,
                          c: SparseArray<bool>, e: SparseArray<int>, changed: bool, hiding: set<int>, k: int)
    requires CollapsedWith(f, collapsed, ends, c, e, changed, hiding)
    requires k in f.entries && 0 <= k < f.entries[k] && k !in c.entries
    ensures forall s :: s in ends.entries ==>
              s in e.Put(k, f.entries[k]).entries && e.Put(k, f.entries[k]).entries[s] == ends.entries[s]
    ensures forall s :: s in e.Put(k, f.entries[k]).entries && s !in collapsed.entries ==>
              s in f.entries && e.Put(k, f.entries[k]).entries[s] == f.entries[s]
    ensures exists s :: s in hiding + {k} && s !in collapsed.entries
  {
    assert k in hiding + {k} && k !in collapsed.entries;
  }

  lemma CollapseStepPut(f: SparseArray<int>, collapsed: SparseArray<bool>, ends: SparseArray<int>,
                        c: SparseArray<bool>, e: SparseArray<int>, changed: bool, i: nat)
    requires f.Valid() && i < |f.keys|
    requires forall s :: s in f.entries ==> 0 <= s
    requires CollapsedUpTo(f, collapsed, ends, c, e, changed, i)
    requires f.ValueAt(i) > f.keys[i] && !c.Get(f.keys[i], false)
    ensures CollapsedUpTo(f, collapsed, ends, c.Put(f.keys[i], true), e.Put(f.keys[i], f.ValueAt(i)), true, i + 1)
  {
    var k := f.keys[i];
    assert k in f.keys;
    assert HidingKeys(f, i + 1) == HidingKeys(f, i) + {k};
    CollapsePutEntries(f, collapsed, ends, c, e, changed, HidingKeys(f, i), k);
    CollapsePutValues(f, collapsed, ends, c, e, changed, HidingKeys(f, i), k);
  }

  lemma CollapseStepSkip(f: SparseArray<int>, collapsed: SparseArray<bool>, ends: SparseArray<int>,
                         c: SparseArray<bool>, e: SparseArray<int>, changed: bool, i: nat)
    requires f.Valid() && i < |f.keys|
    requires CollapsedUpTo(f, collapsed, ends, c, e, changed, i)
    requires !(f.ValueAt(i) > f.keys[i] && !c.Get(f.keys[i], false))
    ensures CollapsedUpTo(f, collapsed, ends, c, e, changed, i + 1)
  {
    assert f.keys[i] in f.keys;
  }

  /** The loop of foldAll on values: every region of `f` that hides a line
      and is not collapsed yet becomes collapsed with its end recorded. */
  method CollapseAll(f: SparseArray<int>, collapsed: SparseArray<bool>, ends: SparseArray<int>)
    returns (c: SparseArray<bool>, e: SparseArray<int>, changed: bool)
    requires f.Valid() && collapsed.Valid() && ends.Valid()
    requires forall s :: s in f.entries ==> 0 <= s
    requires forall s :: s in collapsed.entries ==> 0 <= s
    requires AllCollapsed(collapsed) && EndsRecordedFor(ends, collapsed)
    ensures c.Valid() && e.Valid() && AllCollapsed(c) && EndsRecordedFor(e, c)
    ensures forall s :: s in c.entries ==> 0 <= s
    ensures forall s :: s in c.entries <==> s in collapsed.entries || (s in f.entries && s < f.entries[s])
    ensures forall s :: s in e.entries <==>
              s in ends.entries || (s in f.entries && s < f.entries[s] && s !in collapsed.entries)
    ensures forall s :: s in ends.entries ==> e.entries[s] == ends.entries[s]
    ensures forall s :: s in e.entries && s !in collapsed.entries ==> e.entries[s] == f.entries[s]
    ensures changed <==> exists s :: s in f.entries && s < f.entries[s] && s !in collapsed.entries
  {
    c, e := collapsed, ends;
    changed := false;
    for i := 0 to f.Size()
      invariant CollapsedUpTo(f, collapsed, ends, c, e, changed, i)
    {
      var startLine := f.keys[i];
      var endLine := f.ValueAt(i);
      if endLine > startLine && !c.Get(startLine, false) {
        CollapseStepPut(f, collapsed, ends, c, e, changed, i);
        c := c.Put(startLine, true);
        e := e.Put(startLine, endLine);
        changed := true;
      } else {
        CollapseStepSkip(f, collapsed, ends, c, e, changed, i);
      }
    }
    HidingKeysAll(f, |f.keys|);
    assert f.keys[..|f.keys|] == f.keys;
  }

  /** The body of foldAll on values: collapse every region that hides a
      line, then rebuild the hidden ranges. */
  method CollapseAllAndRebuild(f: SparseArray<int>, collapsed: SparseArray<bool>, ends: SparseArray<int>)
    returns (c: SparseArray<bool>, e: SparseArray<int>, h: SparseArray<int>, changed: bool)
    requires f.Valid() && collapsed.Valid() && ends.Valid()
    requires forall s :: s in f.entries ==> 0 <= s
    requires forall s :: s in collapsed.entries ==> 0 <= s
    requires AllCollapsed(collapsed) && EndsRecordedFor(ends, collapsed)
    ensures c.Valid() && e.Valid() && AllCollapsed(c) && EndsRecordedFor(e, c)
    ensures forall s :: s in c.entries ==> 0 <= s
    ensures forall s :: s in c.entries <==> s in collapsed.entries || (s in f.entries && s < f.entries[s])
    ensures forall s :: s in e.entries <==>
              s in ends.entries || (s in f.entries && s < f.entries[s] && s !in collapsed.entries)
    ensures forall s :: s in ends.entries ==> e.entries[s] == ends.entries[s]
    ensures forall s :: s in e.entries && s !in collapsed.entries ==> e.entries[s] == f.entries[s]
    ensures changed <==> exists s :: s in f.entries && s < f.entries[s] && s !in collapsed.entries
    ensures HiddenExact(h, c.entries, f.entries)
  {
    c, e, changed := CollapseAll(f, collapsed, ends);
    h := BuildHiddenRanges(c, f);
  }

  /** The search of findFoldableStartLineForLine on values: the largest
      start of a region of `foldable` that encloses `line`, or -1. */
  method InnermostEnclosing(foldable: SparseArray<int>, line: int) returns (r: int)
    requires foldable.Valid() && forall s :: s in foldable.entries ==> 0 <= s
    ensures r == -1 <==> forall s :: s in foldable.entries ==> !Encloses(s, foldable.entries[s], line)
    ensures r != -1 ==> r in foldable.entries && Encloses(r, foldable.entries[r], line)
    ensures r != -1 ==> forall s :: s in foldable.entries && Encloses(s, foldable.entries[s], line) ==> s <= r
  {
    if foldable.Size() == 0 {
      return -1;
    }
    var keys := foldable.keys;
    var idx := BinarySearch(keys, line);
    if idx < 0 {
      idx := -idx - 1 - 1;
    }
    var i := idx;
    while i >= 0
      invariant -1 <= i <= idx < |keys|
      invariant forall j :: i < j < |keys| ==> !Encloses(keys[j], foldable.ValueAt(j), line)
    {
      var startLine := keys[i];
      var endLine := foldable.ValueAt(i);
      if (startLine < line && endLine >= line) || (startLine == line && endLine > line) {
        LargestEncloser(foldable, i, line);
        return startLine;
      }
      i := i - 1;
    }
    NoEncloser(foldable, line);
    return -1;
  }

  /** When the region at index i encloses `line` and none after it does, its
      start is the largest enclosing start. */
  lemma LargestEncloser(f: SparseArray<int>, i: nat, line: int)
    requires f.Valid() && i < |f.keys|
    requires Encloses(f.keys[i], f.ValueAt(i), line)
    requires forall j :: i < j < |f.keys| ==> !Encloses(f.keys[j], f.ValueAt(j), line)
    ensures f.keys[i] in f.entries && Encloses(f.keys[i], f.entries[f.keys[i]], line)
    ensures forall s :: s in f.entries && Encloses(s, f.entries[s], line) ==> s <= f.keys[i]
  {
    forall s | s in f.entries && Encloses(s, f.entries[s], line) ensures s <= f.keys[i] {
      var j :| 0 <= j < |f.keys| && f.keys[j] == s;
    }
  }

  /** When no region in index order encloses `line`, no region does. */
  lemma NoEncloser(f: SparseArray<int>, line: int)
    requires f.Valid()
    requires forall j :: 0 <= j < |f.keys| ==> !Encloses(f.keys[j], f.ValueAt(j), line)
    ensures forall s :: s in f.entries ==> !Encloses(s, f.entries[s], line)
  {
    forall s | s in f.entries ensures !Encloses(s, f.entries[s], line) {
      var j :| 0 <= j < |f.keys| && f.keys[j] == s;
    }
  }

  /** Whether `line` lies in a hidden range: the range starting at or
      before it, found by binary search, reaches it. */
  method LineHidden(hiddenRanges: SparseArray<int>, line: int) returns (r: bool)
    requires WellFormedRanges(hiddenRanges)
    ensures r == InRanges(hiddenRanges, line)
  {
    if hiddenRanges.Size() == 0 {
      return false;
    }
    var keys := hiddenRanges.keys;
    var idx := BinarySearch(keys, line);
    if idx >= 0 {
      assert keys[idx] in keys;
      return true;
    }
    idx := -idx - 1 - 1;
    if idx < 0 {
      return false;
    }
    r := line <= hiddenRanges.ValueAt(idx);
    assert keys[idx] in keys;
    if !r {
      assert Rank(keys, line) == idx + 1;
      forall k | k in hiddenRanges.entries && k <= line ensures hiddenRanges.entries[k] < line {
        var j :| 0 <= j < |keys| && keys[j] == k;
        if j < idx {
          assert hiddenRanges.ValueAt(j) + 1 < keys[idx];
        }
      }
    }
  }

  /** The first loop of ensureLineMappings: the number of visible lines. */
  method CountVisibleLines(hiddenRanges: SparseArray<int>, lineCount: nat) returns (visibleCount: nat)
    requires WellFormedRanges(hiddenRanges)
    ensures visibleCount == |VisibleLinesOf(hiddenRanges, lineCount)|
  {
    visibleCount := 0;
    for line := 0 to lineCount
      invariant visibleCount == |VisibleLinesOf(hiddenRanges, line)|
    {
      var hidden := LineHidden(hiddenRanges, line);
      if !hidden {
        visibleCount := visibleCount + 1;
      }
    }
  }

  /** The state of the fill loop after lines 0..line-1: the first vi slots
      of `vis` list the visible lines so far, and `rows` holds the row of each
      line so far and -1 for the rest. */
  ghost predicate FilledUpTo(h: SparseArray<int>, lineCount: nat, vis: seq<int>, rows: seq<int>, line: nat, vi: nat) {
    && line <= lineCount && |rows| == lineCount && |vis| == |VisibleLinesOf(h, lineCount)|
    && vi == |VisibleLinesOf(h, line)| <= |vis|
    && vis[..vi] == VisibleLinesOf(h, line)
    && (forall j :: 0 <= j < line ==> rows[j] == RowOfLine(h, j))
    && (forall j :: line <= j < lineCount ==> rows[j] == -1)
  }

  /** A hidden line leaves both arrays alone. */
  lemma FillStepHidden(h: SparseArray<int>, lineCount: nat, vis: seq<int>, rows: seq<int>, line: nat, vi: nat)
    requires FilledUpTo(h, lineCount, vis, rows, line, vi) && line < lineCount && InRanges(h, line)
    ensures FilledUpTo(h, lineCount, vis, rows, line + 1, vi)
  {
  }

  /** A visible line is listed at slot vi and gets row vi. */
  lemma FillStepVisible(h: SparseArray<int>, lineCount: nat, vis: seq<int>, rows: seq<int>, line: nat, vi: nat)
    requires FilledUpTo(h, lineCount, vis, rows, line, vi) && line < lineCount && !InRanges(h, line)
    ensures vi < |vis|
    ensures FilledUpTo(h, lineCount, vis[vi := line], rows[line := vi], line + 1, vi + 1)
  {
    VisiblePrefix(h, line + 1, lineCount);
    var after := VisibleLinesOf(h, line + 1);
    assert after == VisibleLinesOf(h, line) + [line];
    assert vis[vi := line][..vi + 1] == vis[..vi] + [line];
  }

  /** The last loop of ensureLineMappings: list each visible line in turn
      and record its row. */
  method FillLineMappings(hiddenRanges: SparseArray<int>, lineCount: nat, visible: array<int>, toRow: array<int>)
    requires WellFormedRanges(hiddenRanges) && visible != toRow
    requires visible.Length == |VisibleLinesOf(hiddenRanges, lineCount)| && toRow.Length == lineCount
    requires forall j :: 0 <= j < lineCount ==> toRow[j] == -1
    modifies visible, toRow
    ensures visible[..] == VisibleLinesOf(hiddenRanges, lineCount)
    ensures forall line :: 0 <= line < lineCount ==> toRow[line] == RowOfLine(hiddenRanges, line)
  {
    var vi := 0;
    for line := 0 to lineCount
      invariant FilledUpTo(hiddenRanges, lineCount, visible[..], toRow[..], line, vi)
    {
      var hidden := LineHidden(hiddenRanges, line);
      if hidden {
        FillStepHidden(hiddenRanges, lineCount, visible[..], toRow[..], line, vi);
      } else {
        FillStepVisible(hiddenRanges, lineCount, visible[..], toRow[..], line, vi);
        ghost var vis, rows := visible[..], toRow[..];
        visible[vi] := line;
        toRow[line] := vi;
        assert visible[..] == vis[vi := line] && toRow[..] == rows[line := vi];
        vi := vi + 1;
      }
    }
    assert visible[..] == visible[..][..vi];
  }

  /** The body of ensureLineMappings for a positive line count on values:
      count the visible lines, fill the line-to-row array with -1, then list
      each visible line and record its row. */
  method ComputeLineMappings(hiddenRanges: SparseArray<int>, lineCount: nat)
    returns (visible: array<int>, toRow: array<int>)
    requires WellFormedRanges(hiddenRanges)
    ensures fresh(visible) && fresh(toRow)
    ensures visible[..] == VisibleLinesOf(hiddenRanges, lineCount)
    ensures toRow.Length == lineCount
    ensures forall line :: 0 <= line < lineCount ==> toRow[line] == RowOfLine(hiddenRanges, line)
  {
    var visibleCount := CountVisibleLines(hiddenRanges, lineCount);
    visible := new int[visibleCount];
    toRow := new int[lineCount];
    for i := 0 to lineCount
      invariant forall j :: 0 <= j < i ==> toRow[j] == -1
    {
      toRow[i] := -1;
    }
    FillLineMappings(hiddenRanges, lineCount, visible, toRow);
  }

  // ---------------------------------------------------------------------------
  // Dropping stale collapse states

  /** A collapsed start keeps its state when its foldable region hides a line. */
  predicate Keeps(foldable: SparseArray<int>, s: int) {
    s in foldable.entries && s < foldable.entries[s]
  }

  /** Walks the collapsed starts from the last to the first, deleting the
      state of a start whose foldable end is missing or does not lie after it,
      and recording the foldable end of every other start. */
  method PruneCollapsed(collapsed: SparseArray<bool>, ends: SparseArray<int>, foldable: SparseArray<int>)
    returns (c: SparseArray<bool>, e: SparseArray<int>)
    requires foldable.Valid() && collapsed.Valid() && ends.Valid()
    requires forall s :: s in collapsed.entries ==> 0 <= s
    requires EndsRecordedFor(ends, collapsed)
    ensures c.Valid() && e.Valid()
    ensures forall s :: s in c.entries <==>
      s in collapsed.entries && s in foldable.entries && s < foldable.entries[s]
    ensures forall s :: s in c.entries ==> c.entries[s] == collapsed.entries[s]
    ensures forall s :: s in e.entries <==> s in c.entries
    ensures forall s :: s in e.entries ==> e.entries[s] == foldable.entries[s]
  {
    c, e := collapsed, ends;
    var i := c.Size() - 1;
    while i >= 0
      invariant PrunedAfter(collapsed, ends, foldable, c, e, i)
    {
      var startLine := c.keys[i];
      var newEndLine := foldable.Get(startLine, -1);
      if newEndLine < 0 || newEndLine <= startLine {
        PruneStepDelete(collapsed, ends, foldable, c, e, i);
        c := c.Delete(startLine);
        e := e.Delete(startLine);
      } else {
        PruneStepKeep(collapsed, ends, foldable, c, e, i);
        e := e.Put(startLine, newEndLine);
      }
      i := i - 1;
    }
    PrunedAll(collapsed, ends, foldable, c, e);
  }

  /** The state of the pruning loop once the starts above index i have been
      visited: the starts at or below i are untouched, and each visited start
      keeps its state exactly when its region hides a line, with that region's
      end recorded. */
  ghost predicate PrunedAfter(collapsed: SparseArray<bool>, ends: SparseArray<int>, foldable: SparseArray<int>,
                              c: SparseArray<bool>, e: SparseArray<int>, i: int)
    requires collapsed.Valid()
  {
    && -1 <= i < |c.keys| && i < |collapsed.keys|
    && (forall j :: 0 <= j <= i ==> c.keys[j] == collapsed.keys[j])
    && c.Valid() && e.Valid()
    && (forall s :: s in c.entries ==> s in collapsed.entries && c.entries[s] == collapsed.entries[s])
    && (forall j :: i < j < |collapsed.keys| ==>
          (collapsed.keys[j] in c.entries <==> Keeps(foldable, collapsed.keys[j])))
    && (forall j :: i < j < |collapsed.keys| ==>
          (collapsed.keys[j] in e.entries <==> Keeps(foldable, collapsed.keys[j])))
    && (forall s :: s in e.entries ==> s in collapsed.entries)
    && (forall j :: i < j < |collapsed.keys| && collapsed.keys[j] in e.entries ==>
          collapsed.keys[j] in foldable.entries && e.entries[collapsed.keys[j]] == foldable.entries[collapsed.keys[j]])
    && (forall j :: 0 <= j <= i ==> (collapsed.keys[j] in e.entries <==> collapsed.keys[j] in ends.entries))
  }

  lemma PruneStepDelete(collapsed: SparseArray<bool>, ends: SparseArray<int>, foldable: SparseArray<int>,
                        c: SparseArray<bool>, e: SparseArray<int>, i: int)
    requires collapsed.Valid() && PrunedAfter(collapsed, ends, foldable, c, e, i) && 0 <= i
    requires forall s :: s in collapsed.entries ==> 0 <= s
    requires foldable.Get(c.keys[i], -1) < 0 || foldable.Get(c.keys[i], -1) <= c.keys[i]
    ensures PrunedAfter(collapsed, ends, foldable, c.Delete(c.keys[i]), e.Delete(c.keys[i]), i - 1)
  {
    var startLine := c.keys[i];
    assert startLine == collapsed.keys[i];
    assert forall j :: 0 <= j < |collapsed.keys| && j != i ==> collapsed.keys[j] != startLine;
    var c2, e2 := c.Delete(startLine), e.Delete(startLine);
    assert startLine in c.keys;
    assert |c2.keys| == |c.keys| - 1 by {
      assert c2.keys == c.keys[..i] + c.keys[i + 1..];
    }
    assert forall j :: 0 <= j <= i - 1 ==> c2.keys[j] == collapsed.keys[j];
    assert startLine in collapsed.keys;
    assert !Keeps(foldable, startLine);
    assert forall j :: i - 1 < j < |collapsed.keys| ==>
             (collapsed.keys[j] in c2.entries <==> Keeps(foldable, collapsed.keys[j]));
    assert forall j :: i - 1 < j < |collapsed.keys| ==>
             (collapsed.keys[j] in e2.entries <==> Keeps(foldable, collapsed.keys[j]));
  }

  lemma PruneStepKeep(collapsed: SparseArray<bool>, ends: SparseArray<int>, foldable: SparseArray<int>,
                      c: SparseArray<bool>, e: SparseArray<int>, i: int)
    requires collapsed.Valid() && PrunedAfter(collapsed, ends, foldable, c, e, i) && 0 <= i
    requires !(foldable.Get(c.keys[i], -1) < 0 || foldable.Get(c.keys[i], -1) <= c.keys[i])
    ensures PrunedAfter(collapsed, ends, foldable, c, e.Put(c.keys[i], foldable.Get(c.keys[i], -1)), i - 1)
  {
    var startLine := c.keys[i];
    assert startLine == collapsed.keys[i];
    assert forall j :: 0 <= j < |collapsed.keys| && j != i ==> collapsed.keys[j] != startLine;
  }

  lemma PrunedAll(collapsed: SparseArray<bool>, ends: SparseArray<int>, foldable: SparseArray<int>,
                  c: SparseArray<bool>, e: SparseArray<int>)
    requires collapsed.Valid() && PrunedAfter(collapsed, ends, foldable, c, e, -1)
    ensures forall s :: s in c.entries <==> s in collapsed.entries && Keeps(foldable, s)
    ensures forall s :: s in c.entries ==> c.entries[s] == collapsed.entries[s]
    ensures forall s :: s in e.entries <==> s in c.entries
    ensures forall s :: s in e.entries ==> e.entries[s] == foldable.entries[s]
  {
    forall s | s in collapsed.entries ensures s in c.entries <==> Keeps(foldable, s) {
      var j :| 0 <= j < |collapsed.keys| && collapsed.keys[j] == s;
    }
    forall s | s in e.entries ensures s in c.entries && e.entries[s] == foldable.entries[s] {
      var j :| 0 <= j < |collapsed.keys| && collapsed.keys[j] == s;
    }
    forall s | s in c.entries ensures s in e.entries {
      var j :| 0 <= j < |collapsed.keys| && collapsed.keys[j] == s;
    }
  }

  // ---------------------------------------------------------------------------
  // The manager

  /** Folding state of one editor.  The editor itself is reduced to the line
      count its queries pass in. */
  class FoldingManager {
    /** start line -> end line (inclusive) of each foldable region */
    var foldable: SparseArray<int>
    /** start line -> true for each collapsed region */
    var collapsed: SparseArray<bool>
    /** start line -> end line recorded when the region was collapsed */
    var collapsedEnds: SparseArray<int>
    /** first hidden line -> last hidden line, ascending and disjoint */
    var hiddenRanges: SparseArray<int>
    var mappingDirty: bool
    /** visible row -> line */
    var visibleLines: array<int>
    /** line -> visible row, -1 for a hidden line */
    var lineToVisibleRow: array<int>
    /** the line count the two arrays were last built for */
    ghost var mappedLineCount: nat

    /** The region, collapse and hidden-range state: foldable regions start
        at a non-negative line and hide at least one line, collapsed starts
        are non-negative, ends are recorded only for collapsed starts, and the
        hidden ranges are exactly the merged collapsed regions. */
    ghost predicate MapsValid()
      reads this
    {
      && foldable.Valid() && collapsed.Valid() && collapsedEnds.Valid()
      && (forall s :: s in foldable.entries ==> 0 <= s < foldable.entries[s])
      && (forall s :: s in collapsed.entries ==> 0 <= s)
      && AllCollapsed(collapsed)
      && EndsRecordedFor(collapsedEnds, collapsed)
      && HiddenExact(hiddenRanges, collapsed.entries, foldable.entries)
    }

    /** The line/row arrays describe the hidden ranges over mappedLineCount
        lines: row r shows the r-th visible line, and a line maps to -1 when
        hidden and to the number of visible lines before it otherwise. */
    ghost predicate MappingExact()
      reads this, visibleLines, lineToVisibleRow
    {
      && visibleLines[..] == VisibleLinesOf(hiddenRanges, mappedLineCount)
      && lineToVisibleRow.Length == mappedLineCount
      && forall line :: 0 <= line < mappedLineCount ==> lineToVisibleRow[line] == RowOfLine(hiddenRanges, line)
    }

    ghost predicate Valid()
      reads this, visibleLines, lineToVisibleRow
    {
      MapsValid() && (!mappingDirty ==> MappingExact())
    }

    constructor()
      ensures Valid() && mappingDirty
      ensures foldable == Empty() && collapsed == Empty() && collapsedEnds == Empty() && hiddenRanges == Empty()
      ensures visibleLines.Length == 0 && lineToVisibleRow.Length == 0
    {
      foldable, collapsed, collapsedEnds, hiddenRanges := Empty(), Empty(), Empty(), Empty();
      mappingDirty := true;
      visibleLines, lineToVisibleRow := new int[0], new int[0];
      mappedLineCount := 0;
    }

    /** Forgets every region and collapse state, for a newly loaded text. */
    method ResetForNewText()
      modifies this
      ensures Valid() && mappingDirty
      ensures foldable == Empty() && collapsed == Empty() && collapsedEnds == Empty() && hiddenRanges == Empty()
      ensures visibleLines.Length == 0 && lineToVisibleRow.Length == 0
    {
      foldable, collapsed, collapsedEnds, hiddenRanges := Empty(), Empty(), Empty(), Empty();
      mappingDirty := true;
      visibleLines, lineToVisibleRow := new int[0], new int[0];
    }

    /** Recomputes the foldable regions from the styling result (None when
        the styles or their block list are absent) for a document of
        lineCount lines, drops the collapse state of every start that is no
        longer foldable, records the current end for the others, and rebuilds
        the hidden ranges.  Reports whether the hidden ranges' hash changed. */
    method OnStylesUpdated(styles: Option<seq<Option<CodeBlock>>>, lineCount: int) returns (changed: bool)
      requires Valid()
      modifies this
      ensures Valid() && mappingDirty
      ensures foldable.entries == FoldableEnds(if styles.Some? then styles.value else [], LastLine(lineCount))
      ensures forall s :: s in foldable.entries ==> 0 <= s < foldable.entries[s] <= LastLine(lineCount)
      ensures forall s :: s in collapsed.entries <==> s in old(collapsed.entries) && s in foldable.entries
      ensures forall s :: s in collapsedEnds.entries <==> s in collapsed.entries
      ensures forall s :: s in collapsedEnds.entries ==> collapsedEnds.entries[s] == foldable.entries[s]
      ensures changed <==> RangesHash(old(hiddenRanges)) != RangesHash(hiddenRanges)
      ensures hiddenRanges == old(hiddenRanges) ==> !changed
      ensures visibleLines == old(visibleLines) && lineToVisibleRow == old(lineToVisibleRow)
    {
      var f, c, e, h;
      f, c, e, h, changed := Restyle(styles, lineCount, collapsed, collapsedEnds, hiddenRanges);
      foldable, collapsed, collapsedEnds, hiddenRanges := f, c, e, h;
      mappingDirty := true;
    }

    /** A start line is foldable when it has a region that hides a line. */
    method IsFoldableLine(startLine: int) returns (r: bool)
      requires MapsValid()
      ensures r <==> startLine in foldable.entries && startLine < foldable.entries[startLine]
    {
      var idx := BinarySearch(foldable.keys, startLine);
      r := idx >= 0 && foldable.Get(startLine, 0) > startLine;
    }

    /** The innermost (largest) start of a foldable region enclosing `line`,
        or -1 when there is none. */
    method FindFoldableStartLineForLine(line: int) returns (r: int)
      requires MapsValid()
      ensures r == -1 <==> forall s :: s in foldable.entries ==> !Encloses(s, foldable.entries[s], line)
      ensures r != -1 ==> r in foldable.entries && Encloses(r, foldable.entries[r], line)
      ensures r != -1 ==> forall s :: s in foldable.entries && Encloses(s, foldable.entries[s], line) ==> s <= r
    {
      r := InnermostEnclosing(foldable, line);
    }

    /** The innermost (largest) collapsed start whose foldable region encloses
        `line`, or -1 when there is none. */
    method FindCollapsedStartLineForLine(line: int) returns (r: int)
      requires MapsValid()
      ensures r == -1 <==> forall s :: s in collapsed.entries ==> !Encloses(s, foldable.Get(s, -1), line)
      ensures r != -1 ==> r in collapsed.entries && Encloses(r, foldable.Get(r, -1), line)
      ensures r != -1 ==> forall s :: s in collapsed.entries && Encloses(s, foldable.Get(s, -1), line) ==> s <= r
    {
      if collapsed.Size() == 0 {
        return -1;
      }
      var keys := collapsed.keys;
      var idx := BinarySearch(keys, line);
      if idx < 0 {
        idx := -idx - 1 - 1;
      }
      var i := idx;
      while i >= 0
        invariant -1 <= i <= idx < |keys|
        invariant forall j :: i < j < |keys| ==> !Encloses(keys[j], foldable.Get(keys[j], -1), line)
      {
        var startLine := keys[i];
        var endLine := foldable.Get(startLine, -1);
        if endLine <= startLine {
          i := i - 1;
          continue;
        }
        if (startLine < line && endLine >= line) || startLine == line {
          forall s | s in collapsed.entries && Encloses(s, foldable.Get(s, -1), line) ensures s <= startLine {
            var j :| 0 <= j < |keys| && keys[j] == s;
          }
          assert keys[i] in keys;
          return startLine;
        }
        i := i - 1;
      }
      forall s | s in collapsed.entries ensures !Encloses(s, foldable.Get(s, -1), line) {
        var j :| 0 <= j < |keys| && keys[j] == s;
      }
      return -1;
    }

    /** A start line is collapsed when its state is set and its foldable region
        still hides a line; then every line of that region is hidden. */
    function IsCollapsed(startLine: int): (r: bool)
      reads this
      requires MapsValid()
      ensures r <==> startLine in collapsed.entries && startLine in foldable.entries &&
                     startLine < foldable.entries[startLine]
      ensures r ==> forall line :: startLine < line <= foldable.entries[startLine] ==> InRanges(hiddenRanges, line)
    {
      collapsed.Get(startLine, false) && foldable.Get(startLine, -1) > startLine
    }

    /** The region starting at `startLine` with its collapse state, when that
        line starts a foldable region that hides a line. */
    method GetFoldRegion(startLine: int) returns (r: Option<FoldRegion>)
      requires MapsValid()
      ensures r.Some? <==> startLine in foldable.entries && startLine < foldable.entries[startLine]
      ensures r.Some? ==> r.value.startLine == startLine && r.value.endLine == foldable.entries[startLine]
      ensures r.Some? ==> (r.value.collapsed <==> startLine in collapsed.entries)
    {
      var idx := BinarySearch(foldable.keys, startLine);
      if idx < 0 {
        return None;
      }
      var endLine := foldable.ValueAt(idx);
      if endLine <= startLine {
        return None;
      }
      return Some(FoldRegion(startLine, endLine, IsCollapsed(startLine)));
    }

    /** Whether `line` lies in a hidden range. */
    method IsLineHidden(line: int) returns (r: bool)
      requires MapsValid()
      ensures r == InRanges(hiddenRanges, line)
    {
      r := LineHidden(hiddenRanges, line);
    }

    /** Collapses the region starting at `startLine` when it is foldable and
        not collapsed yet, recording its current end; reports whether it did. */
    method Fold(startLine: int) returns (r: bool)
      requires Valid()
      modifies this
      ensures Valid() && foldable == old(foldable)
      ensures r <==> startLine in foldable.entries && startLine < foldable.entries[startLine] &&
                     startLine !in old(collapsed.entries)
      ensures r ==> collapsed.entries == old(collapsed.entries)[startLine := true]
      ensures r ==> collapsedEnds.entries == old(collapsedEnds.entries)[startLine := foldable.entries[startLine]]
      ensures r ==> mappingDirty && IsCollapsed(startLine)
      ensures !r ==> unchanged(this)
      ensures visibleLines == old(visibleLines) && lineToVisibleRow == old(lineToVisibleRow)
    {
      var foldableLine := IsFoldableLine(startLine);
      if !foldableLine {
        return false;
      }
      if collapsed.Get(startLine, false) {
        return false;
      }
      var endLine := foldable.Get(startLine, 0);
      var c := collapsed.Put(startLine, true);
      var e := collapsedEnds.Put(startLine, endLine);
      assert AllCollapsed(c) && EndsRecordedFor(e, c);
      var h := BuildHiddenRanges(c, foldable);
      collapsed, collapsedEnds, hiddenRanges := c, e, h;
      mappingDirty := true;
      return true;
    }

    /** Expands the region starting at `startLine` when it is collapsed,
        forgetting its recorded end; reports whether it did. */
    method Unfold(startLine: int) returns (r: bool)
      requires Valid()
      modifies this
      ensures Valid() && foldable == old(foldable)
      ensures r <==> startLine in old(collapsed.entries)
      ensures r ==> collapsed.entries == old(collapsed.entries) - {startLine}
      ensures r ==> collapsedEnds.entries == old(collapsedEnds.entries) - {startLine}
      ensures r ==> mappingDirty && !IsCollapsed(startLine)
      ensures !r ==> unchanged(this)
      ensures visibleLines == old(visibleLines) && lineToVisibleRow == old(lineToVisibleRow)
    {
      if !collapsed.Get(startLine, false) {
        return false;
      }
      var c := collapsed.Delete(startLine);
      var e := collapsedEnds.Delete(startLine);
      assert AllCollapsed(c) && EndsRecordedFor(e, c);
      var h := BuildHiddenRanges(c, foldable);
      collapsed, collapsedEnds, hiddenRanges := c, e, h;
      mappingDirty := true;
      return true;
    }

    /** Expands a collapsed region and collapses any other foldable one: the
        collapse state of a foldable start flips, and a start that is not
        foldable stays expanded. */
    method Toggle(startLine: int) returns (r: bool)
      requires Valid()
      modifies this
      ensures Valid() && foldable == old(foldable)
      ensures old(IsCollapsed(startLine)) ==> r && !IsCollapsed(startLine)
      ensures !old(IsCollapsed(startLine)) ==>
                (r <==> startLine in foldable.entries && startLine < foldable.entries[startLine])
      ensures !old(IsCollapsed(startLine)) ==> (IsCollapsed(startLine) <==> r)
      ensures old(IsCollapsed(startLine)) ==>
                collapsed.entries == old(collapsed.entries) - {startLine} &&
                collapsedEnds.entries == old(collapsedEnds.entries) - {startLine}
      ensures !old(IsCollapsed(startLine)) && r ==>
                collapsed.entries == old(collapsed.entries)[startLine := true] &&
                collapsedEnds.entries == old(collapsedEnds.entries)[startLine := foldable.entries[startLine]]
      ensures !old(IsCollapsed(startLine)) && !r ==> unchanged(this)
      ensures r ==> mappingDirty
      ensures visibleLines == old(visibleLines) && lineToVisibleRow == old(lineToVisibleRow)
    {
      if IsCollapsed(startLine) {
        r := Unfold(startLine);
      } else {
        r := Fold(startLine);
      }
    }

    /** Expands every region; nothing changes when nothing is collapsed. */
    method UnfoldAll()
      requires Valid()
      modifies this
      ensures Valid() && foldable == old(foldable)
      ensures collapsed == Empty() && collapsedEnds == Empty() && hiddenRanges == Empty()
      ensures old(collapsed.Size()) == 0 ==> unchanged(this)
      ensures old(collapsed.Size()) != 0 ==> mappingDirty
      ensures visibleLines == old(visibleLines) && lineToVisibleRow == old(lineToVisibleRow)
    {
      if collapsed.Size() == 0 {
        assert forall s :: s !in collapsed.entries;
        SameEntriesSameArray(collapsed, Empty());
        assert forall s :: s !in collapsedEnds.entries;
        SameEntriesSameArray(collapsedEnds, Empty());
        NothingCollapsedNothingHidden(hiddenRanges, foldable.entries);
        return;
      }
      collapsed, collapsedEnds, hiddenRanges := Empty(), Empty(), Empty();
      mappingDirty := true;
    }

    /** Collapses every foldable region that is not collapsed yet, recording
        its end; reports whether any was, and changes nothing otherwise. */
    method FoldAll() returns (changed: bool)
      requires Valid()
      modifies this
      ensures Valid() && foldable == old(foldable)
      ensures forall s :: s in collapsed.entries <==>
                s in old(collapsed.entries) || (s in foldable.entries && s < foldable.entries[s])
      ensures forall s :: s in collapsedEnds.entries <==>
                s in old(collapsedEnds.entries) ||
                (s in foldable.entries && s < foldable.entries[s] && s !in old(collapsed.entries))
      ensures forall s :: s in old(collapsedEnds.entries) ==> collapsedEnds.entries[s] == old(collapsedEnds.entries)[s]
      ensures forall s :: s in collapsedEnds.entries && s !in old(collapsed.entries) ==>
                collapsedEnds.entries[s] == foldable.entries[s]
      ensures changed <==> exists s :: s in foldable.entries && s < foldable.entries[s] && s !in old(collapsed.entries)
      ensures changed ==> mappingDirty
      ensures !changed ==> unchanged(this)
      ensures visibleLines == old(visibleLines) && lineToVisibleRow == old(lineToVisibleRow)
    {
      ghost var vl, lt := visibleLines, lineToVisibleRow;
      if foldable.Size() == 0 {
        assert forall s :: s !in foldable.entries;
        return false;
      }
      var c, e, h;
      c, e, h, changed := CollapseAllAndRebuild(foldable, collapsed, collapsedEnds);
      if changed {
        collapsed, collapsedEnds, hiddenRanges := c, e, h;
        mappingDirty := true;
        assert visibleLines == vl && lineToVisibleRow == lt;
      }
    }

    /** Rebuilds the row/line arrays when they are marked stale, for a document
        of lineCount lines; afterwards they describe the hidden ranges. */
    method EnsureLineMappings(lineCount: int)
      requires Valid()
      modifies this
      ensures Valid() && !mappingDirty
      ensures foldable == old(foldable) && collapsed == old(collapsed)
      ensures collapsedEnds == old(collapsedEnds) && hiddenRanges == old(hiddenRanges)
      ensures old(mappingDirty) ==> mappedLineCount == if lineCount <= 0 then 0 else lineCount
      ensures !old(mappingDirty) ==> unchanged(this)
    {
      if !mappingDirty {
        return;
      }
      if lineCount <= 0 {
        visibleLines, lineToVisibleRow := new int[0], new int[0];
        mappedLineCount := 0;
        mappingDirty := false;
        return;
      }
      var v, t := ComputeLineMappings(hiddenRanges, lineCount);
      visibleLines, lineToVisibleRow := v, t;
      mappedLineCount := lineCount;
      mappingDirty := false;
    }

    /** The number of visible rows. */
    method GetVisibleRowCount(lineCount: int) returns (r: int)
      requires Valid()
      modifies this
      ensures Valid() && !mappingDirty && hiddenRanges == old(hiddenRanges)
      ensures foldable == old(foldable) && collapsed == old(collapsed) && collapsedEnds == old(collapsedEnds)
      ensures r == |VisibleLinesOf(hiddenRanges, mappedLineCount)|
      ensures old(mappingDirty) ==> mappedLineCount == if lineCount <= 0 then 0 else lineCount
      ensures !old(mappingDirty) ==> unchanged(this)
    {
      EnsureLineMappings(lineCount);
      r := visibleLines.Length;
    }

    /** The line shown on a row: a visible line whose own row is that row; a
        negative row gives line 0 and a row past the end the last line. */
    method GetLineForVisibleRow(visibleRow: int, lineCount: int) returns (r: int)
      requires Valid()
      modifies this
      ensures Valid() && !mappingDirty && hiddenRanges == old(hiddenRanges)
      ensures foldable == old(foldable) && collapsed == old(collapsed) && collapsedEnds == old(collapsedEnds)
      ensures old(mappingDirty) ==> mappedLineCount == if lineCount <= 0 then 0 else lineCount
      ensures !old(mappingDirty) ==> unchanged(this)
      ensures visibleRow < 0 ==> r == 0
      ensures visibleRow >= |VisibleLinesOf(hiddenRanges, mappedLineCount)| ==>
                r == if lineCount - 1 < 0 then 0 else lineCount - 1
      ensures 0 <= visibleRow < |VisibleLinesOf(hiddenRanges, mappedLineCount)| ==>
                0 <= r < mappedLineCount && !InRanges(hiddenRanges, r) &&
                |VisibleLinesOf(hiddenRanges, r)| == visibleRow
    {
      EnsureLineMappings(lineCount);
      if visibleRow < 0 {
        return 0;
      }
      if visibleRow >= visibleLines.Length {
        return if lineCount - 1 < 0 then 0 else lineCount - 1;
      }
      r := visibleLines[visibleRow];
      VisibleRowRoundTrip(hiddenRanges, mappedLineCount, visibleRow);
    }

    /** The row showing a line: a visible line's own row, for a hidden line
        the row of the last visible line above it (row 0 when there is none),
        row 0 for a negative line and the last row for a line past the end. */
    method GetVisibleRowForLine(line: int, lineCount: int) returns (r: int)
      requires Valid()
      modifies this
      ensures Valid() && !mappingDirty && hiddenRanges == old(hiddenRanges)
      ensures foldable == old(foldable) && collapsed == old(collapsed) && collapsedEnds == old(collapsedEnds)
      ensures old(mappingDirty) ==> mappedLineCount == if lineCount <= 0 then 0 else lineCount
      ensures !old(mappingDirty) ==> unchanged(this)
      ensures line < 0 ==> r == 0
      ensures line >= mappedLineCount ==>
                r == if |VisibleLinesOf(hiddenRanges, mappedLineCount)| == 0 then 0
                     else |VisibleLinesOf(hiddenRanges, mappedLineCount)| - 1
      ensures 0 <= line < mappedLineCount && !InRanges(hiddenRanges, line) ==>
                0 <= r < |VisibleLinesOf(hiddenRanges, mappedLineCount)| &&
                VisibleLinesOf(hiddenRanges, mappedLineCount)[r] == line
      ensures 0 <= line < mappedLineCount && InRanges(hiddenRanges, line) && |VisibleLinesOf(hiddenRanges, line)| == 0 ==>
                r == 0
      ensures 0 <= line < mappedLineCount && InRanges(hiddenRanges, line) && |VisibleLinesOf(hiddenRanges, line)| > 0 ==>
                r == |VisibleLinesOf(hiddenRanges, line)| - 1 && r < |VisibleLinesOf(hiddenRanges, mappedLineCount)| &&
                VisibleLinesOf(hiddenRanges, mappedLineCount)[r] == VisibleLinesOf(hiddenRanges, line)[r]
    {
      EnsureLineMappings(lineCount);
      if line < 0 {
        return 0;
      }
      if line >= lineToVisibleRow.Length {
        return if visibleLines.Length == 0 then 0 else visibleLines.Length - 1;
      }
      var res := lineToVisibleRow[line];
      if res >= 0 {
        RowOfVisibleLine(hiddenRanges, line, mappedLineCount);
        return res;
      }
      VisiblePrefix(hiddenRanges, line, mappedLineCount);
      if visibleLines.Length == 0 {
        return 0;
      }
      var idx := BinarySearch(visibleLines[..], line);
      var insertionPoint := if idx >= 0 then idx else -idx - 1;
      RankAmongVisible(hiddenRanges, line, mappedLineCount);
      var below := insertionPoint - 1;
      var capped := if visibleLines.Length - 1 < below then visibleLines.Length - 1 else below;
      r := if 0 < capped then capped else 0;
    }

    /** Moves the collapse states after `delta` lines were inserted (delta > 0)
        or deleted (delta < 0) at `anchor`: states starting in the deleted
        range [anchor, deletedEnd] are dropped, starts and recorded ends after
        the anchor move by delta, states moved to a negative line are dropped,
        and the hidden ranges are rebuilt against the current foldable
        regions.  The mapping is marked stale in every case. */
    method OnLineShift(anchor: int, delta: int, deletedEnd: int)
      requires Valid()
      modifies this
      ensures Valid() && mappingDirty && foldable == old(foldable)
      ensures delta == 0 ==>
                collapsed == old(collapsed) && collapsedEnds == old(collapsedEnds) && hiddenRanges == old(hiddenRanges)
      ensures delta != 0 ==>
                (collapsed, collapsedEnds) == ShiftStates(old(collapsed.keys), old(collapsedEnds.entries), anchor, delta, deletedEnd)
      ensures delta != 0 ==>
                forall s :: s in collapsed.entries <==> LandsOn(old(collapsed.keys), s, anchor, delta, deletedEnd)
      ensures (delta > 0 || (delta < 0 && deletedEnd >= anchor - delta - 1)) ==>
                EndsMoved(old(collapsed.keys), old(collapsedEnds.entries), collapsedEnds, anchor, delta, deletedEnd)
      ensures visibleLines == old(visibleLines) && lineToVisibleRow == old(lineToVisibleRow)
    {
      if delta == 0 {
        mappingDirty := true;
        return;
      }
      var c, e, h := ShiftAndRebuild(collapsed, collapsedEnds, foldable, anchor, delta, deletedEnd);
      collapsed, collapsedEnds, hiddenRanges := c, e, h;
      mappingDirty := true;
    }
  }
}
