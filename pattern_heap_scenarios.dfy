/**
 * Concrete runs of the collector model. They pin down what the code does on
 * small inputs, including three places where it departs from a plain top-K
 * collector, whose threshold never falls, which never holds more than
 * maxSize patterns, and which holds no two patterns of equal support where
 * one contains the other: here the threshold can go down after an eviction,
 * and with the sub-pattern check on, the queue can outgrow maxSize and two
 * retained patterns of equal support can still contain one another.
 */
module PatternHeapScenarios {
  import opened Wrappers
  import opened Patterns
  import M = PatternHeapModel

  /**
   * Capacity 2, no sub-pattern check, supports 5, 3, 7: after two insertions both are
   * kept and leastSupport is 5 (the larger one); the third evicts support 3.
   */
  lemma TopTwoOfThree(s1: M.Scan, s2: M.Scan, s3: M.Scan)
    ensures var h0 := M.Empty(2, false);
      M.Inv(h0) && var h1 := M.Insert(h0, Pattern([1], 5), s1);
      M.Inv(h1) && var h2 := M.Insert(h1, Pattern([2], 3), s2);
      M.Inv(h2) && var h3 := M.Insert(h2, Pattern([3], 7), s3);
      && h2.count == 2 && M.LeastSupport(h2) == 5
      && M.GetHeap(h3) == [Pattern([1], 5), Pattern([3], 7)] && M.LeastSupport(h3) == 5
  {
    FillTwo(s1, s2);
    EvictFromTwo(s3);
  }

  lemma FillTwo(s1: M.Scan, s2: M.Scan)
    ensures var h0 := M.Empty(2, false);
      M.Inv(h0) && var h1 := M.Insert(h0, Pattern([1], 5), s1);
      M.Inv(h1) && var h2 := M.Insert(h1, Pattern([2], 3), s2);
      M.Inv(h2) && h2 == M.Heap(2, Some(Pattern([1], 5)), 2, false, map[], [Pattern([1], 5), Pattern([2], 3)])
  {
    var p5, p3 := Pattern([1], 5), Pattern([2], 3);
    var h0 := M.Empty(2, false);
    M.EmptyIsValid(2, false);
    var h1 := M.Insert(h0, p5, s1);
    assert h1 == M.Heap(1, Some(p5), 2, false, map[], [p5]);
    M.InsertKeepsInv(h0, p5, s1);
    var h2 := M.Insert(h1, p3, s2);
    assert h2 == M.Heap(2, Some(p5), 2, false, map[], [p5, p3]);
    M.InsertKeepsInv(h1, p3, s2);
  }

  lemma EvictFromTwo(s3: M.Scan)
    ensures M.Insert(M.Heap(2, Some(Pattern([1], 5)), 2, false, map[], [Pattern([1], 5), Pattern([2], 3)]), Pattern([3], 7), s3)
            == M.Heap(2, Some(Pattern([1], 5)), 2, false, map[], [Pattern([1], 5), Pattern([3], 7)])
  {
    var p5, p3, p7 := Pattern([1], 5), Pattern([2], 3), Pattern([3], 7);
    var h2 := M.Heap(2, Some(p5), 2, false, map[], [p5, p3]);
    var q := [p5, p3, p7];
    assert h2.queue + [p7] == q;
    assert M.AddPattern(h2, p7, s3) == (h2.(queue := q), true);
    assert q[1].support == 3;
    assert M.MinIndex(q) == 1;
    assert q[..1] + q[2..] == [p5, p7];
    assert M.MinIndex([p5, p7]) == 0;
  }

  /**
   * leastSupport is not monotone once full: capacity 3 with supports 5, 3, 4
   * gives threshold 5, and admitting support 6 then evicts 3 and lowers the
   * threshold to 4.
   */
  lemma ThresholdCanDecrease(s1: M.Scan, s2: M.Scan, s3: M.Scan, s4: M.Scan)
    ensures var h0 := M.Empty(3, false);
      M.Inv(h0) && var h1 := M.Insert(h0, Pattern([1], 5), s1);
      M.Inv(h1) && var h2 := M.Insert(h1, Pattern([2], 3), s2);
      M.Inv(h2) && var h3 := M.Insert(h2, Pattern([3], 4), s3);
      M.Inv(h3) && var h4 := M.Insert(h3, Pattern([4], 6), s4);
      && M.IsFull(h3) && M.IsFull(h4)
      && M.LeastSupport(h3) == 5 && M.LeastSupport(h4) == 4
  {
    var p5, p3, p4, p6 := Pattern([1], 5), Pattern([2], 3), Pattern([3], 4), Pattern([4], 6);
    M.EmptyIsValid(3, false);
    FillThree(s1, s2, s3);
    var h3 := M.Heap(3, Some(p5), 3, false, map[], [p5, p3, p4]);
    M.InsertKeepsInv(M.Insert(M.Insert(M.Empty(3, false), p5, s1), p3, s2), p4, s3);
    EvictFromThree(s4);
  }

  lemma FillThree(s1: M.Scan, s2: M.Scan, s3: M.Scan)
    ensures var h0 := M.Empty(3, false);
      M.Inv(h0) && var h1 := M.Insert(h0, Pattern([1], 5), s1);
      M.Inv(h1) && var h2 := M.Insert(h1, Pattern([2], 3), s2);
      M.Inv(h2) && M.Insert(h2, Pattern([3], 4), s3)
                   == M.Heap(3, Some(Pattern([1], 5)), 3, false, map[], [Pattern([1], 5), Pattern([2], 3), Pattern([3], 4)])
  {
    var p5, p3, p4 := Pattern([1], 5), Pattern([2], 3), Pattern([3], 4);
    var h0 := M.Empty(3, false);
    M.EmptyIsValid(3, false);
    var h1 := M.Insert(h0, p5, s1);
    assert h1 == M.Heap(1, Some(p5), 3, false, map[], [p5]);
    M.InsertKeepsInv(h0, p5, s1);
    var h2 := M.Insert(h1, p3, s2);
    assert h2 == M.Heap(2, Some(p5), 3, false, map[], [p5, p3]);
    M.InsertKeepsInv(h1, p3, s2);
  }

  lemma EvictFromThree(s4: M.Scan)
    ensures var h3 := M.Heap(3, Some(Pattern([1], 5)), 3, false, map[], [Pattern([1], 5), Pattern([2], 3), Pattern([3], 4)]);
      M.Inv(h3) && M.Insert(h3, Pattern([4], 6), s4)
                   == M.Heap(3, Some(Pattern([3], 4)), 3, false, map[], [Pattern([1], 5), Pattern([3], 4), Pattern([4], 6)])
  {
    var p5, p3, p4, p6 := Pattern([1], 5), Pattern([2], 3), Pattern([3], 4), Pattern([4], 6);
    var h3 := M.Heap(3, Some(p5), 3, false, map[], [p5, p3, p4]);
    var q := [p5, p3, p4, p6];
    assert h3.queue + [p6] == q;
    assert M.AddPattern(h3, p6, s4) == (h3.(queue := q), true);
    assert q[1].support == 3;
    assert M.MinIndex(q) == 1;
    assert q[..1] + q[2..] == [p5, p4, p6];
    assert [p5, p4, p6][1].support == 4;
    assert M.MinIndex([p5, p4, p6]) == 1;
    assert M.Evict(h3.(queue := q)) == M.Heap(3, Some(p4), 3, false, map[], [p5, p4, p6]);
  }

  /** Inserting a zero-length pattern into any valid state changes nothing. */
  lemma EmptyPatternIgnored(h: M.Heap, support: int, scan: M.Scan)
    requires M.Inv(h)
    ensures M.Insert(h, Pattern([], support), scan) == h
  {
    M.InsertNoChange(h, Pattern([], support), scan);
  }

  /**
   * Capacity 3 with the sub-pattern check: [A] at support 10, then [A, B] at support 10.
   * The only possible scan replaces [A], so getHeap shows just [A, B] and the
   * count stays 1, although [A] is still in the queue.
   */
  lemma SuperPatternReplacesSubPattern(s1: M.Scan, s2: M.Scan)
    requires M.ScanAllowed({Pattern([1], 10)}, Pattern([1, 2], 10), s2)
    ensures var h0 := M.Empty(3, true);
      M.Inv(h0) && var h1 := M.Insert(h0, Pattern([1], 10), s1);
      M.Inv(h1) && var h2 := M.Insert(h1, Pattern([1, 2], 10), s2);
      && M.Bucket(h1, 10) == {Pattern([1], 10)}
      && s2 == M.Replaces(Pattern([1], 10))
      && M.GetHeap(h2) == [Pattern([1, 2], 10)]
      && h2.count == 1
      && h2.queue == [Pattern([1], 10), Pattern([1, 2], 10)]
  {
    var a, ab := Pattern([1], 10), Pattern([1, 2], 10);
    var h1 := M.Heap(1, Some(a), 3, true, map[10 := {a}], [a]);
    FirstOfBucket(s1);
    assert IsSubPatternOf(a, ab);
    assert !IsSubPatternOf(ab, a) by {
      assert 2 in ab.items;
    }
    assert s2 == M.Replaces(a);
    ReplaceOnlyMember();
  }

  lemma FirstOfBucket(s1: M.Scan)
    ensures M.Inv(M.Empty(3, true))
    ensures M.Insert(M.Empty(3, true), Pattern([1], 10), s1)
            == M.Heap(1, Some(Pattern([1], 10)), 3, true, map[10 := {Pattern([1], 10)}], [Pattern([1], 10)])
  {
    M.EmptyIsValid(3, true);
  }

  lemma ReplaceOnlyMember()
    ensures var a, ab := Pattern([1], 10), Pattern([1, 2], 10);
      var h1 := M.Heap(1, Some(a), 3, true, map[10 := {a}], [a]);
      && M.Inv(h1)
      && M.Insert(h1, ab, M.Replaces(a)) == M.Heap(1, Some(a), 3, true, map[10 := {ab}], [a, ab])
      && M.GetHeap(M.Heap(1, Some(a), 3, true, map[10 := {ab}], [a, ab])) == [ab]
  {
    var a, ab := Pattern([1], 10), Pattern([1, 2], 10);
    var h1 := M.Heap(1, Some(a), 3, true, map[10 := {a}], [a]);
    assert {a} - {a} + {ab} == {ab};
    assert map[10 := {a}][10 := {ab}] == map[10 := {ab}];
    var h2 := M.Heap(1, Some(a), 3, true, map[10 := {ab}], [a, ab]);
    assert [a] + [ab] == [a, ab];
    assert M.AddPattern(h1, ab, M.Replaces(a)) == (h2, false);
    assert [a, ab][..1] == [a];
    assert M.Retained(h2, [a]) == [];
  }

  /**
   * addAll: a child that keeps [B] at support 8, folded with attribute C and
   * attribute support 6, gives the parent the single pattern [B, C] at 6.
   */
  lemma AddAllExtendsChild(s1: M.Scan, s2: M.Scan)
    ensures var child0 := M.Empty(3, true);
      M.Inv(child0) && var child := M.Insert(child0, Pattern([2], 8), s1);
      M.Inv(child) && var items := M.GetHeap(child);
      |items| == 1 && var parent := M.AddAll(M.Empty(3, true), items, 3, 6, [s2]);
      M.GetHeap(parent) == [Pattern([2, 3], 6)] && parent.count == 1
  {
    var bc6 := Pattern([2, 3], 6);
    ChildHoldsOne(s1);
    FoldOne(s2);
    var parent := M.Heap(1, Some(bc6), 3, true, map[6 := {bc6}], [bc6]);
    assert [bc6][..0] == [];
    assert M.GetHeap(parent) == [bc6];
  }

  /** The child collector after inserting [B] at 8 holds and shows just that pattern. */
  lemma ChildHoldsOne(s1: M.Scan)
    ensures var child0 := M.Empty(3, true);
      M.Inv(child0) && var child := M.Insert(child0, Pattern([2], 8), s1);
      M.Inv(child) && M.GetHeap(child) == [Pattern([2], 8)]
  {
    var b8 := Pattern([2], 8);
    var child0 := M.Empty(3, true);
    M.EmptyIsValid(3, true);
    var child := M.Insert(child0, b8, s1);
    assert child == M.Heap(1, Some(b8), 3, true, map[8 := {b8}], [b8]);
    M.InsertKeepsInv(child0, b8, s1);
    assert [b8][..0] == [];
  }

  /** Folding [B] at 8 with attribute C at 6 into an empty collector admits [B, C] at 6. */
  lemma FoldOne(s2: M.Scan)
    ensures M.AddAll(M.Empty(3, true), [Pattern([2], 8)], 3, 6, [s2])
            == M.Heap(1, Some(Pattern([2, 3], 6)), 3, true, map[6 := {Pattern([2, 3], 6)}], [Pattern([2, 3], 6)])
  {
    var b8, bc6 := Pattern([2], 8), Pattern([2, 3], 6);
    var e := M.Empty(3, true);
    M.EmptyIsValid(3, true);
    M.AddAllSnoc(e, [b8], 0, 3, 6, [], s2);
    assert [b8][..1] == [b8] && [] + [s2] == [s2];
    assert M.AddAll(e, [b8][..0], 3, 6, []) == e;
    assert Add(b8, 3, 6) == bc6;
    assert M.Offer(e, b8, 3, 6, s2) == M.Insert(e, bc6, s2);
  }

  /**
   * With the sub-pattern check on, the bucket {[1], [2]} at support 10 takes [1, 2] at
   * support 10 by replacing only one of them (whichever the scan meets
   * first), so getHeap then shows [1, 2] together with a sub-pattern of it
   * at the same support.
   */
  lemma SubsumedPairSurvives(s1: M.Scan, s2: M.Scan, s3: M.Scan)
    requires M.ScanAllowed({Pattern([1], 10)}, Pattern([2], 10), s2)
    requires M.ScanAllowed({Pattern([1], 10), Pattern([2], 10)}, Pattern([1, 2], 10), s3)
    ensures var h0 := M.Empty(5, true);
      M.Inv(h0) && var h1 := M.Insert(h0, Pattern([1], 10), s1);
      M.Inv(h1) && var h2 := M.Insert(h1, Pattern([2], 10), s2);
      M.Inv(h2) && var h3 := M.Insert(h2, Pattern([1, 2], 10), s3);
      exists p, q :: p in M.GetHeap(h3) && q in M.GetHeap(h3) && p != q
                       && p.support == q.support && IsSubPatternOf(p, q)
  {
    var a, b, ab := Pattern([1], 10), Pattern([2], 10), Pattern([1, 2], 10);
    FillPair(s1, s2);
    var h2 := M.Heap(2, Some(a), 5, true, map[10 := {a, b}], [a, b]);
    ReplaceOneOfPair(s3);
    assert M.Insert(M.Insert(M.Empty(5, true), a, s1), b, s2) == h2;
    var h3 := M.Insert(h2, ab, s3);
    var kept := if s3 == M.Replaces(a) then b else a;
    assert M.Bucket(h3, 10) == {kept, ab};
    KeptPairInHeap(h3, kept, ab);
  }

  /** Two members of a bucket that sit in the queue are both in getHeap, and the first is a sub-pattern of the second. */
  lemma KeptPairInHeap(h: M.Heap, p: Pattern, q: Pattern)
    requires h.subPatternCheck && p in h.queue && q in h.queue && p != q && p.support == q.support
    requires p in M.Bucket(h, p.support) && q in M.Bucket(h, q.support) && IsSubPatternOf(p, q)
    ensures exists p, q :: p in M.GetHeap(h) && q in M.GetHeap(h) && p != q
                          && p.support == q.support && IsSubPatternOf(p, q)
  {
    assert p in M.GetHeap(h) && q in M.GetHeap(h);
  }

  lemma FillPair(s1: M.Scan, s2: M.Scan)
    requires M.ScanAllowed({Pattern([1], 10)}, Pattern([2], 10), s2)
    ensures var h0 := M.Empty(5, true);
      M.Inv(h0) && var h1 := M.Insert(h0, Pattern([1], 10), s1);
      M.Inv(h1) && h1 == M.Heap(1, Some(Pattern([1], 10)), 5, true, map[10 := {Pattern([1], 10)}], [Pattern([1], 10)])
      && var h2 := M.Insert(h1, Pattern([2], 10), s2);
      M.Inv(h2) && h2 == M.Heap(2, Some(Pattern([1], 10)), 5, true, map[10 := {Pattern([1], 10), Pattern([2], 10)}],
                                [Pattern([1], 10), Pattern([2], 10)])
  {
    var a, b := Pattern([1], 10), Pattern([2], 10);
    var h0 := M.Empty(5, true);
    M.EmptyIsValid(5, true);
    var h1 := M.Insert(h0, a, s1);
    assert h1 == M.Heap(1, Some(a), 5, true, map[10 := {a}], [a]);
    M.InsertKeepsInv(h0, a, s1);
    assert !IsSubPatternOf(b, a) && !IsSubPatternOf(a, b) by {
      assert 2 in b.items && 1 in a.items;
    }
    assert s2 == M.Unrelated;
    assert {a} + {b} == {a, b};
    assert map[10 := {a}][10 := {a} + {b}] == map[10 := {a, b}];
    var h2 := M.Insert(h1, b, s2);
    assert h2 == M.Heap(2, Some(a), 5, true, map[10 := {a, b}], [a, b]);
    M.InsertKeepsInv(h1, b, s2);
  }

  lemma ReplaceOneOfPair(s3: M.Scan)
    requires M.ScanAllowed({Pattern([1], 10), Pattern([2], 10)}, Pattern([1, 2], 10), s3)
    ensures var a, b, ab := Pattern([1], 10), Pattern([2], 10), Pattern([1, 2], 10);
      var h3 := M.Insert(M.Heap(2, Some(a), 5, true, map[10 := {a, b}], [a, b]), ab, s3);
      || (s3 == M.Replaces(a) && h3 == M.Heap(2, Some(a), 5, true, map[10 := {b, ab}], [a, b, ab]))
      || (s3 == M.Replaces(b) && h3 == M.Heap(2, Some(a), 5, true, map[10 := {a, ab}], [a, b, ab]))
  {
    var a, b, ab := Pattern([1], 10), Pattern([2], 10), Pattern([1, 2], 10);
    var h2 := M.Heap(2, Some(a), 5, true, map[10 := {a, b}], [a, b]);
    assert !IsSubPatternOf(ab, a) && !IsSubPatternOf(ab, b) by {
      assert 2 in ab.items && 1 in ab.items;
    }
    assert IsSubPatternOf(a, ab) && IsSubPatternOf(b, ab);
    assert s3 == M.Replaces(a) || s3 == M.Replaces(b);
    var h3 := M.Insert(h2, ab, s3);
    if s3 == M.Replaces(a) {
      assert {a, b} - {a} + {ab} == {b, ab};
      assert map[10 := {a, b}][10 := {b, ab}] == map[10 := {b, ab}];
      assert h3 == M.Heap(2, Some(a), 5, true, map[10 := {b, ab}], [a, b, ab]);
    } else {
      assert {a, b} - {b} + {ab} == {a, ab};
      assert map[10 := {a, b}][10 := {a, ab}] == map[10 := {a, ab}];
      assert h3 == M.Heap(2, Some(a), 5, true, map[10 := {a, ab}], [a, b, ab]);
    }
  }

  /**
   * With the sub-pattern check on, the queue and getHeap can hold more than
   * maxSize patterns. Capacity 2: [1] at 10, then [1, 2] at 10 replaces [1]
   * in its bucket without counting, and [3] at 20 fills the collector with
   * three queue entries. Admitting [4] at 30 polls the stale [1], so getHeap
   * shows three patterns while count stays 2. The poll here does not depend
   * on how ties are broken: [1] is both the first least-support entry of the
   * queue and the root of Java's binary heap, which never moved it.
   */
  lemma QueueOutgrowsCapacity(s1: M.Scan, s2: M.Scan, s3: M.Scan, s4: M.Scan)
    requires M.ScanAllowed({Pattern([1], 10)}, Pattern([1, 2], 10), s2)
    ensures var h0 := M.Empty(2, true);
      M.Inv(h0) && var h1 := M.Insert(h0, Pattern([1], 10), s1);
      M.Inv(h1) && var h2 := M.Insert(h1, Pattern([1, 2], 10), s2);
      M.Inv(h2) && var h3 := M.Insert(h2, Pattern([3], 20), s3);
      M.Inv(h3) && var h4 := M.Insert(h3, Pattern([4], 30), s4);
      && M.IsFull(h3) && |h3.queue| == 3 > h3.maxSize
      && M.Inv(h4) && h4.count == h4.maxSize == 2
      && multiset(M.GetHeap(h4)) == multiset{Pattern([1, 2], 10), Pattern([3], 20), Pattern([4], 30)}
  {
    var a, ab, c, d := Pattern([1], 10), Pattern([1, 2], 10), Pattern([3], 20), Pattern([4], 30);
    OutgrowFill(s1, s2, s3);
    var h3 := M.Heap(2, Some(c), 2, true, map[10 := {ab}, 20 := {c}], [a, ab, c]);
    OutgrowEviction(s4);
    M.InsertKeepsInv(h3, d, s4);
    StaleEvictionHeap();
  }

  lemma OutgrowFill(s1: M.Scan, s2: M.Scan, s3: M.Scan)
    requires M.ScanAllowed({Pattern([1], 10)}, Pattern([1, 2], 10), s2)
    ensures var a, ab, c := Pattern([1], 10), Pattern([1, 2], 10), Pattern([3], 20);
      var h0 := M.Empty(2, true);
      M.Inv(h0) && var h1 := M.Insert(h0, a, s1);
      M.Inv(h1) && var h2 := M.Insert(h1, ab, s2);
      M.Inv(h2) && var h3 := M.Insert(h2, c, s3);
      M.Inv(h3) && h3 == M.Heap(2, Some(c), 2, true, map[10 := {ab}, 20 := {c}], [a, ab, c])
  {
    var ab, c := Pattern([1, 2], 10), Pattern([3], 20);
    OutgrowReplace(s1, s2);
    var h2 := M.Heap(1, Some(Pattern([1], 10)), 2, true, map[10 := {ab}], [Pattern([1], 10), ab]);
    OutgrowThird(s3);
    M.InsertKeepsInv(h2, c, s3);
  }

  /** [1]@10 is admitted, and [1, 2]@10 then takes its place in the bucket without counting. */
  lemma OutgrowReplace(s1: M.Scan, s2: M.Scan)
    requires M.ScanAllowed({Pattern([1], 10)}, Pattern([1, 2], 10), s2)
    ensures var a, ab := Pattern([1], 10), Pattern([1, 2], 10);
      var h0 := M.Empty(2, true);
      M.Inv(h0) && var h1 := M.Insert(h0, a, s1);
      M.Inv(h1) && var h2 := M.Insert(h1, ab, s2);
      M.Inv(h2) && h2 == M.Heap(1, Some(a), 2, true, map[10 := {ab}], [a, ab])
  {
    var a, ab := Pattern([1], 10), Pattern([1, 2], 10);
    var h0 := M.Empty(2, true);
    M.EmptyIsValid(2, true);
    var h1 := M.Insert(h0, a, s1);
    assert h1 == M.Heap(1, Some(a), 2, true, map[10 := {a}], [a]);
    M.InsertKeepsInv(h0, a, s1);
    assert !IsSubPatternOf(ab, a) by {
      assert 2 in ab.items;
    }
    assert s2 == M.Replaces(a);
    assert {a} - {a} + {ab} == {ab};
    assert map[10 := {a}][10 := {ab}] == map[10 := {ab}];
    var h2 := M.Insert(h1, ab, s2);
    assert h2 == M.Heap(1, Some(a), 2, true, map[10 := {ab}], [a, ab]);
    M.InsertKeepsInv(h1, ab, s2);
  }

  /** [3]@20 then fills the collector, with three queue entries, and becomes least. */
  lemma OutgrowThird(s3: M.Scan)
    requires M.Inv(M.Heap(1, Some(Pattern([1], 10)), 2, true, map[10 := {Pattern([1, 2], 10)}],
                          [Pattern([1], 10), Pattern([1, 2], 10)]))
    ensures var a, ab, c := Pattern([1], 10), Pattern([1, 2], 10), Pattern([3], 20);
      var h2 := M.Heap(1, Some(a), 2, true, map[10 := {ab}], [a, ab]);
      M.Insert(h2, c, s3) == M.Heap(2, Some(c), 2, true, map[10 := {ab}, 20 := {c}], [a, ab, c])
  {
    var a, ab, c := Pattern([1], 10), Pattern([1, 2], 10), Pattern([3], 20);
    var h2 := M.Heap(1, Some(a), 2, true, map[10 := {ab}], [a, ab]);
    assert h2.queue + [c] == [a, ab, c];
    assert map[10 := {ab}][20 := {c}] == map[10 := {ab}, 20 := {c}];
  }

  lemma OutgrowEviction(s4: M.Scan)
    requires M.Inv(M.Heap(2, Some(Pattern([3], 20)), 2, true, map[10 := {Pattern([1, 2], 10)}, 20 := {Pattern([3], 20)}],
                          [Pattern([1], 10), Pattern([1, 2], 10), Pattern([3], 20)]))
    ensures var a, ab, c, d := Pattern([1], 10), Pattern([1, 2], 10), Pattern([3], 20), Pattern([4], 30);
      var h3 := M.Heap(2, Some(c), 2, true, map[10 := {ab}, 20 := {c}], [a, ab, c]);
      M.Insert(h3, d, s4) == M.Heap(2, Some(ab), 2, true, map[10 := {ab}, 20 := {c}, 30 := {d}], [ab, c, d])
  {
    var a, ab, c, d := Pattern([1], 10), Pattern([1, 2], 10), Pattern([3], 20), Pattern([4], 30);
    var h3 := M.Heap(2, Some(c), 2, true, map[10 := {ab}, 20 := {c}], [a, ab, c]);
    var q := [a, ab, c, d];
    assert h3.queue + [d] == q;
    var idx := map[10 := {ab}, 20 := {c}, 30 := {d}];
    assert h3.patternIndex[30 := {d}] == idx;
    assert M.AddPattern(h3, d, s4) == (h3.(queue := q, patternIndex := idx), true);
    EvictStaleCopy();
  }

  /**
   * The poll after admitting [4] at 30 removes the stale [1] at 10, the first
   * of the two least-support entries; its bucket, which no longer holds it,
   * is left as it was, and the new threshold is [1, 2] at 10.
   */
  lemma EvictStaleCopy()
    ensures var a, ab, c, d := Pattern([1], 10), Pattern([1, 2], 10), Pattern([3], 20), Pattern([4], 30);
      var idx := map[10 := {ab}, 20 := {c}, 30 := {d}];
      M.Evict(M.Heap(2, Some(c), 2, true, idx, [a, ab, c, d])) == M.Heap(2, Some(ab), 2, true, idx, [ab, c, d])
  {
    var a, ab, c, d := Pattern([1], 10), Pattern([1, 2], 10), Pattern([3], 20), Pattern([4], 30);
    var q := [a, ab, c, d];
    var idx := map[10 := {ab}, 20 := {c}, 30 := {d}];
    assert q[0].support == 10 && q[1].support == 10;
    assert M.MinIndex(q) == 0;
    assert q[..0] + q[1..] == [ab, c, d];
    assert M.MinIndex([ab, c, d]) == 0;
    assert {ab} - {a} == {ab};
    assert M.RemoveFromBucket(idx, 10, a) == idx;
  }

  /** getHeap on the final state shows all three queue entries, since each is still in its bucket. */
  lemma StaleEvictionHeap()
    ensures var ab, c, d := Pattern([1, 2], 10), Pattern([3], 20), Pattern([4], 30);
      M.GetHeap(M.Heap(2, Some(ab), 2, true, map[10 := {ab}, 20 := {c}, 30 := {d}], [ab, c, d])) == [ab, c, d]
  {
    var ab, c, d := Pattern([1, 2], 10), Pattern([3], 20), Pattern([4], 30);
    var h := M.Heap(2, Some(ab), 2, true, map[10 := {ab}, 20 := {c}, 30 := {d}], [ab, c, d]);
    assert [ab, c, d][..2] == [ab, c] && [ab, c][..1] == [ab] && [ab][..0] == [];
    assert M.Retained(h, [ab]) == [ab];
    assert M.Retained(h, [ab, c]) == [ab, c];
  }
}
