/**
 * The bounded top-K frequent-pattern collector as an object whose methods
 * update its fields in place. Each method is proved to leave the object in
 * the state that the value-level model (PatternHeapModel) gives for the old
 * state, so every lemma proved there about reachable states applies here.
 */
module PatternHeap {
  import opened Wrappers
  import opened Patterns
  import M = PatternHeapModel

  /**
   * addPattern's scan of the candidate's equal-support bucket: stops at the
   * first member the candidate is a sub-pattern of (reject) or that is a
   * sub-pattern of the candidate (replace); the set is visited in an
   * unspecified order.
   */
  method ScanBucket(bucket: set<Pattern>, c: Pattern) returns (scan: M.Scan)
    ensures M.ScanAllowed(bucket, c, scan)
  {
    var rest := bucket;
    while rest != {}
      invariant rest <= bucket
      invariant forall p :: p in bucket - rest ==> !IsSubPatternOf(c, p) && !IsSubPatternOf(p, c)
      decreases |rest|
    {
      var p :| p in rest;
      if IsSubPatternOf(c, p) {
        return M.Subsumed;
      } else if IsSubPatternOf(p, c) {
        return M.Replaces(p);
      }
      rest := rest - {p};
    }
    return M.Unrelated;
  }

  class FrequentPatternMaxHeap {
    var count: nat
    var least: Option<Pattern>
    const maxSize: nat
    const subPatternCheck: bool
    var patternIndex: map<int, set<Pattern>>
    var queue: seq<Pattern>

    /** The fields as a value of the model. */
    function State(): M.Heap
      reads this
    {
      M.Heap(count, least, maxSize, subPatternCheck, patternIndex, queue)
    }

    ghost predicate Valid()
      reads this
    {
      M.Inv(State())
    }

    constructor (numResults: nat, subPatternCheck: bool)
      requires numResults > 0
      ensures Valid()
      ensures State() == M.Empty(numResults, subPatternCheck)
    {
      count := 0;
      least := None;
      maxSize := numResults;
      this.subPatternCheck := subPatternCheck;
      patternIndex := map[];
      queue := [];
    }

    function Count(): (r: nat)
      reads this
      ensures Valid() ==> r <= maxSize && r <= |queue|
    {
      count
    }

    function IsFull(): (r: bool)
      reads this
      ensures Valid() && r ==> |queue| >= maxSize
      ensures Valid() && !r ==> count < maxSize
    {
      M.IsFull(State())
    }

    function LeastSupport(): (r: int)
      reads this
      ensures Valid() && count == 0 ==> r == 0
      ensures Valid() && count > 0 ==> exists p :: p in queue && p.support == r
    {
      M.LeastSupport(State())
    }

    function Addable(support: int): (r: bool)
      reads this
      requires Valid()
      ensures !IsFull() ==> r
      ensures IsFull() ==> (r <==> LeastSupport() <= support)
    {
      M.Addable(State(), support)
    }

    method GetHeap() returns (ret: seq<Pattern>)
      requires Valid()
      ensures ret == M.GetHeap(State())
    {
      if subPatternCheck {
        ret := [];
        for i := 0 to |queue|
          invariant ret == M.Retained(State(), queue[..i])
        {
          var p := queue[i];
          assert queue[..i + 1][..i] == queue[..i];
          if p in patternIndex[p.support] {
            ret := ret + [p];
          }
        }
        assert queue[..|queue|] == queue;
      } else {
        ret := queue;
      }
    }

    method AddPattern(frequentPattern: Pattern) returns (added: bool, ghost scan: M.Scan)
      requires Valid()
      modifies this
      ensures (State(), added) == M.AddPattern(old(State()), frequentPattern, scan)
      ensures M.ScanAllowed(M.Bucket(old(State()), frequentPattern.support), frequentPattern, scan)
    {
      if !subPatternCheck {
        queue := queue + [frequentPattern];
        return true, M.Unrelated;
      }
      var index := frequentPattern.support;
      if index in patternIndex {
        var indexSet := patternIndex[index];
        var s := ScanBucket(indexSet, frequentPattern);
        scan := s;
        match s
        case Subsumed =>
          added := false;
        case Replaces(replacablePattern) =>
          indexSet := indexSet - {replacablePattern};
          if frequentPattern !in indexSet {
            queue := queue + [frequentPattern];
            indexSet := indexSet + {frequentPattern};
          }
          patternIndex := patternIndex[index := indexSet];
          added := false;
        case Unrelated =>
          queue := queue + [frequentPattern];
          patternIndex := patternIndex[index := indexSet + {frequentPattern}];
          added := true;
      } else {
        queue := queue + [frequentPattern];
        patternIndex := patternIndex[index := {frequentPattern}];
        added, scan := true, M.Unrelated;
      }
    }

    /** Polls the queue's minimum and drops it from its bucket, as insert does on a full collector. */
    method Evict()
      requires |queue| > 0
      modifies this
      ensures State() == M.Evict(old(State()))
    {
      var k := M.MinIndex(queue);
      var evictedItem := queue[k];
      queue := queue[..k] + queue[k + 1..];
      least := M.Peek(queue);
      if subPatternCheck {
        patternIndex := M.RemoveFromBucket(patternIndex, evictedItem.support, evictedItem);
      }
    }

    /** Counts a candidate admitted while filling and moves least up to it if it compares greater. */
    method Grow(frequentPattern: Pattern)
      modifies this
      ensures State() == M.Grow(old(State()), frequentPattern)
    {
      count := count + 1;
      if least.Some? {
        if CompareTo(least.value, frequentPattern) < 0 {
          least := Some(frequentPattern);
        }
      } else {
        least := Some(frequentPattern);
      }
    }

    method Insert(frequentPattern: Pattern) returns (ghost scan: M.Scan)
      requires Valid()
      modifies this
      ensures Valid()
      ensures State() == M.Insert(old(State()), frequentPattern, scan)
      ensures M.ScanAllowed(M.Bucket(old(State()), frequentPattern.support), frequentPattern, scan)
    {
      ghost var h := State();
      scan := M.SomeScan(M.Bucket(h, frequentPattern.support), frequentPattern);
      if Length(frequentPattern) == 0 {
        return;
      }
      if count == maxSize {
        if CompareTo(frequentPattern, least.value) > 0 {
          var added;
          added, scan := AddPattern(frequentPattern);
          if added {
            Evict();
          }
        }
      } else {
        var added;
        added, scan := AddPattern(frequentPattern);
        if added {
          Grow(frequentPattern);
        }
      }
      M.InsertKeepsInv(h, frequentPattern, scan);
    }

    /** One step of addAll: extends `pattern` and inserts it if its new support is addable. */
    method Offer(pattern: Pattern, attribute: int, attributeSupport: int) returns (ghost scan: M.Scan)
      requires Valid()
      modifies this
      ensures Valid()
      ensures State() == M.Offer(old(State()), pattern, attribute, attributeSupport, scan)
      ensures var c := M.Extended(pattern, attribute, attributeSupport);
        M.ScanAllowed(M.Bucket(old(State()), c.support), c, scan)
    {
      var support := M.Min(attributeSupport, pattern.support);
      if Addable(support) {
        scan := Insert(Add(pattern, attribute, support));
      } else {
        scan := M.SomeScan(M.Bucket(State(), support), M.Extended(pattern, attribute, attributeSupport));
      }
    }

    method AddAll(patterns: FrequentPatternMaxHeap, attribute: int, attributeSupport: int)
      returns (ghost scans: seq<M.Scan>)
      requires Valid() && patterns.Valid()
      modifies this
      ensures Valid()
      ensures |scans| == |M.GetHeap(old(patterns.State()))|
      ensures State() == M.AddAll(old(State()), M.GetHeap(old(patterns.State())), attribute, attributeSupport, scans)
      ensures M.ScansAllowed(old(State()), M.GetHeap(old(patterns.State())), attribute, attributeSupport, scans)
    {
      var items := patterns.GetHeap();
      ghost var h0 := State();
      scans := [];
      for i := 0 to |items|
        invariant Valid()
        invariant |scans| == i
        invariant State() == M.AddAll(h0, items[..i], attribute, attributeSupport, scans)
        invariant M.ScansAllowed(h0, items[..i], attribute, attributeSupport, scans)
      {
        ghost var s := Offer(items[i], attribute, attributeSupport);
        M.AddAllSnoc(h0, items, i, attribute, attributeSupport, scans, s);
        scans := scans + [s];
      }
      assert items[..|items|] == items;
    }
  }
}
