/**
 * Value-level model of the bounded top-K frequent-pattern collector
 * (FrequentPatternMaxHeap). A `Heap` holds exactly the fields of the Java
 * object; the functions below give the state after each operation, and the
 * lemmas state what the collector promises about those states.
 *
 * Two choices that Java leaves to its library containers are made explicit:
 *  - the priority queue is a sequence; `poll` removes the first element of
 *    least support and `peek` returns it (MinIndex, Peek);
 *  - the order in which addPattern scans a support bucket (a HashSet) is
 *    unspecified, so its outcome is a parameter `scan`, and ScanAllowed says
 *    which outcomes some iteration order can produce.
 */
module PatternHeapModel {
  import opened Wrappers
  import opened Patterns

  datatype Heap = Heap(
    count: nat,
    least: Option<Pattern>,
    maxSize: nat,
    subPatternCheck: bool,
    patternIndex: map<int, set<Pattern>>,
    queue: seq<Pattern>)

  /** The outcome of scanning the candidate's equal-support bucket. */
  datatype Scan =
    | Subsumed               // the candidate is a sub-pattern of a member: reject
    | Replaces(replaced: Pattern)  // a member is a sub-pattern of the candidate: replace it
    | Unrelated              // no member relates to the candidate either way

  /** The outcomes that scanning `bucket` in some order can produce. */
  predicate ScanAllowed(bucket: set<Pattern>, c: Pattern, scan: Scan)
  {
    match scan
    case Subsumed => exists p :: p in bucket && IsSubPatternOf(c, p)
    case Replaces(r) => r in bucket && !IsSubPatternOf(c, r) && IsSubPatternOf(r, c)
    case Unrelated => forall p :: p in bucket ==> !IsSubPatternOf(c, p) && !IsSubPatternOf(p, c)
  }

  /** Some allowed outcome; used where no scan takes place. */
  ghost function SomeScan(bucket: set<Pattern>, c: Pattern): (scan: Scan)
    ensures ScanAllowed(bucket, c, scan)
  {
    if exists p :: p in bucket && IsSubPatternOf(c, p) then Subsumed
    else if exists r :: r in bucket && IsSubPatternOf(r, c) then
      var r :| r in bucket && IsSubPatternOf(r, c);
      Replaces(r)
    else Unrelated
  }

  /** The patterns of support `s` in the index (empty when there is no bucket). */
  function Bucket(h: Heap, s: int): set<Pattern>
  {
    if s in h.patternIndex then h.patternIndex[s] else {}
  }

  /** Every queue entry and index bucket agree, and the index is unused without the sub-pattern check. */
  ghost predicate IndexConsistent(h: Heap)
  {
    && (h.subPatternCheck ==> forall p :: p in h.queue ==> p.support in h.patternIndex)
    && (forall s, p :: s in h.patternIndex && p in h.patternIndex[s] ==> p.support == s && p in h.queue)
    && (!h.subPatternCheck ==> h.patternIndex == map[])
  }

  /** The invariant every reachable collector state satisfies. */
  ghost predicate Inv(h: Heap)
  {
    && h.maxSize > 0
    && h.count <= h.maxSize
    && h.count <= |h.queue|
    && (h.least.Some? <==> h.count > 0)
    && (h.count == 0 ==> h.queue == [] && h.patternIndex == map[])
    && (h.least.Some? ==> h.least.value in h.queue)
    && (!h.subPatternCheck ==> |h.queue| == h.count)
    && IndexConsistent(h)
  }

  /** A freshly constructed collector. */
  function Empty(maxSize: nat, subPatternCheck: bool): (r: Heap)
    ensures GetHeap(r) == [] && LeastSupport(r) == 0
    ensures IsFull(r) <==> maxSize == 0
  {
    Heap(0, None, maxSize, subPatternCheck, map[], [])
  }

  function IsFull(h: Heap): (r: bool)
    ensures Inv(h) && r ==> |h.queue| >= h.maxSize && h.least.Some?
    ensures Inv(h) && !r ==> h.count < h.maxSize
  {
    h.count == h.maxSize
  }

  function LeastSupport(h: Heap): (r: int)
    ensures Inv(h) && h.count == 0 ==> r == 0
    ensures Inv(h) && h.count > 0 ==> exists p :: p in h.queue && p.support == r
  {
    if h.least.None? then 0 else h.least.value.support
  }

  /** The cheap pre-filter on a support value. */
  predicate Addable(h: Heap, support: int)
    requires Inv(h)
    ensures !IsFull(h) ==> Addable(h, support)
    ensures IsFull(h) ==> (Addable(h, support) <==> LeastSupport(h) <= support)
  {
    h.count < h.maxSize || h.least.value.support <= support
  }

  /** Index of the first element of least support. */
  function MinIndex(q: seq<Pattern>): (k: nat)
    requires |q| > 0
    ensures k < |q|
    ensures forall j :: 0 <= j < |q| ==> q[k].support <= q[j].support
    ensures forall j :: 0 <= j < k ==> q[k].support < q[j].support
  {
    if |q| == 1 then 0
    else
      var k := MinIndex(q[..|q| - 1]);
      if q[|q| - 1].support < q[k].support then |q| - 1 else k
  }

  /** The queue's head, or nothing for an empty queue. */
  function Peek(q: seq<Pattern>): (r: Option<Pattern>)
    ensures r.Some? <==> |q| > 0
    ensures r.Some? ==> r.value in q
  {
    if |q| == 0 then None else Some(q[MinIndex(q)])
  }

  /** Removes `p` from the bucket of support `s`, if there is one. */
  function RemoveFromBucket(index: map<int, set<Pattern>>, s: int, p: Pattern): (r: map<int, set<Pattern>>)
    ensures r.Keys == index.Keys
    ensures s in r ==> p !in r[s] && r[s] <= index[s] && index[s] - {p} <= r[s]
    ensures forall t :: t in r && t != s ==> r[t] == index[t]
  {
    if s in index then index[s := index[s] - {p}] else index
  }

  /**
   * addPattern: puts the candidate into the queue (and into the index when the
   * sub-pattern check is on) and says whether the caller may count it.
   */
  function AddPattern(h: Heap, c: Pattern, scan: Scan): (r: (Heap, bool))
    ensures r.0.count == h.count && r.0.least == h.least
    ensures r.0.maxSize == h.maxSize && r.0.subPatternCheck == h.subPatternCheck
    ensures r.0.queue == h.queue || r.0.queue == h.queue + [c]
    ensures r.1 ==> r.0.queue == h.queue + [c]
    ensures !h.subPatternCheck ==> r.1 && r.0.patternIndex == h.patternIndex
    ensures h.subPatternCheck && r.1 ==> r.0.patternIndex == h.patternIndex[c.support := Bucket(h, c.support) + {c}]
  {
    if !h.subPatternCheck then
      (h.(queue := h.queue + [c]), true)
    else if c.support in h.patternIndex then
      var bucket := h.patternIndex[c.support];
      match scan
      case Subsumed => (h, false)
      case Replaces(r) =>
        var rest := bucket - {r};
        if c !in rest then
          (h.(queue := h.queue + [c], patternIndex := h.patternIndex[c.support := rest + {c}]), false)
        else
          (h.(patternIndex := h.patternIndex[c.support := rest]), false)
      case Unrelated =>
        (h.(queue := h.queue + [c], patternIndex := h.patternIndex[c.support := bucket + {c}]), true)
    else
      assert Bucket(h, c.support) + {c} == {c};
      (h.(queue := h.queue + [c], patternIndex := h.patternIndex[c.support := {c}]), true)
  }

  /** The candidate passes insert's length, capacity and threshold tests. */
  predicate Admissible(h: Heap, c: Pattern)
  {
    Length(c) > 0 && (h.count < h.maxSize || (h.least.Some? && CompareTo(c, h.least.value) > 0))
  }

  /** Polls the queue's head, as insert does after a successful addPattern on a full collector. */
  function Evict(h: Heap): (r: Heap)
    requires |h.queue| > 0
    ensures r.count == h.count && r.maxSize == h.maxSize && r.subPatternCheck == h.subPatternCheck
    ensures |r.queue| == |h.queue| - 1
  {
    var k := MinIndex(h.queue);
    var evicted := h.queue[k];
    var q := h.queue[..k] + h.queue[k + 1..];
    h.(queue := q,
       least := Peek(q),
       patternIndex := if h.subPatternCheck
                       then RemoveFromBucket(h.patternIndex, evicted.support, evicted)
                       else h.patternIndex)
  }

  /** Counts a candidate admitted while filling; least moves up to it if it compares greater. */
  function Grow(h: Heap, c: Pattern): (r: Heap)
    ensures r.count == h.count + 1 && r.queue == h.queue && r.patternIndex == h.patternIndex
    ensures r.least == Some(c) || r.least == h.least
    ensures LeastSupport(r) >= c.support
    ensures h.least.Some? ==> LeastSupport(r) >= LeastSupport(h)
  {
    h.(count := h.count + 1,
       least := if h.least.None? || CompareTo(h.least.value, c) < 0 then Some(c) else h.least)
  }

  /** insert: the state after offering the candidate `c`. */
  function Insert(h: Heap, c: Pattern, scan: Scan): (r: Heap)
    requires Inv(h)
    ensures r.maxSize == h.maxSize && r.subPatternCheck == h.subPatternCheck
    ensures h.count <= r.count <= h.count + 1
    ensures Length(c) == 0 ==> r == h
  {
    if Length(c) == 0 then h
    else if h.count == h.maxSize then
      if CompareTo(c, h.least.value) > 0 then
        var (h1, added) := AddPattern(h, c, scan);
        if added then Evict(h1) else h1
      else h
    else
      var (h1, added) := AddPattern(h, c, scan);
      if added then Grow(h1, c) else h1
  }

  /** getHeap: the queue entries still present in their support bucket (all of them without the sub-pattern check). */
  function GetHeap(h: Heap): (r: seq<Pattern>)
    ensures !h.subPatternCheck ==> r == h.queue
    ensures forall p :: p in r <==> p in h.queue && (h.subPatternCheck ==> p in Bucket(h, p.support))
    ensures |r| <= |h.queue|
  {
    if h.subPatternCheck then Retained(h, h.queue) else h.queue
  }

  /** The elements of `q`, in order, that are members of their support bucket. */
  function Retained(h: Heap, q: seq<Pattern>): (r: seq<Pattern>)
    ensures forall p :: p in r <==> p in q && p in Bucket(h, p.support)
    ensures |r| <= |q|
  {
    if q == [] then []
    else
      var rest := Retained(h, q[..|q| - 1]);
      var p := q[|q| - 1];
      assert q == q[..|q| - 1] + [p];
      if p in Bucket(h, p.support) then rest + [p] else rest
  }

  function Min(a: int, b: int): int
  {
    if a <= b then a else b
  }

  /** The candidate that addAll builds from `p`. */
  function Extended(p: Pattern, attribute: int, attributeSupport: int): Pattern
  {
    Add(p, attribute, Min(attributeSupport, p.support))
  }

  /** One step of addAll: extend `p` and insert it if its new support is addable. */
  function Offer(h: Heap, p: Pattern, attribute: int, attributeSupport: int, scan: Scan): (r: Heap)
    requires Inv(h)
    ensures Inv(r) && h.count <= r.count && r.maxSize == h.maxSize
  {
    var c := Extended(p, attribute, attributeSupport);
    if Addable(h, c.support) then
      InsertKeepsInv(h, c, scan);
      Insert(h, c, scan)
    else h
  }

  /** addAll: offers every pattern of `items`, in order, each with its own scan outcome. */
  function AddAll(h: Heap, items: seq<Pattern>, attribute: int, attributeSupport: int, scans: seq<Scan>): (r: Heap)
    requires Inv(h) && |scans| == |items|
    ensures Inv(r) && h.count <= r.count && r.maxSize == h.maxSize
    decreases |items|
  {
    if items == [] then h
    else
      var n := |items| - 1;
      Offer(AddAll(h, items[..n], attribute, attributeSupport, scans[..n]), items[n], attribute, attributeSupport, scans[n])
  }

  /** Every scan outcome in `scans` is one the bucket scanned at that step allows. */
  ghost predicate ScansAllowed(h: Heap, items: seq<Pattern>, attribute: int, attributeSupport: int, scans: seq<Scan>)
    requires Inv(h) && |scans| == |items|
    decreases |items|
  {
    if items == [] then true
    else
      var n := |items| - 1;
      var c := Extended(items[n], attribute, attributeSupport);
      && ScansAllowed(h, items[..n], attribute, attributeSupport, scans[..n])
      && ScanAllowed(Bucket(AddAll(h, items[..n], attribute, attributeSupport, scans[..n]), c.support), c, scans[n])
  }

  // ---------------------------------------------------------------------
  // The invariant
  // ---------------------------------------------------------------------

  lemma EmptyIsValid(maxSize: nat, subPatternCheck: bool)
    requires maxSize > 0
    ensures Inv(Empty(maxSize, subPatternCheck))
  {
  }

  lemma AddPatternKeepsIndex(h: Heap, c: Pattern, scan: Scan)
    requires IndexConsistent(h)
    ensures IndexConsistent(AddPattern(h, c, scan).0)
  {
    var h1 := AddPattern(h, c, scan).0;
    if h.subPatternCheck && c.support in h.patternIndex && scan.Replaces? {
      var rest := h.patternIndex[c.support] - {scan.replaced};
      forall s, p | s in h1.patternIndex && p in h1.patternIndex[s]
        ensures p.support == s && p in h1.queue
      {
        if s != c.support {
          assert p in h.patternIndex[s];
        } else if p != c {
          assert p in rest;
        }
      }
    }
  }

  /** Removing the element at `k` keeps every other element and nothing else. */
  lemma RemoveAt(q: seq<Pattern>, k: nat)
    requires k < |q|
    ensures multiset(q) == multiset(q[..k] + q[k + 1..]) + multiset{q[k]}
    ensures forall p :: p in q[..k] + q[k + 1..] ==> p in q
    ensures forall p :: p in q && p != q[k] ==> p in q[..k] + q[k + 1..]
  {
    assert q == q[..k] + [q[k]] + q[k + 1..];
    forall p | p in q && p != q[k] ensures p in q[..k] + q[k + 1..] {
      assert p in multiset(q);
    }
  }

  /** The head of a non-empty queue is one of its elements of least support. */
  lemma PeekFacts(q: seq<Pattern>)
    ensures Peek(q).Some? <==> |q| > 0
    ensures Peek(q).Some? ==> Peek(q).value in q && forall p :: p in q ==> Peek(q).value.support <= p.support
  {
    if |q| > 0 {
      forall p | p in q ensures Peek(q).value.support <= p.support {
        var i :| 0 <= i < |q| && q[i] == p;
      }
    }
  }

  /** Polling removes one element of least support from the queue. */
  lemma PollFacts(q: seq<Pattern>)
    requires |q| > 0
    ensures var k := MinIndex(q); var rest := q[..k] + q[k + 1..];
      && |rest| == |q| - 1
      && multiset(q) == multiset(rest) + multiset{q[k]}
      && (forall p :: p in rest ==> p in q)
      && (forall p :: p in q && p != q[k] ==> p in rest)
      && (forall p :: p in q ==> q[k].support <= p.support)
  {
    var k := MinIndex(q);
    RemoveAt(q, k);
    forall p | p in q ensures q[k].support <= p.support {
      var i :| 0 <= i < |q| && q[i] == p;
    }
  }

  /** Polling keeps the queue and the index consistent. */
  lemma EvictKeepsIndex(h: Heap)
    requires |h.queue| > 0 && IndexConsistent(h)
    ensures IndexConsistent(Evict(h))
    ensures h.subPatternCheck ==> h.queue[MinIndex(h.queue)] !in Bucket(Evict(h), h.queue[MinIndex(h.queue)].support)
  {
    var k := MinIndex(h.queue);
    var e := h.queue[k];
    var r := Evict(h);
    PollFacts(h.queue);
    forall s, p | s in r.patternIndex && p in r.patternIndex[s]
      ensures p.support == s && p in r.queue
    {
      assert p in h.patternIndex[s];
      assert p != e;
    }
  }

  /** What polling the head does to a consistent state. */
  lemma EvictFacts(h: Heap)
    requires |h.queue| > 0 && IndexConsistent(h)
    ensures var r := Evict(h); var e := h.queue[MinIndex(h.queue)];
      && r.count == h.count && r.maxSize == h.maxSize && r.subPatternCheck == h.subPatternCheck
      && |r.queue| == |h.queue| - 1
      && multiset(h.queue) == multiset(r.queue) + multiset{e}
      && (forall p :: p in r.queue ==> p in h.queue)
      && (forall p :: p in h.queue && p != e ==> p in r.queue)
      && (forall p :: p in h.queue ==> e.support <= p.support)
      && (h.subPatternCheck ==> e !in Bucket(r, e.support))
      && (r.least.Some? <==> |r.queue| > 0)
      && (r.least.Some? ==> r.least.value in r.queue && forall p :: p in r.queue ==> r.least.value.support <= p.support)
      && IndexConsistent(r)
  {
    PollFacts(h.queue);
    PeekFacts(Evict(h).queue);
    EvictKeepsIndex(h);
  }

  /** insert keeps the invariant; the count never exceeds the capacity and grows by at most one. */
  lemma InsertKeepsInv(h: Heap, c: Pattern, scan: Scan)
    requires Inv(h)
    ensures var r := Insert(h, c, scan);
      && Inv(r)
      && h.count <= r.count <= h.count + 1
      && r.maxSize == h.maxSize && r.subPatternCheck == h.subPatternCheck
      && (IsFull(h) ==> IsFull(r))
  {
    if Length(c) == 0 {
      return;
    }
    var (h1, added) := AddPattern(h, c, scan);
    AddPatternKeepsIndex(h, c, scan);
    if h.count == h.maxSize && CompareTo(c, h.least.value) > 0 && added {
      EvictFacts(h1);
    }
  }

  // ---------------------------------------------------------------------
  // Branches of insert
  // ---------------------------------------------------------------------

  /**
   * A pattern of length 0 changes nothing, and neither does a candidate that
   * does not beat the threshold of a full collector.
   */
  lemma InsertNoChange(h: Heap, c: Pattern, scan: Scan)
    requires Inv(h)
    requires Length(c) == 0 || (IsFull(h) && c.support <= LeastSupport(h))
    ensures Insert(h, c, scan) == h
  {
  }

  /**
   * addable is a sound pre-filter for insert: a support it refuses is one that
   * insert would reject without change. It is not exact: a full collector
   * finds a support equal to the threshold addable, yet insert, under the
   * support-only comparison assumed for patterns (Patterns.CompareTo),
   * rejects it; a tie-break ranking the candidate higher would admit it.
   */
  lemma AddableIsPrefilter(h: Heap, c: Pattern, scan: Scan)
    requires Inv(h)
    ensures Addable(h, c.support) <==> !IsFull(h) || LeastSupport(h) <= c.support
    ensures !Addable(h, c.support) ==> Insert(h, c, scan) == h
    ensures IsFull(h) && c.support == LeastSupport(h) ==> Addable(h, c.support) && Insert(h, c, scan) == h
  {
  }

  /**
   * A full collector admitting a candidate that addPattern accepts polls
   * exactly one head: an element of least support in the queue before the
   * insertion, which also leaves its bucket; the count stays; the new
   * threshold is the new head, an element of least support.
   */
  lemma InsertEvicts(h: Heap, c: Pattern, scan: Scan)
    requires Inv(h) && IsFull(h)
    requires Length(c) > 0 && c.support > LeastSupport(h) && AddPattern(h, c, scan).1
    ensures var r := Insert(h, c, scan);
      && r.count == h.count
      && (exists e ::
           && e in h.queue
           && (forall p :: p in h.queue ==> e.support <= p.support)
           && multiset(r.queue) == multiset(h.queue) + multiset{c} - multiset{e}
           && (h.subPatternCheck ==> e !in Bucket(r, e.support)))
      && r.least.Some? && r.least.value in r.queue
      && (forall p :: p in r.queue ==> r.least.value.support <= p.support)
  {
    var h1 := AddPattern(h, c, scan).0;
    assert Insert(h, c, scan) == Evict(h1);
    AddPatternKeepsIndex(h, c, scan);
    EvictAfterAppend(h, c, h1);
  }

  /** The eviction step of InsertEvicts, on the state right after addPattern appended `c`. */
  lemma EvictAfterAppend(h: Heap, c: Pattern, h1: Heap)
    requires Inv(h) && h.least.Some? && c.support > h.least.value.support
    requires h1.queue == h.queue + [c] && h1.count == h.count
    requires h1.subPatternCheck == h.subPatternCheck && IndexConsistent(h1)
    ensures var r := Evict(h1);
      && r.count == h.count
      && (exists e ::
           && e in h.queue
           && (forall p :: p in h.queue ==> e.support <= p.support)
           && multiset(r.queue) == multiset(h.queue) + multiset{c} - multiset{e}
           && (h.subPatternCheck ==> e !in Bucket(r, e.support)))
      && r.least.Some? && r.least.value in r.queue
      && (forall p :: p in r.queue ==> r.least.value.support <= p.support)
  {
    var q1 := h.queue + [c];
    var k := MinIndex(q1);
    var e := q1[k];
    var r := Evict(h1);
    assert r.queue == q1[..k] + q1[k + 1..];
    AppendThenPoll(h.queue, c, h.least.value);
    PeekFacts(r.queue);
    EvictKeepsIndex(h1);
    assert e in h.queue && (forall p :: p in h.queue ==> e.support <= p.support);
    assert multiset(r.queue) == multiset(h.queue) + multiset{c} - multiset{e};
    assert h.subPatternCheck ==> e !in Bucket(r, e.support);
  }

  /** Polling a queue just extended by `c`, which beats one of its members, removes an old minimum. */
  lemma AppendThenPoll(q: seq<Pattern>, c: Pattern, m: Pattern)
    requires m in q && c.support > m.support
    ensures var q1 := q + [c]; var k := MinIndex(q1); var rest := q1[..k] + q1[k + 1..];
      && q1[k] in q
      && (forall p :: p in q ==> q1[k].support <= p.support)
      && multiset(rest) == multiset(q) + multiset{c} - multiset{q1[k]}
      && |rest| > 0
  {
    var q1 := q + [c];
    var k := MinIndex(q1);
    PollFacts(q1);
    assert m in q1;
    assert q1[k] != c;
    assert multiset(q1) == multiset(q) + multiset{c};
    forall p | p in q ensures q1[k].support <= p.support {
      assert p in q1;
    }
  }

  /**
   * The sub-pattern rule, for a candidate that passes the capacity and
   * threshold tests (Admissible). A candidate that is a sub-pattern of the
   * member scanned first is rejected with no change.
   */
  lemma InsertSubsumed(h: Heap, c: Pattern)
    requires Inv(h) && h.subPatternCheck && Admissible(h, c)
    requires ScanAllowed(Bucket(h, c.support), c, Subsumed)
    ensures Insert(h, c, Subsumed) == h
    ensures exists p :: p in Bucket(h, c.support) && IsSubPatternOf(c, p)
  {
    assert c.support in h.patternIndex;
  }

  /**
   * A candidate equal to a pattern already in its bucket is never queued a
   * second time. It is a sub-pattern of itself, so no scan finds it unrelated
   * to the bucket, and a replacement finds it already present. count, least
   * and the queue stay as they were, and it keeps its place in the bucket.
   */
  lemma DuplicateNotQueued(h: Heap, c: Pattern, scan: Scan)
    requires Inv(h) && h.subPatternCheck && c in Bucket(h, c.support)
    requires ScanAllowed(Bucket(h, c.support), c, scan)
    ensures scan != Unrelated
    ensures var r := Insert(h, c, scan);
      r.count == h.count && r.least == h.least && r.queue == h.queue && c in Bucket(r, c.support)
  {
    SubPatternReflexive(c);
    assert c.support in h.patternIndex;
  }

  /**
   * A candidate of which a bucket member is a sub-pattern takes that member's
   * place in the bucket and joins the queue (unless an equal pattern is
   * already in the bucket); addPattern answers false, so count and least are
   * left as they were and nothing is evicted, and the replaced member stays
   * in the queue.
   */
  lemma InsertReplaces(h: Heap, c: Pattern, x: Pattern)
    requires Inv(h) && h.subPatternCheck && Admissible(h, c)
    requires ScanAllowed(Bucket(h, c.support), c, Replaces(x))
    ensures var r := Insert(h, c, Replaces(x));
      && Bucket(r, c.support) == Bucket(h, c.support) - {x} + {c}
      && c in r.queue && (x in h.queue ==> x in r.queue)
      && r.count == h.count && r.least == h.least
      && multiset(h.queue) <= multiset(r.queue) <= multiset(h.queue) + multiset{c}
    ensures var r := Insert(h, c, Replaces(x));
      forall s :: s != c.support ==> Bucket(r, s) == Bucket(h, s)
  {
    assert c.support in h.patternIndex;
    var (h1, added) := AddPattern(h, c, Replaces(x));
    assert !added && Insert(h, c, Replaces(x)) == h1;
  }

  /**
   * A candidate unrelated to every member of its bucket is added to the
   * queue and to its bucket, which is created if it is missing; an eviction
   * this causes removes a pattern of smaller support, never from this bucket.
   */
  lemma InsertUnrelated(h: Heap, c: Pattern)
    requires Inv(h) && h.subPatternCheck && Admissible(h, c)
    requires ScanAllowed(Bucket(h, c.support), c, Unrelated)
    ensures var r := Insert(h, c, Unrelated);
      && Bucket(r, c.support) == Bucket(h, c.support) + {c}
      && c in r.queue
      && r.count == (if IsFull(h) then h.count else h.count + 1)
    ensures var r := Insert(h, c, Unrelated);
      !IsFull(h) ==> r.queue == h.queue + [c] && forall s :: s != c.support ==> Bucket(r, s) == Bucket(h, s)
  {
    var r := Insert(h, c, Unrelated);
    var (h1, added) := AddPattern(h, c, Unrelated);
    assert added;
    if IsFull(h) {
      assert r == Evict(h1);
      UnrelatedEviction(h, c, h1);
    } else {
      assert r == Grow(h1, c);
    }
  }

  lemma UnrelatedEviction(h: Heap, c: Pattern, h1: Heap)
    requires Inv(h) && h.subPatternCheck && IsFull(h) && c.support > h.least.value.support
    requires h1 == AddPattern(h, c, Unrelated).0 && AddPattern(h, c, Unrelated).1
    ensures Bucket(Evict(h1), c.support) == Bucket(h1, c.support)
    ensures c in Evict(h1).queue
  {
    AddPatternKeepsIndex(h, c, Unrelated);
    PollFacts(h1.queue);
    var e := h1.queue[MinIndex(h1.queue)];
    assert h1.queue == h.queue + [c];
    assert h.least.value in h1.queue;
    assert e.support < c.support;
  }

  // ---------------------------------------------------------------------
  // The threshold
  // ---------------------------------------------------------------------

  /** The threshold is the largest support in the queue. */
  ghost predicate LeastIsMax(h: Heap)
  {
    h.least.Some? ==> forall p :: p in h.queue ==> p.support <= h.least.value.support
  }

  /** The threshold is the smallest support in the queue. */
  ghost predicate LeastIsMin(h: Heap)
  {
    h.least.Some? ==> forall p :: p in h.queue ==> h.least.value.support <= p.support
  }

  /**
   * While the collector fills, least is replaced whenever the candidate
   * compares greater, so leastSupport is the largest admitted support, not
   * the smallest.
   */
  lemma FillingLeastIsMax(h: Heap, c: Pattern, scan: Scan)
    requires Inv(h) && !IsFull(h) && LeastIsMax(h)
    requires ScanAllowed(Bucket(h, c.support), c, scan)
    ensures var r := Insert(h, c, scan);
      && LeastIsMax(r)
      && (r.count > 0 ==> exists p :: p in r.queue && p.support == LeastSupport(r))
  {
    InsertKeepsInv(h, c, scan);
    var r := Insert(h, c, scan);
    if Length(c) > 0 {
      var (h1, added) := AddPattern(h, c, scan);
      if added {
        assert r == Grow(h1, c);
        assert h1.queue == h.queue + [c];
      } else {
        assert r == h1;
        if h1.queue != h.queue {
          assert h.subPatternCheck && c.support in h.patternIndex && scan.Replaces?;
          assert scan.replaced in h.queue;
          assert h1.queue == h.queue + [c];
        }
      }
    }
  }

  /**
   * Once an eviction has made least the minimum of the queue, it stays the
   * minimum and never decreases across later insertions.
   */
  lemma FullLeastNonDecreasing(h: Heap, c: Pattern, scan: Scan)
    requires Inv(h) && IsFull(h) && LeastIsMin(h)
    ensures var r := Insert(h, c, scan);
      && IsFull(r) && LeastIsMin(r) && LeastSupport(h) <= LeastSupport(r)
  {
    InsertKeepsInv(h, c, scan);
    var r := Insert(h, c, scan);
    if Length(c) > 0 && CompareTo(c, h.least.value) > 0 {
      var (h1, added) := AddPattern(h, c, scan);
      AddPatternKeepsIndex(h, c, scan);
      if added {
        EvictFacts(h1);
        assert r.least.value in h.queue + [c];
      } else {
        forall p | p in r.queue ensures h.least.value.support <= p.support {
          assert p in h.queue + [c];
        }
      }
    }
  }

  // ---------------------------------------------------------------------
  // addAll
  // ---------------------------------------------------------------------

  /** addAll never lowers the count and keeps it within the capacity. */
  lemma AddAllBounds(h: Heap, items: seq<Pattern>, attribute: int, attributeSupport: int, scans: seq<Scan>)
    requires Inv(h) && |scans| == |items|
    ensures var r := AddAll(h, items, attribute, attributeSupport, scans);
      h.count <= r.count <= h.maxSize
  {
  }

  /** Folding the pattern at `i` into addAll is one more Offer, with one more allowed scan. */
  lemma AddAllSnoc(h: Heap, items: seq<Pattern>, i: nat, attribute: int, attributeSupport: int,
                   scans: seq<Scan>, scan: Scan)
    requires Inv(h) && i < |items| && |scans| == i
    ensures var before := AddAll(h, items[..i], attribute, attributeSupport, scans);
      var c := Extended(items[i], attribute, attributeSupport);
      && AddAll(h, items[..i + 1], attribute, attributeSupport, scans + [scan])
         == Offer(before, items[i], attribute, attributeSupport, scan)
      && (ScansAllowed(h, items[..i + 1], attribute, attributeSupport, scans + [scan])
          <==> ScansAllowed(h, items[..i], attribute, attributeSupport, scans)
               && ScanAllowed(Bucket(before, c.support), c, scan))
  {
    assert items[..i + 1][..i] == items[..i];
    assert (scans + [scan])[..i] == scans;
  }

  /**
   * What one step of addAll does: the candidate extends the child pattern by
   * the attribute, with a support no larger than either input; a support
   * that is not addable leaves the state as it was; and the count grows only
   * while the collector is filling, by the candidate that insert admits.
   */
  lemma OfferFacts(h: Heap, p: Pattern, attribute: int, attributeSupport: int, scan: Scan)
    requires Inv(h)
    ensures var c := Extended(p, attribute, attributeSupport);
      && IsSubPatternOf(p, c) && attribute in c.items && Length(c) == Length(p) + 1
      && c.support <= attributeSupport && c.support <= p.support
      && (c.support == attributeSupport || c.support == p.support)
    ensures var c := Extended(p, attribute, attributeSupport);
      var r := Offer(h, p, attribute, attributeSupport, scan);
      && (!Addable(h, c.support) ==> r == h)
      && r.count <= h.count + 1
      && (r.count > h.count ==> !IsFull(h) && c in r.queue)
      && (IsFull(h) ==> IsFull(r))
  {
    var c := Extended(p, attribute, attributeSupport);
    if Addable(h, c.support) {
      InsertKeepsInv(h, c, scan);
      var r := Insert(h, c, scan);
      if r.count > h.count {
        var (h1, added) := AddPattern(h, c, scan);
        assert added && h1.queue == h.queue + [c];
      }
    }
  }
}
