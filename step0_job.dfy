/**
 * Partition first-id bookkeeping of the random-forest partial builder's
 * step 0: each mapper reports the first key and the number of records of its
 * partition, and the job turns those reports into the id of each
 * partition's first instance in file order, in Hadoop's partition order.
 *
 * Java's `int` and `long` are the subset types Int32 and Int64; the
 * `(int)` cast and `int` addition wrap around as ToInt32 says.
 */
module Step0Job {
  import opened Wrappers

  type Int32 = x: int | -0x8000_0000 <= x < 0x8000_0000
  type Int64 = x: int | -0x8000_0000_0000_0000 <= x < 0x8000_0000_0000_0000

  const INT32_MAX: int := 0x7fff_ffff

  /** Java's narrowing to `int`: the two's-complement value congruent to `x` modulo 2^32. */
  function ToInt32(x: int): (r: Int32)
    ensures (r - x) % 0x1_0000_0000 == 0
    ensures -0x8000_0000 <= x < 0x8000_0000 ==> r == x
  {
    var m := x % 0x1_0000_0000;
    if m < 0x8000_0000 then m else m - 0x1_0000_0000
  }

  /** A mapper's report: the first key it saw and the size of its partition. */
  datatype Step0Output = Step0Output(firstId: Int64, size: Int32)

  /** Three-way comparison of two reports by their first key alone. */
  function CompareTo(a: Step0Output, b: Step0Output): (r: int)
    ensures r == -1 || r == 0 || r == 1
    ensures r < 0 <==> a.firstId < b.firstId
    ensures r == 0 <==> a.firstId == b.firstId
  {
    if a.firstId < b.firstId then -1
    else if a.firstId > b.firstId then 1
    else 0
  }

  lemma CompareToAntisymmetric(a: Step0Output, b: Step0Output)
    ensures CompareTo(a, b) == -CompareTo(b, a)
  {
  }

  lemma CompareToIgnoresSize(a: Step0Output, b: Step0Output, s: Int32, t: Int32)
    ensures CompareTo(a.(size := s), b.(size := t)) == CompareTo(a, b)
  {
  }

  method ExtractFirstIds(partitions: array<Step0Output>) returns (ids: array<Int32>)
    ensures fresh(ids) && ids.Length == partitions.Length
    ensures forall p :: 0 <= p < partitions.Length ==> ids[p] == ToInt32(partitions[p].firstId)
  {
    ids := new Int32[partitions.Length];
    for p := 0 to partitions.Length
      invariant forall q :: 0 <= q < p ==> ids[q] == ToInt32(partitions[q].firstId)
    {
      ids[p] := ToInt32(partitions[p].firstId);
    }
  }

  method ExtractSizes(partitions: array<Step0Output>) returns (sizes: array<Int32>)
    ensures fresh(sizes) && sizes.Length == partitions.Length
    ensures forall p :: 0 <= p < partitions.Length ==> sizes[p] == partitions[p].size
  {
    sizes := new Int32[partitions.Length];
    for p := 0 to partitions.Length
      invariant forall q :: 0 <= q < p ==> sizes[q] == partitions[q].size
    {
      sizes[p] := partitions[p].size;
    }
  }

  // ---------------------------------------------------------------------
  // Permutations of 0..n-1
  // ---------------------------------------------------------------------

  /** `s` lists each of 0..n-1 exactly once. */
  predicate Permutation(s: seq<int>, n: nat)
  {
    && |s| == n
    && (forall k :: 0 <= k < n ==> 0 <= s[k] < n)
    && (forall k, l :: 0 <= k < l < n ==> s[k] != s[l])
  }

  function Elements(s: seq<int>): set<int>
  {
    set x | x in s
  }

  function Range(n: nat): (r: set<int>)
    ensures forall j :: j in r <==> 0 <= j < n
  {
    if n == 0 then {} else Range(n - 1) + {n - 1}
  }

  lemma {:induction false} ElementsCard(s: seq<int>)
    requires forall k, l :: 0 <= k < l < |s| ==> s[k] != s[l]
    ensures |Elements(s)| == |s|
  {
    if |s| > 0 {
      var m := |s| - 1;
      ElementsCard(s[..m]);
      assert Elements(s) == Elements(s[..m]) + {s[m]};
      assert s[m] !in Elements(s[..m]);
    }
  }

  lemma {:induction false} RangeCard(n: nat)
    ensures |Range(n)| == n
  {
    if n > 0 {
      RangeCard(n - 1);
    }
  }

  lemma SubsetCard(a: set<int>, b: set<int>)
    requires a <= b
    ensures |a| <= |b|
  {
    assert b == a + (b - a);
  }

  /** Pigeonhole: n distinct values below n are all of 0..n-1. */
  lemma PermutationCovers(s: seq<int>, n: nat)
    requires Permutation(s, n)
    ensures forall j :: 0 <= j < n ==> j in s
  {
    ElementsCard(s);
    RangeCard(n);
    assert Elements(s) <= Range(n);
    forall j | 0 <= j < n
      ensures j in s
    {
      if j !in s {
        assert Elements(s) <= Range(n) - {j};
        SubsetCard(Elements(s), Range(n) - {j});
      }
    }
  }

  // ---------------------------------------------------------------------
  // Sorting by first key
  // ---------------------------------------------------------------------

  /**
   * Report `a` comes before report `b` in the stable sort by compareTo:
   * smaller first key, or equal first key and earlier position.
   */
  predicate Before(vs: seq<Step0Output>, a: int, b: int)
  {
    && 0 <= a < |vs| && 0 <= b < |vs|
    && (CompareTo(vs[a], vs[b]) < 0 || (CompareTo(vs[a], vs[b]) == 0 && a < b))
  }

  /** `order` is the stable ascending order of the reports `vs`. */
  predicate SortedBy(vs: seq<Step0Output>, order: seq<int>)
  {
    forall k, l :: 0 <= k < l < |order| ==> Before(vs, order[k], order[l])
  }

  /** Two stable ascending orders that agree before position k agree at k. */
  lemma SortedOrdersAgreeAt(vs: seq<Step0Output>, o1: seq<int>, o2: seq<int>, k: nat)
    requires Permutation(o1, |vs|) && Permutation(o2, |vs|)
    requires SortedBy(vs, o1) && SortedBy(vs, o2)
    requires k < |vs| && forall i :: 0 <= i < k ==> o1[i] == o2[i]
    ensures o1[k] == o2[k]
  {
    PermutationCovers(o1, |vs|);
    PermutationCovers(o2, |vs|);
    var x, y := o1[k], o2[k];
    assert x in o2 && y in o1;
    var l :| 0 <= l < |vs| && o2[l] == x;
    var m :| 0 <= m < |vs| && o1[m] == y;
    assert forall i :: 0 <= i < k ==> o2[i] != x && o1[i] != y;
    if l != k && m != k {
      assert false;
    }
  }

  lemma {:induction false} SortedOrdersAgreeUpTo(vs: seq<Step0Output>, o1: seq<int>, o2: seq<int>, k: nat)
    requires Permutation(o1, |vs|) && Permutation(o2, |vs|)
    requires SortedBy(vs, o1) && SortedBy(vs, o2)
    requires k <= |vs|
    ensures forall i :: 0 <= i < k ==> o1[i] == o2[i]
  {
    if k > 0 {
      SortedOrdersAgreeUpTo(vs, o1, o2, k - 1);
      SortedOrdersAgreeAt(vs, o1, o2, k - 1);
    }
  }

  /** There is only one stable ascending order, so processOutput's outcome is determined. */
  lemma SortedOrderUnique(vs: seq<Step0Output>, o1: seq<int>, o2: seq<int>)
    requires Permutation(o1, |vs|) && Permutation(o2, |vs|)
    requires SortedBy(vs, o1) && SortedBy(vs, o2)
    ensures o1 == o2
  {
    SortedOrdersAgreeUpTo(vs, o1, o2, |vs|);
  }

  lemma SwapKeepsPermutation(s: seq<int>, j: nat, n: nat)
    requires Permutation(s, n) && 0 < j < n
    ensures Permutation(s[j - 1 := s[j]][j := s[j - 1]], n)
  {
  }

  /** One pass of insertion: moves a[i] left past every position it comes before. */
  method InsertAt(vs: seq<Step0Output>, a: array<int>, i: nat)
    requires i < a.Length == |vs|
    requires Permutation(a[..], |vs|)
    requires forall k, l :: 0 <= k < l < i ==> Before(vs, a[k], a[l])
    modifies a
    ensures Permutation(a[..], |vs|)
    ensures forall k, l :: 0 <= k < l <= i ==> Before(vs, a[k], a[l])
  {
    var j := i;
    while j > 0 && Before(vs, a[j], a[j - 1])
      invariant 0 <= j <= i
      invariant Permutation(a[..], |vs|)
      invariant forall k, l :: 0 <= k < l <= i && k != j && l != j ==> Before(vs, a[k], a[l])
      invariant forall l :: j < l <= i ==> Before(vs, a[j], a[l])
    {
      ghost var s := a[..];
      a[j - 1], a[j] := a[j], a[j - 1];
      assert a[..] == s[j - 1 := s[j]][j := s[j - 1]];
      SwapKeepsPermutation(s, j, |vs|);
      j := j - 1;
    }
  }

  /** Arrays.sort on the reports, applied to their positions: a stable insertion sort. */
  method SortPositions(vs: seq<Step0Output>) returns (a: array<int>)
    ensures fresh(a)
    ensures Permutation(a[..], |vs|)
    ensures SortedBy(vs, a[..])
  {
    a := new int[|vs|](k => k);
    for i := 0 to |vs|
      invariant a.Length == |vs|
      invariant Permutation(a[..], |vs|)
      invariant forall k, l :: 0 <= k < l < i ==> Before(vs, a[k], a[l])
    {
      InsertAt(vs, a, i);
    }
  }

  /** ArrayUtils.indexOf: the first position holding `x`, or -1. */
  method IndexOf(a: array<int>, x: int) returns (r: int)
    ensures -1 <= r < a.Length
    ensures r >= 0 ==> a[r] == x && forall k :: 0 <= k < r ==> a[k] != x
    ensures r == -1 <==> forall k :: 0 <= k < a.Length ==> a[k] != x
  {
    for k := 0 to a.Length
      invariant forall i :: 0 <= i < k ==> a[i] != x
    {
      if a[k] == x {
        return k;
      }
    }
    return -1;
  }

  // ---------------------------------------------------------------------
  // Scattering into Hadoop's order
  // ---------------------------------------------------------------------

  /** The entry at slot `j` after writing vals[p] to slot keys[p] for p in order. */
  function Scattered(keys: seq<int>, vals: seq<Step0Output>, j: int): Option<Step0Output>
    requires |keys| == |vals|
    decreases |keys|
  {
    if |keys| == 0 then None
    else if keys[|keys| - 1] == j then Some(vals[|vals| - 1])
    else Scattered(keys[..|keys| - 1], vals[..|vals| - 1], j)
  }

  /** A slot holds the value of the last write to it, and stays empty when nothing is written to it. */
  lemma {:induction false} ScatteredIsLastWrite(keys: seq<int>, vals: seq<Step0Output>, j: int)
    requires |keys| == |vals|
    ensures Scattered(keys, vals, j).None? <==> forall p :: 0 <= p < |keys| ==> keys[p] != j
    ensures forall p :: 0 <= p < |keys| && keys[p] == j && (forall q :: p < q < |keys| ==> keys[q] != j)
              ==> Scattered(keys, vals, j) == Some(vals[p])
  {
    if |keys| > 0 {
      var m := |keys| - 1;
      ScatteredIsLastWrite(keys[..m], vals[..m], j);
      if keys[m] != j {
        forall p | 0 <= p < m && keys[p] == j && (forall q :: p < q < |keys| ==> keys[q] != j)
          ensures Scattered(keys, vals, j) == Some(vals[p])
        {
          assert keys[..m][p] == j;
          assert forall q :: p < q < m ==> keys[..m][q] == keys[q];
        }
        assert forall p :: 0 <= p < m ==> keys[..m][p] == keys[p];
      }
    }
  }

  /** When the keys are a permutation of 0..n-1, every slot receives exactly its own value. */
  lemma ScatteredPermutation(keys: seq<int>, vals: seq<Step0Output>)
    requires |keys| == |vals| && Permutation(keys, |keys|)
    ensures forall p :: 0 <= p < |keys| ==> Scattered(keys, vals, keys[p]) == Some(vals[p])
    ensures forall j :: 0 <= j < |keys| ==> Scattered(keys, vals, j).Some?
  {
    forall p | 0 <= p < |keys|
      ensures Scattered(keys, vals, keys[p]) == Some(vals[p])
    {
      ScatteredIsLastWrite(keys, vals, keys[p]);
    }
    PermutationCovers(keys, |keys|);
    forall j | 0 <= j < |keys|
      ensures Scattered(keys, vals, j).Some?
    {
      assert j in keys;
      var p :| 0 <= p < |keys| && keys[p] == j;
      ScatteredIsLastWrite(keys, vals, j);
    }
  }

  // ---------------------------------------------------------------------
  // The first ids
  // ---------------------------------------------------------------------

  function Sum(s: seq<int>): int
  {
    if |s| == 0 then 0 else Sum(s[..|s| - 1]) + s[|s| - 1]
  }

  /** Without wrap-around, the first id at position k is the total size before k. */
  lemma {:induction false} FirstIdIsPrefixSum(ids: seq<int>, sizes: seq<int>, k: nat)
    requires |ids| == |sizes| > k
    requires ids[0] == 0
    requires forall k :: 0 < k < |ids| ==> ids[k] == ToInt32(ids[k - 1] + sizes[k - 1])
    requires forall k :: 0 <= k < |sizes| ==> sizes[k] >= 0
    requires Sum(sizes) <= INT32_MAX
    ensures ids[k] == Sum(sizes[..k])
  {
    if k > 0 {
      FirstIdIsPrefixSum(ids, sizes, k - 1);
      assert sizes[..k][..k - 1] == sizes[..k - 1];
      PrefixSumsGrow(sizes, 0, k);
      PrefixSumsGrow(sizes, k, |sizes|);
      assert sizes[..|sizes|] == sizes;
    }
  }

  /**
   * When the sizes are non-negative and their total fits an `int`, the
   * wrap-around chain of first ids never wraps: each first id is the total
   * size of the partitions before it, so the id ranges of the partitions,
   * in order, do not overlap.
   */
  lemma FirstIdsArePrefixSums(ids: seq<int>, sizes: seq<int>)
    requires |ids| == |sizes| > 0
    requires ids[0] == 0
    requires forall k :: 0 < k < |ids| ==> ids[k] == ToInt32(ids[k - 1] + sizes[k - 1])
    requires forall k :: 0 <= k < |sizes| ==> sizes[k] >= 0
    requires Sum(sizes) <= INT32_MAX
    ensures forall k :: 0 <= k < |ids| ==> ids[k] == Sum(sizes[..k])
    ensures forall k, l :: 0 <= k < l < |ids| ==> ids[k] + sizes[k] <= ids[l]
  {
    forall k | 0 <= k < |ids|
      ensures ids[k] == Sum(sizes[..k])
    {
      FirstIdIsPrefixSum(ids, sizes, k);
    }
    forall k, l | 0 <= k < l < |ids|
      ensures ids[k] + sizes[k] <= ids[l]
    {
      PrefixSumsGrow(sizes, k + 1, l);
      assert sizes[..k + 1][..k] == sizes[..k];
    }
  }

  lemma {:induction false} PrefixSumsGrow(s: seq<int>, i: nat, j: nat)
    requires i <= j <= |s|
    requires forall k :: 0 <= k < |s| ==> s[k] >= 0
    ensures Sum(s[..i]) <= Sum(s[..j])
  {
    if i < j {
      PrefixSumsGrow(s, i, j - 1);
      assert s[..j][..j - 1] == s[..j - 1];
    }
  }

  /** processOutput's prefix-sum loop: the `int` first id of each position in sorted order. */
  method OrderedIds(vs: seq<Step0Output>, sorted: array<int>) returns (orderedIds: array<Int32>)
    requires |vs| > 0 && Permutation(sorted[..], |vs|)
    ensures fresh(orderedIds) && orderedIds.Length == |vs|
    ensures orderedIds[0] == 0
    ensures forall k :: 0 < k < |vs| ==> orderedIds[k] == ToInt32(orderedIds[k - 1] + vs[sorted[k - 1]].size)
  {
    orderedIds := new Int32[|vs|];
    orderedIds[0] := 0;
    for p := 1 to |vs|
      invariant orderedIds[0] == 0
      invariant forall k :: 0 < k < p ==> orderedIds[k] == ToInt32(orderedIds[k - 1] + vs[sorted[k - 1]].size)
    {
      orderedIds[p] := ToInt32(orderedIds[p - 1] + vs[sorted[p - 1]].size);
    }
  }

  /** processOutput's update loop: each report takes the first id of its position in sorted order. */
  method UpdateFirstIds(values: array<Step0Output>, sorted: array<int>, orderedIds: array<Int32>)
    requires Permutation(sorted[..], values.Length) && orderedIds.Length == values.Length
    modifies values
    ensures forall p :: 0 <= p < values.Length ==> values[p] == old(values[p]).(firstId := values[p].firstId)
    ensures forall k :: 0 <= k < values.Length ==> values[sorted[k]].firstId == orderedIds[k]
  {
    PermutationCovers(sorted[..], values.Length);
    for p := 0 to values.Length
      invariant forall q :: 0 <= q < values.Length ==> values[q] == old(values[q]).(firstId := values[q].firstId)
      invariant forall k :: 0 <= k < values.Length && sorted[k] < p ==> values[sorted[k]].firstId == orderedIds[k]
    {
      var order := IndexOf(sorted, p);
      assert p in sorted[..];
      values[p] := values[p].(firstId := orderedIds[order]);
    }
  }

  /**
   * The keys processOutput's last loop can use without an exception: one
   * key per report, each naming a slot of an array of `n` slots.
   */
  predicate KeysFit(keys: seq<int>, n: nat)
  {
    |keys| >= n && forall p :: 0 <= p < n ==> 0 <= keys[p] < n
  }

  /**
   * processOutput's last loop: writes each report to the slot named by its
   * key. `ok` is false exactly when Java's `keys.get(p)` or the array store
   * throws for some report, which discards the partly written array.
   */
  method Scatter(keys: seq<int>, values: array<Step0Output>) returns (ok: bool, reordered: array<Option<Step0Output>>)
    ensures fresh(reordered) && reordered.Length == values.Length
    ensures ok <==> KeysFit(keys, values.Length)
    ensures ok ==> forall j :: 0 <= j < values.Length ==> reordered[j] == Scattered(keys[..values.Length], values[..], j)
  {
    var numMaps := values.Length;
    reordered := new Option<Step0Output>[numMaps](_ => None);
    for p := 0 to numMaps
      invariant p <= |keys|
      invariant forall q :: 0 <= q < p ==> 0 <= keys[q] < numMaps
      invariant forall j :: 0 <= j < numMaps ==> reordered[j] == Scattered(keys[..p], values[..p], j)
    {
      if p >= |keys| || keys[p] < 0 || keys[p] >= numMaps {
        return false, reordered;
      }
      assert keys[..p + 1][..p] == keys[..p];
      assert values[..p + 1][..p] == values[..p];
      reordered[keys[p]] := Some(values[p]);
    }
    assert values[..numMaps] == values[..];
    ok := true;
  }

  /**
   * processOutput: gives every report, as its new first id, the total size
   * of the reports before it in ascending first-key order (wrapping as an
   * `int`), keeps every size, and returns the reports placed at their
   * partition keys. `order` is the ascending order that Arrays.sort finds.
   * The result is None where Java throws: for no reports at all (the store
   * `orderedIds[0]`, before anything changes) and for keys that do not fit
   * (in the last loop, after the first ids have been rewritten).
   */
  method ProcessOutput(keys: seq<int>, values: array<Step0Output>)
    returns (reordered: Option<array<Option<Step0Output>>>, ghost order: seq<int>)
    modifies values
    ensures reordered.Some? <==> values.Length > 0 && KeysFit(keys, values.Length)
    ensures reordered.Some? ==> fresh(reordered.value) && reordered.value.Length == values.Length
    ensures Permutation(order, values.Length) && SortedBy(old(values[..]), order)
    ensures forall p :: 0 <= p < values.Length ==> values[p].size == old(values[p].size)
    ensures values.Length > 0 ==> values[order[0]].firstId == 0
    ensures forall k :: 0 < k < values.Length ==>
              values[order[k]].firstId == ToInt32(values[order[k - 1]].firstId + values[order[k - 1]].size)
    ensures reordered.Some? ==>
              forall j :: 0 <= j < values.Length ==> reordered.value[j] == Scattered(keys[..values.Length], values[..], j)
  {
    if values.Length == 0 {
      return None, [];
    }
    ghost var vs := values[..];
    var sorted := SortPositions(values[..]);
    order := sorted[..];
    var orderedIds := OrderedIds(values[..], sorted);
    UpdateFirstIds(values, sorted, orderedIds);
    assert forall p :: 0 <= p < values.Length ==> values[p].size == vs[p].size;
    var ok, r := Scatter(keys, values);
    reordered := if ok then Some(r) else None;
  }

  // ---------------------------------------------------------------------
  // The mapper
  // ---------------------------------------------------------------------

  /** The mapper's counting state as a value. */
  datatype MapperState = MapperState(partition: Int32, size: Int32, firstId: Option<Int64>)

  /** map on one record: remember the first key seen, count the record. */
  function MapStep(s: MapperState, key: Int64): (r: MapperState)
    ensures r.partition == s.partition && r.firstId.Some?
    ensures s.firstId.None? ==> r.firstId == Some(key)
    ensures s.firstId.Some? ==> r.firstId == s.firstId
    ensures (r.size - s.size - 1) % 0x1_0000_0000 == 0
  {
    s.(firstId := if s.firstId.None? then Some(key) else s.firstId,
       size := ToInt32(s.size + 1))
  }

  /** The state after map has seen `keys` in order. */
  function MapAll(s: MapperState, keys: seq<Int64>): (r: MapperState)
    ensures r.partition == s.partition
    ensures |keys| > 0 ==> r.firstId.Some?
    ensures s.firstId.Some? || |keys| == 0 ==> r.firstId == s.firstId
    decreases |keys|
  {
    if |keys| == 0 then s else MapStep(MapAll(s, keys[..|keys| - 1]), keys[|keys| - 1])
  }

  /**
   * A mapper that starts without a first key records the first key it is
   * given and counts every record (modulo 2^32, as an `int`).
   */
  lemma {:induction false} MapAllCounts(s: MapperState, keys: seq<Int64>)
    requires s.firstId.None?
    ensures MapAll(s, keys).partition == s.partition
    ensures MapAll(s, keys).size == ToInt32(s.size + |keys|)
    ensures MapAll(s, keys).firstId == if |keys| == 0 then None else Some(keys[0])
  {
    if |keys| > 0 {
      var m := |keys| - 1;
      MapAllCounts(s, keys[..m]);
      ToInt32Step(s.size + m);
      if m > 0 {
        assert keys[..m][0] == keys[0];
      }
    }
  }

  lemma ToInt32Step(x: int)
    ensures ToInt32(ToInt32(x) + 1) == ToInt32(x + 1)
  {
  }

  class Step0Mapper {
    var partition: Int32
    var size: Int32
    var firstId: Option<Int64>

    function State(): MapperState
      reads this
    {
      MapperState(partition, size, firstId)
    }

    constructor ()
      ensures State() == MapperState(0, 0, None)
    {
      partition := 0;
      size := 0;
      firstId := None;
    }

    /** Sets the partition id; `ok` is false where the source throws for a negative id. */
    method Configure(p: Int32) returns (ok: bool)
      modifies this
      ensures ok <==> p >= 0
      ensures State() == old(State()).(partition := p)
    {
      partition := p;
      ok := partition >= 0;
    }

    method Map(key: Int64)
      modifies this
      ensures State() == MapStep(old(State()), key)
    {
      if firstId.None? {
        firstId := Some(key);
      }
      size := ToInt32(size + 1);
    }
  }
}
