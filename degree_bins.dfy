/**
 * Degree binning of the full network (networkCreation.py:45-89):
 * `makeFixedBins` cuts the degree range into bins of equal width,
 * `makeQuantileBins` cuts the degree-sorted node list into bins of equal
 * count.
 */
module DegreeBins {
  import opened Common
  import opened Sorting

  // ---------------------------------------------------------------------
  // Python arithmetic
  // ---------------------------------------------------------------------

  function Abs(x: int): nat {
    if x < 0 then -x else x
  }

  /** Python's `round(p / q)` for integers, `q != 0`. */
  function RoundHalfEven(p: int, q: int): (r: int)
    requires q != 0
    ensures p >= 0 && q > 0 ==> r >= 0
    ensures p >= 0 && q < 0 ==> r <= 0
  {
    if q < 0 then RoundPositive(-p, -q) else RoundPositive(p, q)
  }

  /**
   * `round` gives the integer nearest to p/q, a tie going to the even
   * neighbour.
   */
  lemma RoundIsNearest(p: int, q: int)
    requires q != 0
    ensures var r := RoundHalfEven(p, q);
            && 2 * Abs(r * q - p) <= Abs(q)
            && (2 * Abs(r * q - p) == Abs(q) ==> r % 2 == 0)
  {
    var r := RoundHalfEven(p, q);
    if q < 0 {
      RoundPositiveIsNearest(-p, -q);
      NegateProduct(r, q, p);
    } else {
      RoundPositiveIsNearest(p, q);
    }
  }

  lemma NegateProduct(r: int, q: int, p: int)
    ensures r * q - p == -(r * -q - -p)
  {
  }

  function RoundPositive(p: int, q: int): (r: int)
    requires q > 0
    ensures p >= 0 ==> r >= 0
  {
    var fl, rem := p / q, p % q;
    DivModParts(p, q);
    if 2 * rem < q then fl
    else if 2 * rem > q || fl % 2 != 0 then fl + 1
    else fl
  }

  lemma RoundPositiveIsNearest(p: int, q: int)
    requires q > 0
    ensures var r := RoundPositive(p, q);
            && 2 * Abs(r * q - p) <= q
            && (2 * Abs(r * q - p) == q ==> r % 2 == 0)
  {
    var fl, rem := p / q, p % q;
    DivModParts(p, q);
    NextMultiple(fl, q, p, rem);
  }

  lemma DivModParts(p: int, q: int)
    requires q > 0
    ensures p / q * q - p == -(p % q) && 0 <= p % q < q
    ensures p >= 0 ==> p / q >= 0
  {
  }

  lemma NextMultiple(fl: int, q: int, p: int, rem: int)
    requires fl * q - p == -rem
    ensures (fl + 1) * q - p == q - rem
  {
  }

  /** `math.floor(a / b)`. */
  function FloorDiv(a: int, b: int): int
    requires b != 0
  {
    if b > 0 then a / b else (-a) / (-b)
  }

  /** `FloorDiv(a, b)` is the largest integer not above a/b. */
  lemma FloorDivBounds(a: int, b: int)
    requires b != 0
    ensures b > 0 ==> b * FloorDiv(a, b) <= a < b * FloorDiv(a, b) + b
    ensures b < 0 ==> b * FloorDiv(a, b) >= a > b * FloorDiv(a, b) + b
  {
    if b > 0 {
      DivModParts(a, b);
    } else {
      DivModParts(-a, -b);
      NegateProduct(FloorDiv(a, b), b, a);
    }
  }

  /** Bins `0 .. n-1` hold every value `0 <= a < n * b` at `a / b`. */
  lemma DivBelow(a: nat, b: nat, n: nat)
    requires b > 0
    ensures a / b < n <==> a < n * b
  {
    if a / b < n {
      assert a / b + 1 <= n;
      assert (a / b + 1) * b <= n * b;
    } else {
      assert n * b <= (a / b) * b;
    }
  }

  lemma DivMono(a: nat, c: nat, b: nat)
    requires a <= c && b > 0
    ensures a / b <= c / b
  {
    DivModParts(a, b);
    DivModParts(c, b);
    NextMultiple(c / b, b, c, c % b);
    MulMono(c / b + 1, a / b, b);
  }

  lemma MulMono(x: int, y: int, b: nat)
    ensures x <= y ==> x * b <= y * b
  {
  }

  // ---------------------------------------------------------------------
  // Buckets: the elements of a sequence that fall into one slot
  // ---------------------------------------------------------------------

  /** The elements `x` of `s` with `slot(x) == i`, in their order in `s`. */
  function Bucket<T>(s: seq<T>, slot: T -> int, i: int): seq<T> {
    if s == [] then []
    else Bucket(s[..|s| - 1], slot, i) + (if slot(s[|s| - 1]) == i then [s[|s| - 1]] else [])
  }

  function Buckets<T>(s: seq<T>, slot: T -> int, n: nat): seq<seq<T>> {
    seq(n, i => Bucket(s, slot, i))
  }

  lemma BucketSnoc<T>(s: seq<T>, x: T, slot: T -> int, i: int)
    ensures Bucket(s + [x], slot, i) == Bucket(s, slot, i) + (if slot(x) == i then [x] else [])
  {
    assert (s + [x])[..|s|] == s;
  }

  /** `x` is in bucket `i` exactly when it is in `s` and its slot is `i`. */
  lemma {:induction false} BucketMember<T>(s: seq<T>, slot: T -> int, i: int, x: T)
    ensures x in Bucket(s, slot, i) <==> x in s && slot(x) == i
  {
    if s != [] {
      var init := s[..|s| - 1];
      BucketMember(init, slot, i, x);
      assert s == init + [s[|s| - 1]];
    }
  }

  lemma {:induction false} BucketEmpty<T>(s: seq<T>, slot: T -> int, i: int)
    requires forall k | 0 <= k < |s| :: slot(s[k]) != i
    ensures Bucket(s, slot, i) == []
  {
    if s != [] {
      BucketEmpty(s[..|s| - 1], slot, i);
    }
  }

  /** A bucket of a sorted sequence is sorted. */
  lemma {:induction false} BucketSorted<T>(s: seq<T>, slot: T -> int, key: T -> real, i: int)
    requires SortedBy(s, key)
    ensures SortedBy(Bucket(s, slot, i), key)
  {
    if s != [] {
      var init, last := s[..|s| - 1], s[|s| - 1];
      SortedSlice(s, key, 0, |s| - 1);
      BucketSorted(init, slot, key, i);
      var b := Bucket(init, slot, i);
      if slot(last) == i {
        forall y | y in b ensures key(y) <= key(last) {
          BucketMember(init, slot, i, y);
          var k :| 0 <= k < |init| && init[k] == y;
          assert s[k] == y;
        }
      }
    }
  }

  /** Appending to slot `q` appends to the concatenation when the later slots are empty. */
  lemma {:induction false} ConcatAppendAt<T>(ss: seq<seq<T>>, q: nat, x: T)
    requires q < |ss|
    requires forall j | q < j < |ss| :: ss[j] == []
    ensures Concat(ss[q := ss[q] + [x]]) == Concat(ss) + [x]
  {
    var ss' := ss[q := ss[q] + [x]];
    var n := |ss| - 1;
    if q == n {
      assert ss'[..n] == ss[..n];
    } else {
      ConcatAppendAt(ss[..n], q, x);
      assert ss'[..n] == ss[..n][q := ss[q] + [x]];
      assert ss'[n] == [] && ss[n] == [];
    }
  }

  /**
   * When the slots are in range and never decrease along `s`, the buckets
   * laid end to end give back `s`.
   */
  lemma {:induction false} BucketsConcat<T>(s: seq<T>, slot: T -> int, n: nat)
    requires forall k | 0 <= k < |s| :: 0 <= slot(s[k]) < n
    requires forall k, m | 0 <= k < m < |s| :: slot(s[k]) <= slot(s[m])
    ensures Concat(Buckets(s, slot, n)) == s
  {
    if s == [] {
      assert Concat(Buckets(s, slot, n)) == [] by {
        ConcatEmpty(Buckets(s, slot, n));
      }
    } else {
      var init, x := s[..|s| - 1], s[|s| - 1];
      assert s == init + [x];
      BucketsConcat(init, slot, n);
      var q := slot(x);
      var old' := Buckets(init, slot, n);
      forall j | q < j < n ensures old'[j] == [] {
        BucketEmpty(init, slot, j);
      }
      forall i | 0 <= i < n ensures Buckets(s, slot, n)[i] == old'[q := old'[q] + [x]][i] {
        BucketSnoc(init, x, slot, i);
      }
      assert Buckets(s, slot, n) == old'[q := old'[q] + [x]];
      ConcatAppendAt(old', q, x);
    }
  }

  lemma {:induction false} ConcatEmpty<T>(ss: seq<seq<T>>)
    requires forall j | 0 <= j < |ss| :: ss[j] == []
    ensures Concat(ss) == []
  {
    if ss != [] {
      ConcatEmpty(ss[..|ss| - 1]);
    }
  }

  // ---------------------------------------------------------------------
  // makeFixedBins (lines 45-66)
  // ---------------------------------------------------------------------

  /** `sorted(fullNetwork, key=lambda k: len(fullNetwork[k]))` (line 52). */
  function ByDegree<W>(full: Net<W>): (r: seq<Gene>)
    ensures SortedBy(r, DegreeKey(full))
    ensures multiset(r) == multiset(full.nodes) && |r| == |full.nodes|
  {
    SortByProps(full.nodes, DegreeKey(full));
    SortBy(full.nodes, DegreeKey(full))
  }

  /** The bin of a node of the given degree (line 63). */
  function FixedSlot<W>(full: Net<W>, binSize: int): Gene -> int
    requires binSize > 0
  {
    g => Degree(full, g) / binSize
  }

  lemma FixedSlotAt<W>(full: Net<W>, binSize: int, g: Gene)
    requires binSize > 0
    ensures FixedSlot(full, binSize)(g) == Degree(full, g) / binSize
  {
  }

  /** `round(maxEdges / numBins)` (line 54); the network must not be empty. */
  function FixedBinSize<W>(full: Net<W>, numBins: int): int
    requires full.nodes != [] && numBins != 0
  {
    var s := ByDegree(full);
    RoundHalfEven(Degree(full, s[|s| - 1]), numBins)
  }

  /**
   * What `makeFixedBins` returns:
   * IndexError for an empty network (`networkSorted[-1]`),
   * ZeroDivisionError for `numBins == 0` or a bin width that rounds to 0,
   * IndexError when the bins list is empty (`numBins < 0`) or the largest
   * degree falls past the last bin; otherwise bin `i` holds the nodes of
   * degree `d` with `d // binSize == i`, in degree order.
   */
  function FixedBinsOf<W>(full: Net<W>, numBins: int): Result<seq<seq<Gene>>> {
    var s := ByDegree(full);
    if s == [] then Err(IndexError)
    else if numBins == 0 then Err(ZeroDivisionError)
    else
      var b := FixedBinSize(full, numBins);
      if b == 0 then Err(ZeroDivisionError)
      else if numBins < 0 || Degree(full, s[|s| - 1]) / b >= numBins then Err(IndexError)
      else Ok(Buckets(s, FixedSlot(full, b), numBins))
  }

  lemma BucketsPrefix<T>(s: seq<T>, slot: T -> int, i: int, k: nat)
    requires k < |s|
    ensures Bucket(s[..k + 1], slot, i) == Bucket(s[..k], slot, i) + (if slot(s[k]) == i then [s[k]] else [])
  {
    PrefixSnoc(s, k);
    BucketSnoc(s[..k], s[k], slot, i);
  }

  lemma MaxDegree<W>(full: Net<W>, g: Gene)
    requires g in ByDegree(full)
    ensures Degree(full, g) <= Degree(full, ByDegree(full)[|ByDegree(full)| - 1])
  {
    LastIsMax(ByDegree(full), DegreeKey(full), g);
  }

  method MakeFixedBins<W>(full: Net<W>, numBins: int) returns (r: Result<seq<seq<Gene>>>)
    ensures r == FixedBinsOf(full, numBins)
  {
    var sorted := ByDegree(full);
    if |sorted| == 0 {
      return Err(IndexError);
    }
    var maxEdges := Degree(full, sorted[|sorted| - 1]);
    if numBins == 0 {
      return Err(ZeroDivisionError);
    }
    var binSize := RoundHalfEven(maxEdges, numBins);
    var count := if numBins > 0 then numBins else 0;
    var bins: seq<seq<Gene>> := [];
    for i := 0 to count
      invariant |bins| == i && forall j | 0 <= j < i :: bins[j] == []
    {
      bins := bins + [[]];
    }
    r := PlaceNodes(full, numBins, binSize, bins);
  }

  /** The placement loop of `makeFixedBins` (lines 61-64), from the empty bins on. */
  method PlaceNodes<W>(full: Net<W>, numBins: int, binSize: int, bins0: seq<seq<Gene>>)
    returns (r: Result<seq<seq<Gene>>>)
    requires ByDegree(full) != [] && numBins != 0 && binSize == FixedBinSize(full, numBins)
    requires |bins0| == (if numBins > 0 then numBins else 0)
    requires forall j | 0 <= j < |bins0| :: bins0[j] == []
    ensures r == FixedBinsOf(full, numBins)
  {
    var sorted := ByDegree(full);
    var maxEdges := Degree(full, sorted[|sorted| - 1]);
    var bins := bins0;
    assert sorted[..0] == [];
    for k := 0 to |sorted|
      invariant |bins| == |bins0|
      invariant k > 0 ==> binSize > 0 && numBins > 0 && Degree(full, sorted[k - 1]) / binSize < numBins
      invariant binSize > 0 ==> forall i | 0 <= i < |bins| :: bins[i] == Bucket(sorted[..k], FixedSlot(full, binSize), i)
    {
      var node := sorted[k];
      var nodeDensity := Degree(full, node);
      if binSize == 0 {
        return Err(ZeroDivisionError);
      }
      var nodeBin := FloorDiv(nodeDensity, binSize);
      if !(-|bins| <= nodeBin < |bins|) {
        FixedBinsPastEnd(full, numBins, k);
        return Err(IndexError);
      }
      var at := if nodeBin < 0 then |bins| + nodeBin else nodeBin;
      FixedBinsStep(full, numBins, bins, k, at);
      PrefixSnoc(sorted, k);
      bins := bins[at := bins[at] + [node]];
    }
    assert sorted[..|sorted|] == sorted;
    assert bins == Buckets(sorted, FixedSlot(full, binSize), numBins);
    return Ok(bins);
  }

  /** A node whose bin index is out of range makes `makeFixedBins` fail with IndexError. */
  lemma FixedBinsPastEnd<W>(full: Net<W>, numBins: int, k: nat)
    requires k < |ByDegree(full)| && numBins != 0 && FixedBinSize(full, numBins) != 0
    requires var count := if numBins > 0 then numBins else 0;
             var nodeBin := FloorDiv(Degree(full, ByDegree(full)[k]), FixedBinSize(full, numBins));
             !(-count <= nodeBin < count)
    ensures FixedBinsOf(full, numBins) == Err(IndexError)
  {
    var s, b := ByDegree(full), FixedBinSize(full, numBins);
    if numBins > 0 {
      var d := Degree(full, s[k]);
      DivModParts(d, b);
      MaxDegree(full, s[k]);
      DivMono(d, Degree(full, s[|s| - 1]), b);
    }
  }

  /** Appending node `k` to its in-range bin keeps the bins equal to the buckets of the prefix. */
  lemma FixedBinsStep<W>(full: Net<W>, numBins: int, bins: seq<seq<Gene>>, k: nat, at: int)
    requires k < |ByDegree(full)| && numBins != 0 && FixedBinSize(full, numBins) != 0
    requires |bins| == if numBins > 0 then numBins else 0
    requires var nodeBin := FloorDiv(Degree(full, ByDegree(full)[k]), FixedBinSize(full, numBins));
             -|bins| <= nodeBin < |bins| && at == (if nodeBin < 0 then |bins| + nodeBin else nodeBin)
    requires FixedBinSize(full, numBins) > 0 ==>
      forall i | 0 <= i < |bins| :: bins[i] == Bucket(ByDegree(full)[..k], FixedSlot(full, FixedBinSize(full, numBins)), i)
    ensures numBins > 0 && FixedBinSize(full, numBins) > 0
    ensures Degree(full, ByDegree(full)[k]) / FixedBinSize(full, numBins) < numBins
    ensures 0 <= at < |bins|
    ensures forall i | 0 <= i < |bins| ::
      bins[at := bins[at] + [ByDegree(full)[k]]][i] ==
      Bucket(ByDegree(full)[..k] + [ByDegree(full)[k]], FixedSlot(full, FixedBinSize(full, numBins)), i)
  {
    var s, b := ByDegree(full), FixedBinSize(full, numBins);
    var d := Degree(full, s[k]);
    assert numBins > 0 && b > 0 by {
      assert b == RoundHalfEven(Degree(full, s[|s| - 1]), numBins);
    }
    DivModParts(d, b);
    FixedSlotAt(full, b, s[k]);
    BucketsStep(s[..k], s[k], FixedSlot(full, b), bins, at);
  }

  /** Placing the next element in its slot extends the buckets of the prefix. */
  lemma BucketsStep<T>(s: seq<T>, x: T, slot: T -> int, bins: seq<seq<T>>, at: nat)
    requires at < |bins| && at == slot(x)
    requires forall i | 0 <= i < |bins| :: bins[i] == Bucket(s, slot, i)
    ensures forall i | 0 <= i < |bins| :: bins[at := bins[at] + [x]][i] == Bucket(s + [x], slot, i)
  {
    forall i | 0 <= i < |bins| {
      BucketSnoc(s, x, slot, i);
    }
  }

  /**
   * `makeFixedBins` succeeds exactly when the network has a node, there is
   * a positive number of bins, the rounded width is positive and the
   * largest degree is below `numBins * binSize`.
   */
  lemma FixedBinsOk<W>(full: Net<W>, numBins: int)
    ensures FixedBinsOf(full, numBins).Ok? <==>
      full.nodes != [] && numBins > 0 && FixedBinSize(full, numBins) > 0 &&
      Degree(full, ByDegree(full)[|ByDegree(full)| - 1]) < numBins * FixedBinSize(full, numBins)
  {
    if full.nodes != [] && numBins > 0 {
      var s := ByDegree(full);
      var b := FixedBinSize(full, numBins);
      if b > 0 {
        DivBelow(Degree(full, s[|s| - 1]), b, numBins);
      }
    }
  }

  /** The success case of `makeFixedBins`, spelled out. */
  lemma FixedBinsValue<W>(full: Net<W>, numBins: int)
    requires FixedBinsOf(full, numBins).Ok?
    ensures ByDegree(full) != [] && numBins > 0 && FixedBinSize(full, numBins) > 0
    ensures var s := ByDegree(full);
            Degree(full, s[|s| - 1]) / FixedBinSize(full, numBins) < numBins
    ensures FixedBinsOf(full, numBins).value == Buckets(ByDegree(full), FixedSlot(full, FixedBinSize(full, numBins)), numBins)
  {
  }

  /**
   * On success there are `numBins` bins and each node of the network is in
   * exactly the bin `degree // binSize`; nothing else is in any bin.
   */
  lemma FixedBinsPlacement<W>(full: Net<W>, numBins: int, g: Gene)
    requires FixedBinsOf(full, numBins).Ok?
    ensures var bins := FixedBinsOf(full, numBins).value;
            var b := FixedBinSize(full, numBins);
            && |bins| == numBins && b > 0
            && (forall i | 0 <= i < numBins :: g in bins[i] <==> g in full.nodes && i == Degree(full, g) / b)
  {
    FixedBinsValue(full, numBins);
    var s := ByDegree(full);
    var b := FixedBinSize(full, numBins);
    assert g in s <==> g in full.nodes by {
      assert g in s <==> g in multiset(s);
    }
    forall i | 0 <= i < numBins
      ensures g in Bucket(s, FixedSlot(full, b), i) <==> g in full.nodes && i == Degree(full, g) / b
    {
      BucketMember(s, FixedSlot(full, b), i, g);
      FixedSlotAt(full, b, g);
    }
  }

  /** On success every bin is in non-decreasing degree order. */
  lemma FixedBinsSorted<W>(full: Net<W>, numBins: int, i: nat)
    requires FixedBinsOf(full, numBins).Ok? && i < |FixedBinsOf(full, numBins).value|
    ensures SortedBy(FixedBinsOf(full, numBins).value[i], DegreeKey(full))
  {
    FixedBinsValue(full, numBins);
    BucketSorted(ByDegree(full), FixedSlot(full, FixedBinSize(full, numBins)), DegreeKey(full), i);
  }

  /**
   * On success the bins laid end to end are the degree-sorted node list,
   * so every node of the network is in exactly one bin, once.
   */
  lemma FixedBinsConcat<W>(full: Net<W>, numBins: int)
    requires FixedBinsOf(full, numBins).Ok?
    ensures Concat(FixedBinsOf(full, numBins).value) == ByDegree(full)
    ensures multiset(Concat(FixedBinsOf(full, numBins).value)) == multiset(full.nodes)
  {
    FixedBinsValue(full, numBins);
    var b := FixedBinSize(full, numBins);
    FixedSlotsInRange(full, b, numBins);
    FixedSlotsOrdered(full, b);
    BucketsConcat(ByDegree(full), FixedSlot(full, b), numBins);
  }

  lemma FixedSlotsInRange<W>(full: Net<W>, b: int, numBins: int)
    requires ByDegree(full) != [] && b > 0
    requires Degree(full, ByDegree(full)[|ByDegree(full)| - 1]) / b < numBins
    ensures var s := ByDegree(full);
            forall k | 0 <= k < |s| :: 0 <= FixedSlot(full, b)(s[k]) < numBins
  {
    var s := ByDegree(full);
    forall k | 0 <= k < |s| ensures 0 <= FixedSlot(full, b)(s[k]) < numBins {
      MaxDegree(full, s[k]);
      DivMono(Degree(full, s[k]), Degree(full, s[|s| - 1]), b);
      DivModParts(Degree(full, s[k]), b);
      FixedSlotAt(full, b, s[k]);
    }
  }

  lemma FixedSlotsOrdered<W>(full: Net<W>, b: int)
    requires b > 0
    ensures var s := ByDegree(full);
            forall k, m | 0 <= k < m < |s| :: FixedSlot(full, b)(s[k]) <= FixedSlot(full, b)(s[m])
  {
    var s := ByDegree(full);
    forall k, m | 0 <= k < m < |s| ensures FixedSlot(full, b)(s[k]) <= FixedSlot(full, b)(s[m]) {
      assert DegreeKey(full)(s[k]) <= DegreeKey(full)(s[m]);
      DivMono(Degree(full, s[k]), Degree(full, s[m]), b);
      FixedSlotAt(full, b, s[k]);
      FixedSlotAt(full, b, s[m]);
    }
  }

  /**
   * The bins agree with the source whenever it succeeds, and exactly the
   * inputs whose rounded width does not exceed maxDegree / numBins fail:
   * the node of highest degree then lands at index `numBins` or later.
   */
  lemma FixedBinsRoundDownFails<W>(full: Net<W>, numBins: int)
    requires full.nodes != [] && numBins > 0
    requires var s := ByDegree(full);
             FixedBinSize(full, numBins) * numBins <= Degree(full, s[|s| - 1])
    ensures FixedBinsOf(full, numBins).Err?
  {
    FixedBinsOk(full, numBins);
    MulCommutes(FixedBinSize(full, numBins), numBins);
  }

  lemma MulCommutes(x: int, y: int)
    ensures x * y == y * x
  {
  }

  /** A hub `a` joined to `b` and `c`. */
  function Star(): Net<int> {
    Net(["a", "b", "c"], map["a" := map["b" := 1, "c" := 1], "b" := map["a" := 1], "c" := map["a" := 1]])
  }

  /**
   * Two fixed bins over a network of largest degree 2: the width is
   * round(2 / 2) = 1 and a node of degree 2 is sent to the bin at index 2
   * of a two-bin list.
   */
  lemma TwoBinsOfDegreeTwo<W>(full: Net<W>, hub: Gene)
    requires hub in full.nodes && Degree(full, hub) == 2
    requires forall k | 0 <= k < |full.nodes| :: Degree(full, full.nodes[k]) <= 2
    ensures FixedBinsOf(full, 2) == Err(IndexError)
  {
    var s := ByDegree(full);
    assert hub in multiset(s);
    MaxDegree(full, hub);
    var last := s[|s| - 1];
    assert last in multiset(full.nodes);
    var k :| 0 <= k < |full.nodes| && full.nodes[k] == last;
    assert Degree(full, last) == 2;
    assert FixedBinSize(full, 2) == RoundHalfEven(2, 2) == 1;
  }

  /** The star is such a network: `makeFixedBins(star, 2)` raises IndexError. */
  lemma StarInTwoFixedBins()
    ensures FixedBinsOf(Star(), 2) == Err(IndexError)
  {
    var full := Star();
    assert full.adj["a"].Keys == {"b", "c"};
    TwoBinsOfDegreeTwo(full, "a");
  }

  // ---------------------------------------------------------------------
  // makeFixedBins with every node placed
  // ---------------------------------------------------------------------

  /** The bin of a node when the index is capped at the last bin. */
  function ClampedSlot<W>(full: Net<W>, width: int, numBins: int): Gene -> int
    requires width > 0
  {
    g => if Degree(full, g) / width < numBins then Degree(full, g) / width else numBins - 1
  }

  /** A positive bin width: `round(maxEdges / numBins)`, and 1 when that rounds to 0. */
  function ClampedWidth<W>(full: Net<W>, numBins: int): (w: int)
    requires numBins > 0
    ensures w > 0
  {
    var s := ByDegree(full);
    var b := if s == [] then 0 else RoundHalfEven(Degree(full, s[|s| - 1]), numBins);
    if b > 0 then b else 1
  }

  /**
   * `makeFixedBins` as its comments describe it: `numBins` bins of equal
   * degree width, the last bin also taking every degree above its range.
   */
  function ClampedBinsOf<W>(full: Net<W>, numBins: int): seq<seq<Gene>>
    requires numBins > 0
  {
    Buckets(ByDegree(full), ClampedSlot(full, ClampedWidth(full, numBins), numBins), numBins)
  }

  lemma ClampedSlotAt<W>(full: Net<W>, width: int, numBins: int, g: Gene)
    requires width > 0 && numBins > 0
    ensures var q := Degree(full, g) / width;
            ClampedSlot(full, width, numBins)(g) == if q < numBins then q else numBins - 1
    ensures 0 <= ClampedSlot(full, width, numBins)(g) < numBins
  {
    DivModParts(Degree(full, g), width);
  }

  /**
   * Every node is placed: the corrected bins laid end to end are the
   * degree-sorted node list.
   */
  lemma ClampedBinsConcat<W>(full: Net<W>, numBins: int)
    requires numBins > 0
    ensures |ClampedBinsOf(full, numBins)| == numBins
    ensures Concat(ClampedBinsOf(full, numBins)) == ByDegree(full)
    ensures multiset(Concat(ClampedBinsOf(full, numBins))) == multiset(full.nodes)
  {
    var s, w := ByDegree(full), ClampedWidth(full, numBins);
    var slot := ClampedSlot(full, w, numBins);
    forall k | 0 <= k < |s| ensures 0 <= slot(s[k]) < numBins {
      ClampedSlotAt(full, w, numBins, s[k]);
    }
    forall k, m | 0 <= k < m < |s| ensures slot(s[k]) <= slot(s[m]) {
      assert DegreeKey(full)(s[k]) <= DegreeKey(full)(s[m]);
      DivMono(Degree(full, s[k]), Degree(full, s[m]), w);
      ClampedSlotAt(full, w, numBins, s[k]);
      ClampedSlotAt(full, w, numBins, s[m]);
    }
    BucketsConcat(s, slot, numBins);
  }

  /**
   * Each node is in exactly one corrected bin, `min(degree // width,
   * numBins - 1)`, and nothing else is in any bin.
   */
  lemma ClampedBinsPlacement<W>(full: Net<W>, numBins: int, g: Gene)
    requires numBins > 0
    ensures var bins, w := ClampedBinsOf(full, numBins), ClampedWidth(full, numBins);
            var q := Degree(full, g) / w;
            && |bins| == numBins
            && (forall i | 0 <= i < numBins :: g in bins[i] <==> g in full.nodes && i == (if q < numBins then q else numBins - 1))
  {
    var s, w := ByDegree(full), ClampedWidth(full, numBins);
    assert g in s <==> g in full.nodes by {
      assert g in s <==> g in multiset(s);
    }
    ClampedSlotAt(full, w, numBins, g);
    forall i | 0 <= i < numBins
      ensures g in Bucket(s, ClampedSlot(full, w, numBins), i) <==> g in s && i == ClampedSlot(full, w, numBins)(g)
    {
      BucketMember(s, ClampedSlot(full, w, numBins), i, g);
    }
  }

  /** The corrected bins are the source's bins whenever the source succeeds. */
  lemma ClampedAgreesWithFixed<W>(full: Net<W>, numBins: int)
    requires FixedBinsOf(full, numBins).Ok?
    ensures numBins > 0 && ClampedBinsOf(full, numBins) == FixedBinsOf(full, numBins).value
  {
    FixedBinsValue(full, numBins);
    var s, b := ByDegree(full), FixedBinSize(full, numBins);
    assert ClampedWidth(full, numBins) == b;
    FixedSlotsInRange(full, b, numBins);
    forall k | 0 <= k < |s| ensures ClampedSlot(full, b, numBins)(s[k]) == FixedSlot(full, b)(s[k]) {
      ClampedSlotAt(full, b, numBins, s[k]);
      FixedSlotAt(full, b, s[k]);
    }
    forall i | 0 <= i < numBins
      ensures ClampedBinsOf(full, numBins)[i] == FixedBinsOf(full, numBins).value[i]
    {
      BucketSlotsAgree(s, ClampedSlot(full, b, numBins), FixedSlot(full, b), i);
    }
  }

  /** Two slot functions that agree on `s` make the same buckets. */
  lemma {:induction false} BucketSlotsAgree<T>(s: seq<T>, slot1: T -> int, slot2: T -> int, i: int)
    requires forall k | 0 <= k < |s| :: slot1(s[k]) == slot2(s[k])
    ensures Bucket(s, slot1, i) == Bucket(s, slot2, i)
  {
    if s != [] {
      BucketSlotsAgree(s[..|s| - 1], slot1, slot2, i);
    }
  }

  // ---------------------------------------------------------------------
  // makeQuantileBins (lines 72-89)
  // ---------------------------------------------------------------------

  /** `i * b`, written as a sum so that the slice bounds stay linear. */
  function Offset(i: nat, b: nat): nat {
    if i == 0 then 0 else Offset(i - 1, b) + b
  }

  lemma {:induction false} OffsetIsProduct(i: nat, b: nat)
    ensures Offset(i, b) == i * b
  {
    if i > 0 {
      OffsetIsProduct(i - 1, b);
      MulStep(i - 1, b);
    }
  }

  lemma {:induction false} OffsetMono(i: nat, j: nat, b: nat)
    requires i < j
    ensures Offset(i, b) + b <= Offset(j, b)
  {
    if i + 1 < j {
      OffsetMono(i, j - 1, b);
    }
  }

  lemma MulStep(i: int, b: int)
    ensures (i + 1) * b == i * b + b
  {
  }

  /**
   * Bin `i` of `makeQuantileBins`: `networkSorted[i*binSize:(i+1)*binSize]`
   * (lines 86-88), both ends clamped to the list.
   */
  function QuantileBin(s: seq<Gene>, b: nat, i: nat): seq<Gene> {
    Window(s, Offset(i, b), b)
  }

  /** `round(numNodes / numBins)` (line 81). */
  function QuantileBinSize<W>(full: Net<W>, numBins: int): (b: int)
    requires numBins != 0
    ensures numBins > 0 ==> b >= 0
  {
    RoundHalfEven(|full.nodes|, numBins)
  }

  function QuantileBinList(s: seq<Gene>, b: nat, n: nat): seq<seq<Gene>> {
    seq(n, i requires 0 <= i < n => QuantileBin(s, b, i))
  }

  /**
   * What `makeQuantileBins` returns: ZeroDivisionError for `numBins == 0`,
   * no bins for a negative count (`range` is empty), otherwise `numBins`
   * consecutive slices of width `binSize` of the degree-sorted node list.
   */
  function QuantileBinsOf<W>(full: Net<W>, numBins: int): Result<seq<seq<Gene>>> {
    if numBins == 0 then Err(ZeroDivisionError)
    else if numBins < 0 then Ok([])
    else Ok(QuantileBinList(ByDegree(full), QuantileBinSize(full, numBins), numBins))
  }

  method MakeQuantileBins<W>(full: Net<W>, numBins: int) returns (r: Result<seq<seq<Gene>>>)
    ensures r == QuantileBinsOf(full, numBins)
  {
    var sorted := ByDegree(full);
    var numNodes := |full.nodes|;
    if numBins == 0 {
      return Err(ZeroDivisionError);
    }
    var binSize := RoundHalfEven(numNodes, numBins);
    var count := if numBins > 0 then numBins else 0;
    var bins: seq<seq<Gene>> := [];
    for i := 0 to count
      invariant |bins| == i
      invariant forall j | 0 <= j < i :: binSize >= 0 && bins[j] == QuantileBin(sorted, binSize, j)
    {
      var width: nat := binSize;
      var binStart: nat := i * width;
      var binEnd: nat := (i + 1) * width;
      assert binStart == Offset(i, width) && binEnd == binStart + width by {
        OffsetIsProduct(i, width);
        MulStep(i, width);
      }
      bins := bins + [Window(sorted, binStart, binEnd - binStart)];
    }
    if numBins < 0 {
      return Ok(bins);
    }
    assert bins == QuantileBinList(sorted, binSize, numBins);
    return Ok(bins);
  }

  /**
   * A positive count gives `numBins` bins of at most `binSize` nodes each;
   * a negative count gives none.
   */
  lemma QuantileBinsShape<W>(full: Net<W>, numBins: int)
    requires numBins != 0
    ensures QuantileBinsOf(full, numBins).Ok?
    ensures numBins < 0 ==> QuantileBinsOf(full, numBins).value == []
    ensures numBins > 0 ==>
      var bins, b := QuantileBinsOf(full, numBins).value, QuantileBinSize(full, numBins);
      b >= 0 && |bins| == numBins && forall i | 0 <= i < numBins :: |bins[i]| <= b
  {
    if numBins > 0 {
      var b := QuantileBinSize(full, numBins);
      forall i | 0 <= i < numBins ensures |QuantileBin(ByDegree(full), b, i)| <= b {
        WindowLength(ByDegree(full), Offset(i, b), b);
      }
    }
  }

  /** The first `m` slices laid end to end are the first `min(m * b, n)` nodes. */
  lemma {:induction false} QuantilePrefix(s: seq<Gene>, b: nat, m: nat)
    ensures Concat(QuantileBinList(s, b, m)) == s[..Clamp(Offset(m, b), |s|)]
  {
    if m > 0 {
      var prev := QuantileBinList(s, b, m - 1);
      var start := Offset(m - 1, b);
      var lo, hi := Clamp(start, |s|), Clamp(start + b, |s|);
      assert QuantileBinList(s, b, m) == prev + [QuantileBin(s, b, m - 1)];
      calc {
        Concat(QuantileBinList(s, b, m));
        { ConcatAppend(prev, QuantileBin(s, b, m - 1)); }
        Concat(prev) + QuantileBin(s, b, m - 1);
        { QuantilePrefix(s, b, m - 1); }
        s[..lo] + s[lo..hi];
        { SliceJoin(s, lo, hi); }
        s[..hi];
      }
    }
  }

  /**
   * The quantile bins laid end to end are the degree-sorted list cut off
   * after `numBins * binSize` nodes.
   */
  lemma QuantileBinsConcat<W>(full: Net<W>, numBins: int)
    requires numBins > 0
    ensures var s, b := ByDegree(full), QuantileBinSize(full, numBins);
            Concat(QuantileBinsOf(full, numBins).value) == s[..Clamp(numBins * b, |s|)]
  {
    var b := QuantileBinSize(full, numBins);
    QuantilePrefix(ByDegree(full), b, numBins);
    OffsetIsProduct(numBins, b);
  }

  /** The `p`-th node of quantile bin `i` is node `i * b + p` of the sorted list. */
  lemma QuantileIndex(s: seq<Gene>, b: nat, i: nat, p: nat)
    requires p < |QuantileBin(s, b, i)|
    ensures p < b && i * b + p < |s| && QuantileBin(s, b, i)[p] == s[i * b + p]
  {
    OffsetIsProduct(i, b);
    WindowAt(s, Offset(i, b), b, p);
  }

  /** An element of an earlier bin sits strictly before one of a later bin. */
  lemma QuantileBinsPositions(s: seq<Gene>, b: nat, i: nat, j: nat, p: nat, q: nat)
    requires i < j
    requires p < |QuantileBin(s, b, i)| && q < |QuantileBin(s, b, j)|
    ensures Offset(i, b) + p < Offset(j, b) + q < |s|
    ensures QuantileBin(s, b, i)[p] == s[Offset(i, b) + p]
    ensures QuantileBin(s, b, j)[q] == s[Offset(j, b) + q]
  {
    OffsetMono(i, j, b);
    WindowAt(s, Offset(i, b), b, p);
    WindowAt(s, Offset(j, b), b, q);
  }

  /**
   * Across bins degrees never decrease, and over a network without
   * repeated nodes the bins are pairwise disjoint.
   */
  lemma QuantileBinsOrdered<W>(full: Net<W>, numBins: int, i: nat, j: nat, p: nat, q: nat)
    requires numBins > 0 && i < j < numBins
    requires p < |QuantileBinsOf(full, numBins).value[i]| && q < |QuantileBinsOf(full, numBins).value[j]|
    ensures var bins := QuantileBinsOf(full, numBins).value;
            Degree(full, bins[i][p]) <= Degree(full, bins[j][q])
    ensures var bins := QuantileBinsOf(full, numBins).value;
            Distinct(full.nodes) ==> bins[i][p] != bins[j][q]
  {
    var s, b := ByDegree(full), QuantileBinSize(full, numBins);
    var bins := QuantileBinList(s, b, numBins);
    assert bins[i] == QuantileBin(s, b, i) && bins[j] == QuantileBin(s, b, j);
    QuantileBinsPositions(s, b, i, j, p, q);
    var x, y := Offset(i, b) + p, Offset(j, b) + q;
    assert DegreeKey(full)(s[x]) <= DegreeKey(full)(s[y]);
    if Distinct(full.nodes) {
      DistinctPerm(full.nodes, s);
      assert s[x] != s[y];
    }
  }

  /**
   * When `numBins * binSize` falls short of the node count, the node of
   * highest degree is in no bin.
   */
  lemma QuantileBinsDropLast<W>(full: Net<W>, numBins: int)
    requires numBins > 0 && Distinct(full.nodes)
    requires numBins * QuantileBinSize(full, numBins) < |full.nodes|
    ensures var s := ByDegree(full);
            s[|s| - 1] !in Concat(QuantileBinsOf(full, numBins).value)
  {
    var s, b := ByDegree(full), QuantileBinSize(full, numBins);
    QuantilePrefix(s, b, numBins);
    OffsetIsProduct(numBins, b);
    DistinctPerm(full.nodes, s);
    var prefix := s[..Offset(numBins, b)];
    forall k | 0 <= k < |prefix| ensures prefix[k] != s[|s| - 1] {
      assert prefix[k] == s[k];
    }
  }

  /**
   * Five nodes in two quantile bins: the width is round(5 / 2) = 2, so the
   * bins hold four nodes and the one of highest degree is lost.
   */
  lemma FiveNodesInTwoQuantileBins<W>(full: Net<W>)
    requires |full.nodes| == 5 && Distinct(full.nodes)
    ensures var s := ByDegree(full);
            s[4] !in Concat(QuantileBinsOf(full, 2).value)
  {
    assert QuantileBinSize(full, 2) == RoundHalfEven(5, 2) == 2;
    QuantileBinsDropLast(full, 2);
  }

  // ---------------------------------------------------------------------
  // makeQuantileBins with every node placed
  // ---------------------------------------------------------------------

  /**
   * `makeQuantileBins` as its comment describes it: `numBins` bins of
   * `binSize` nodes in degree order, the last bin taking all that remain.
   */
  function CoveringQuantileBinsOf<W>(full: Net<W>, numBins: int): seq<seq<Gene>>
    requires numBins > 0
  {
    var s, b := ByDegree(full), QuantileBinSize(full, numBins);
    var start := Offset(numBins - 1, b);
    QuantileBinList(s, b, numBins - 1) + [s[Clamp(start, |s|)..]]
  }

  /** The covering bins are `numBins` bins that agree with the source's on all but the last. */
  lemma CoveringQuantileBinsAgree<W>(full: Net<W>, numBins: int)
    requires numBins > 0
    ensures var bins := CoveringQuantileBinsOf(full, numBins);
            |bins| == numBins && bins[..numBins - 1] == QuantileBinsOf(full, numBins).value[..numBins - 1]
  {
    var s, b := ByDegree(full), QuantileBinSize(full, numBins);
    var init := QuantileBinList(s, b, numBins - 1);
    assert CoveringQuantileBinsOf(full, numBins)[..numBins - 1] == init;
    assert QuantileBinList(s, b, numBins)[..numBins - 1] == init;
  }

  /** Laid end to end, the covering bins are the whole degree-sorted list. */
  lemma CoveringQuantileBinsConcat<W>(full: Net<W>, numBins: int)
    requires numBins > 0
    ensures Concat(CoveringQuantileBinsOf(full, numBins)) == ByDegree(full)
    ensures multiset(Concat(CoveringQuantileBinsOf(full, numBins))) == multiset(full.nodes)
  {
    var s, b := ByDegree(full), QuantileBinSize(full, numBins);
    var init := QuantileBinList(s, b, numBins - 1);
    var lo := Clamp(Offset(numBins - 1, b), |s|);
    calc {
      Concat(CoveringQuantileBinsOf(full, numBins));
      { ConcatAppend(init, s[lo..]); }
      Concat(init) + s[lo..];
      { QuantilePrefix(s, b, numBins - 1); }
      s[..lo] + s[lo..];
      { SliceJoin(s, lo, |s|); assert s[..|s|] == s && s[lo..|s|] == s[lo..]; }
      s;
    }
  }
}
