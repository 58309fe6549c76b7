/**
 * Edge densities of a network and the empirical p-value of the loci
 * subnetworks' density against a null distribution (statistics.py).
 *
 * Densities are exact reals. A stored weight is turned into a number by
 * `toFloat`, standing for Python's `float(...)` on the parsed weight.
 */
module Statistics {
  import opened Common
  import opened Sorting

  // ---------------------------------------------------------------------
  // calcEdgeDensity (lines 13-21)
  // ---------------------------------------------------------------------

  /** The neighbour counts of `nodes` added up. */
  function SumDegrees<W>(net: Net<W>, nodes: seq<Gene>): nat {
    if nodes == [] then 0 else SumDegrees(net, nodes[..|nodes| - 1]) + Degree(net, nodes[|nodes| - 1])
  }

  /** Half the number of stored (directed) edges: each edge is stored from both ends. */
  method CalcEdgeDensity<W>(network: Net<W>) returns (density: real)
    requires Valid(network)
    ensures density == SumDegrees(network, network.nodes) as real / 2.0
  {
    var count := 0;
    for i := 0 to |network.nodes|
      invariant count == SumDegrees(network, network.nodes[..i])
    {
      var node := network.nodes[i];
      assert network.nodes[..i + 1][..i] == network.nodes[..i];
      count := count + |network.adj[node]|;
    }
    assert network.nodes[..|network.nodes|] == network.nodes;
    density := count as real / 2.0;
  }

  /** The stored edges leaving the genes of `from`, as ordered pairs. */
  ghost function Arcs<W>(adj: map<Gene, map<Gene, W>>, from: set<Gene>): set<(Gene, Gene)> {
    set a, b | a in from && a in adj && b in adj[a] :: (a, b)
  }

  /** The undirected edges the ordered pairs stand for. */
  ghost function Edges(arcs: set<(Gene, Gene)>): set<set<Gene>> {
    set p | p in arcs :: {p.0, p.1}
  }

  /** No gene is its own neighbour. */
  predicate Loopless<W>(adj: map<Gene, map<Gene, W>>) {
    forall a | a in adj :: a !in adj[a]
  }

  /**
   * Over a symmetric network without self-loops `calcEdgeDensity` is the
   * number of undirected edges.
   */
  lemma EdgeDensityCountsEdges<W>(network: Net<W>)
    requires Valid(network) && Symmetric(network.adj) && Loopless(network.adj)
    ensures SumDegrees(network, network.nodes) as real / 2.0 == |Edges(Arcs(network.adj, network.adj.Keys))| as real
  {
    ArcsCount(network, network.nodes);
    assert SetOf(network.nodes) == network.adj.Keys;
    var arcs := Arcs(network.adj, network.adj.Keys);
    forall p | p in arcs ensures (p.1, p.0) in arcs && p.0 != p.1 {
      assert p.1 in network.adj[p.0];
    }
    ArcPairs(arcs);
  }

  /** Over distinct genes the neighbour counts add up to the stored edges leaving them. */
  lemma {:induction false} ArcsCount<W>(net: Net<W>, nodes: seq<Gene>)
    requires Distinct(nodes)
    ensures SumDegrees(net, nodes) == |Arcs(net.adj, SetOf(nodes))|
  {
    if nodes != [] {
      var init, x := nodes[..|nodes| - 1], nodes[|nodes| - 1];
      ArcsCount(net, init);
      assert x !in SetOf(init);
      var out := if x in net.adj then (set b | b in net.adj[x] :: (x, b)) else {};
      assert Arcs(net.adj, SetOf(nodes)) == Arcs(net.adj, SetOf(init)) + out by {
        assert SetOf(nodes) == SetOf(init) + {x};
      }
      assert Arcs(net.adj, SetOf(init)) * out == {};
      if x in net.adj {
        PairsWith(x, net.adj[x].Keys);
      }
    }
  }

  lemma PairsWith(a: Gene, s: set<Gene>)
    ensures |set b | b in s :: (a, b)| == |s|
    decreases |s|
  {
    if s != {} {
      var x :| x in s;
      PairsWith(a, s - {x});
      assert (set b | b in s :: (a, b)) == (set b | b in s - {x} :: (a, b)) + {(a, x)};
    }
  }

  /** Ordered pairs that come in reversed couples without loops are twice the edges. */
  lemma ArcPairs(arcs: set<(Gene, Gene)>)
    requires forall p | p in arcs :: (p.1, p.0) in arcs && p.0 != p.1
    ensures |arcs| == 2 * |Edges(arcs)|
    decreases |arcs|
  {
    if arcs != {} {
      var p :| p in arcs;
      var q := (p.1, p.0);
      var e := {p.0, p.1};
      var rest := arcs - {p, q};
      forall r | r in rest ensures (r.1, r.0) in rest && r.0 != r.1 {
        assert (r.1, r.0) != p && (r.1, r.0) != q;
      }
      ArcPairs(rest);
      forall r | r in arcs ensures {r.0, r.1} == e <==> r == p || r == q {
        if {r.0, r.1} == e {
          assert r.0 in e && r.1 in e;
        }
      }
      assert Edges(rest) == Edges(arcs) - {e};
      assert e in Edges(arcs);
    }
  }

  // ---------------------------------------------------------------------
  // calcEdgeDensityW (lines 29-36)
  // ---------------------------------------------------------------------

  /** The weights of a neighbour map added up, in any order. */
  ghost function MapSum<W>(m: map<Gene, W>, toFloat: W -> real): real
    decreases |m|
  {
    if m == map[] then 0.0
    else
      var g :| g in m;
      toFloat(m[g]) + MapSum(m - {g}, toFloat)
  }

  /** The sum does not depend on which key is taken first. */
  lemma MapSumRemove<W>(m: map<Gene, W>, toFloat: W -> real, g: Gene)
    requires g in m
    ensures MapSum(m, toFloat) == toFloat(m[g]) + MapSum(m - {g}, toFloat)
    decreases |m|
  {
    var h :| h in m && MapSum(m, toFloat) == toFloat(m[h]) + MapSum(m - {h}, toFloat);
    if h != g {
      MapSumRemove(m - {h}, toFloat, g);
      MapSumRemove(m - {g}, toFloat, h);
      assert m - {h} - {g} == m - {g} - {h};
    }
  }

  /** The weights stored for `nodes` added up. */
  ghost function TotalWeight<W>(net: Net<W>, nodes: seq<Gene>, toFloat: W -> real): real {
    if nodes == [] then 0.0
    else
      var g := nodes[|nodes| - 1];
      TotalWeight(net, nodes[..|nodes| - 1], toFloat) + (if g in net.adj then MapSum(net.adj[g], toFloat) else 0.0)
  }

  /** `calcEdgeDensityW`: half the sum of all stored weights. */
  ghost function DensityW<W>(network: Net<W>, toFloat: W -> real): real {
    TotalWeight(network, network.nodes, toFloat) / 2.0
  }

  method CalcEdgeDensityW<W>(network: Net<W>, toFloat: W -> real) returns (density: real)
    requires Valid(network)
    ensures density == DensityW(network, toFloat)
  {
    density := 0.0;
    for i := 0 to |network.nodes|
      invariant density == TotalWeight(network, network.nodes[..i], toFloat)
    {
      var node := network.nodes[i];
      density := AddWeights(density, network.adj[node], toFloat);
      assert network.nodes[..i + 1][..i] == network.nodes[..i];
    }
    assert network.nodes[..|network.nodes|] == network.nodes;
    density := density / 2.0;
  }

  /** The inner loop of lines 33-34: adds every weight of `row` to `density`. */
  method AddWeights<W>(density0: real, row: map<Gene, W>, toFloat: W -> real) returns (density: real)
    ensures density == density0 + MapSum(row, toFloat)
  {
    density := density0;
    var rest := row.Keys;
    MapSumDone(row, rest, toFloat);
    while rest != {}
      invariant rest <= row.Keys
      invariant density == density0 + MapSum(row - rest, toFloat)
      decreases |rest|
    {
      var edge :| edge in rest;
      MapSumStep(row, rest, edge, toFloat);
      density := density + toFloat(row[edge]);
      rest := rest - {edge};
    }
    MapSumDone(row, rest, toFloat);
  }

  /** Nothing summed yet, or everything. */
  lemma MapSumDone<W>(row: map<Gene, W>, rest: set<Gene>, toFloat: W -> real)
    ensures rest == row.Keys ==> MapSum(row - rest, toFloat) == 0.0
    ensures rest == {} ==> MapSum(row - rest, toFloat) == MapSum(row, toFloat)
  {
    if rest == row.Keys {
      assert row - rest == map[];
    }
    if rest == {} {
      assert row - rest == row;
    }
  }

  /** Summing one more key of `row`. */
  lemma MapSumStep<W>(row: map<Gene, W>, rest: set<Gene>, edge: Gene, toFloat: W -> real)
    requires edge in rest && rest <= row.Keys
    ensures MapSum(row - (rest - {edge}), toFloat) == MapSum(row - rest, toFloat) + toFloat(row[edge])
  {
    MapSumRemove(row - (rest - {edge}), toFloat, edge);
    assert row - (rest - {edge}) - {edge} == row - rest;
  }

  /** With non-negative weights the weighted density is non-negative. */
  lemma DensityWNonNegative<W>(network: Net<W>, toFloat: W -> real)
    requires forall a, b | a in network.adj && b in network.adj[a] :: toFloat(network.adj[a][b]) >= 0.0
    ensures DensityW(network, toFloat) >= 0.0
  {
    TotalWeightNonNegative(network, network.nodes, toFloat);
  }

  lemma {:induction false} TotalWeightNonNegative<W>(net: Net<W>, nodes: seq<Gene>, toFloat: W -> real)
    requires forall a, b | a in net.adj && b in net.adj[a] :: toFloat(net.adj[a][b]) >= 0.0
    ensures TotalWeight(net, nodes, toFloat) >= 0.0
  {
    if nodes != [] {
      TotalWeightNonNegative(net, nodes[..|nodes| - 1], toFloat);
      var g := nodes[|nodes| - 1];
      if g in net.adj {
        MapSumNonNegative(net.adj[g], toFloat);
      }
    }
  }

  lemma MapSumNonNegative<W>(m: map<Gene, W>, toFloat: W -> real)
    requires forall b | b in m :: toFloat(m[b]) >= 0.0
    ensures MapSum(m, toFloat) >= 0.0
    decreases |m|
  {
    if m != map[] {
      var g :| g in m && MapSum(m, toFloat) == toFloat(m[g]) + MapSum(m - {g}, toFloat);
      MapSumNonNegative(m - {g}, toFloat);
    }
  }

  /** When every weight counts 1 the weighted density is `calcEdgeDensity`. */
  lemma UnitWeightsCountEdges<W>(network: Net<W>, toFloat: W -> real)
    requires forall a, b | a in network.adj && b in network.adj[a] :: toFloat(network.adj[a][b]) == 1.0
    ensures DensityW(network, toFloat) == SumDegrees(network, network.nodes) as real / 2.0
  {
    UnitTotalWeight(network, network.nodes, toFloat);
  }

  lemma {:induction false} UnitTotalWeight<W>(net: Net<W>, nodes: seq<Gene>, toFloat: W -> real)
    requires forall a, b | a in net.adj && b in net.adj[a] :: toFloat(net.adj[a][b]) == 1.0
    ensures TotalWeight(net, nodes, toFloat) == SumDegrees(net, nodes) as real
  {
    if nodes != [] {
      UnitTotalWeight(net, nodes[..|nodes| - 1], toFloat);
      var g := nodes[|nodes| - 1];
      if g in net.adj {
        UnitMapSum(net.adj[g], toFloat);
      }
    }
  }

  lemma UnitMapSum<W>(m: map<Gene, W>, toFloat: W -> real)
    requires forall b | b in m :: toFloat(m[b]) == 1.0
    ensures MapSum(m, toFloat) == |m| as real
    decreases |m|
  {
    if m != map[] {
      var g :| g in m && MapSum(m, toFloat) == toFloat(m[g]) + MapSum(m - {g}, toFloat);
      UnitMapSum(m - {g}, toFloat);
      assert (m - {g}).Keys == m.Keys - {g};
    }
  }

  // ---------------------------------------------------------------------
  // empiricalPVal (lines 64-91)
  // ---------------------------------------------------------------------

  /** `k / n` as Python's true division computes it, exactly. */
  function Ratio(k: nat, n: nat): real
    requires n > 0
  {
    k as real / n as real
  }

  /** The identity key: `sorted(coFPopDensities)` sorts by the values themselves. */
  function Identity(x: real): real {
    x
  }

  /**
   * The `p` the scan of lines 82-89 ends with: the last position whose
   * value is at most `d`, or 0 when there is none.
   */
  function LastAtMost(s: seq<real>, d: real): (p: nat)
    ensures s == [] ==> p == 0
    ensures s != [] ==> p < |s|
    ensures p > 0 ==> s[p] <= d
    ensures forall j | p < j < |s| :: s[j] > d
  {
    if s == [] then 0
    else if s[|s| - 1] <= d then |s| - 1
    else LastAtMost(s[..|s| - 1], d)
  }

  /** The number of values at most `d`. */
  function CountAtMost(s: seq<real>, d: real): (c: nat)
    ensures c <= |s|
  {
    if s == [] then 0 else CountAtMost(s[..|s| - 1], d) + (if s[|s| - 1] <= d then 1 else 0)
  }

  /**
   * `(len(coFDensities) - p) / len(coFDensities)` (line 91). Sorted, the
   * `c` values at most `d` come first, so the scan ends with `p = c - 1`
   * (`LastIsCount`), and with `p = 0` when `c` is 0.
   */
  function PValAt(coF: seq<real>, d: real): real
    requires coF != []
  {
    var c := CountAtMost(coF, d);
    Ratio(|coF| - (if c > 0 then c - 1 else 0), |coF|)
  }

  /** The mean weighted density of the loci subnetworks (lines 70-75). */
  ghost function LociDensityOf<W>(lociSubN: seq<Net<W>>, toFloat: W -> real): real
    requires lociSubN != []
  {
    Mean(Densities(lociSubN, toFloat))
  }

  ghost function Densities<W>(nets: seq<Net<W>>, toFloat: W -> real): seq<real> {
    seq(|nets|, i requires 0 <= i < |nets| => DensityW(nets[i], toFloat))
  }

  /**
   * What `empiricalPVal` returns: ZeroDivisionError when there are no loci
   * subnetworks (line 75) or no null densities (line 91).
   */
  ghost function PValOf<W>(lociSubN: seq<Net<W>>, coFPopDensities: seq<real>, toFloat: W -> real): Result<real> {
    if lociSubN == [] || coFPopDensities == [] then Err(ZeroDivisionError)
    else Ok(PValAt(coFPopDensities, LociDensityOf(lociSubN, toFloat)))
  }

  method EmpiricalPVal<W>(lociSubN: seq<Net<W>>, coFPopDensities: seq<real>, toFloat: W -> real) returns (r: Result<real>)
    requires forall i | 0 <= i < |lociSubN| :: Valid(lociSubN[i])
    ensures r == PValOf(lociSubN, coFPopDensities, toFloat)
  {
    var lociDensity := SumDensities(lociSubN, toFloat);
    if |lociSubN| == 0 {
      return Err(ZeroDivisionError);
    }
    lociDensity := lociDensity / |lociSubN| as real;
    r := PValFromDensity(coFPopDensities, lociDensity);
  }

  /** Lines 81-91: sort the null densities, scan them, divide. */
  method PValFromDensity(coFPopDensities: seq<real>, lociDensity: real) returns (r: Result<real>)
    ensures coFPopDensities == [] ==> r == Err(ZeroDivisionError)
    ensures coFPopDensities != [] ==> r == Ok(PValAt(coFPopDensities, lociDensity))
  {
    var coFDensities := SortBy(coFPopDensities, Identity);
    var p := ScanNull(coFDensities, lociDensity);
    if |coFDensities| == 0 {
      return Err(ZeroDivisionError);
    }
    ScanRatio(coFPopDensities, lociDensity, coFDensities, p);
    r := Ok(Ratio(|coFDensities| - p, |coFDensities|));
  }

  /** The ratio of line 91 over the scan position is `PValAt`. */
  lemma ScanRatio(coF: seq<real>, d: real, sorted: seq<real>, p: nat)
    requires coF != [] && sorted == SortBy(coF, Identity) && p == LastAtMost(sorted, d)
    ensures p < |sorted| && Ratio(|sorted| - p, |sorted|) == PValAt(coF, d)
  {
    LastIsCount(coF, d);
    var c := CountAtMost(coF, d);
    var k: nat := |coF| - (if c > 0 then c - 1 else 0);
    assert |sorted| == |coF| && |sorted| - p == k;
    assert PValAt(coF, d) == Ratio(k, |coF|);
  }

  /** The loop of lines 71-74. */
  method SumDensities<W>(lociSubN: seq<Net<W>>, toFloat: W -> real) returns (lociDensity: real)
    requires forall i | 0 <= i < |lociSubN| :: Valid(lociSubN[i])
    ensures lociDensity == SumReals(Densities(lociSubN, toFloat))
  {
    ghost var densities := Densities(lociSubN, toFloat);
    lociDensity := 0.0;
    for i := 0 to |lociSubN|
      invariant lociDensity == SumReals(densities[..i])
    {
      var tempLD := CalcEdgeDensityW(lociSubN[i], toFloat);
      PrefixSnoc(densities, i);
      SumRealsSnoc(densities[..i], tempLD);
      lociDensity := lociDensity + tempLD;
    }
    assert densities[..|lociSubN|] == densities;
  }

  /** The scan of lines 82-89 (`densPos` only feeds the plot). */
  method ScanNull(coFDensities: seq<real>, lociDensity: real) returns (p: nat)
    ensures p == LastAtMost(coFDensities, lociDensity)
  {
    var pos := 0;
    p := 0;
    for k := 0 to |coFDensities|
      invariant pos == k && p == LastAtMost(coFDensities[..k], lociDensity)
    {
      assert coFDensities[..k + 1][..k] == coFDensities[..k];
      if coFDensities[k] <= lociDensity {
        p := pos;
      }
      pos := pos + 1;
    }
    assert coFDensities[..|coFDensities|] == coFDensities;
  }

  /** The scan over the sorted null values stops one before the count of those at most `d`. */
  lemma LastIsCount(coF: seq<real>, d: real)
    ensures var s, c := SortBy(coF, Identity), CountAtMost(coF, d);
            |s| == |coF| && LastAtMost(s, d) == if c > 0 then c - 1 else 0
  {
    var s := SortBy(coF, Identity);
    SortByProps(coF, Identity);
    SortedLastAtMost(s, d);
    CountSortBy(coF, Identity, d);
  }

  /**
   * The p-value lies in [1/n, 1]: it is 1 when every null value exceeds
   * `d` and 1/n when none does, so it never reaches 0.
   */
  lemma PValBounds(coF: seq<real>, d: real)
    requires coF != []
    ensures var n := |coF| as real;
            1.0 / n <= PValAt(coF, d) <= 1.0
    ensures (forall i | 0 <= i < |coF| :: coF[i] > d) ==> PValAt(coF, d) == 1.0
    ensures (forall i | 0 <= i < |coF| :: coF[i] <= d) ==> PValAt(coF, d) == 1.0 / |coF| as real
  {
    CountAtMostBounds(coF, d);
    var n, c := |coF|, CountAtMost(coF, d);
    var k := n - (if c > 0 then c - 1 else 0);
    FractionBounds(k, n);
    FractionZeroOne(k, n);
  }

  lemma FractionBounds(k: nat, n: nat)
    requires 1 <= k <= n
    ensures 1.0 / n as real <= Ratio(k, n) <= 1.0
  {
  }

  /** A larger loci density never gives a larger p-value. */
  lemma PValMonotone(coF: seq<real>, d1: real, d2: real)
    requires coF != [] && d1 <= d2
    ensures PValAt(coF, d2) <= PValAt(coF, d1)
  {
    CountAtMostMono(coF, d1, d2);
    var n, c1, c2 := |coF|, CountAtMost(coF, d1), CountAtMost(coF, d2);
    FractionMono(n - (if c2 > 0 then c2 - 1 else 0), n - (if c1 > 0 then c1 - 1 else 0), n);
  }

  lemma {:induction false} CountAtMostMono(s: seq<real>, d1: real, d2: real)
    requires d1 <= d2
    ensures CountAtMost(s, d1) <= CountAtMost(s, d2)
  {
    if s != [] {
      CountAtMostMono(s[..|s| - 1], d1, d2);
    }
  }

  lemma FractionMono(j: nat, k: nat, n: nat)
    requires j <= k && n > 0
    ensures Ratio(j, n) <= Ratio(k, n)
  {
  }

  // ---------------------------------------------------------------------
  // The p-value as the comment at lines 65-67 describes it
  // ---------------------------------------------------------------------

  /** The fraction of null values strictly above `d`. */
  function FractionAbove(coF: seq<real>, d: real): real
    requires coF != []
  {
    Ratio(|coF| - CountAtMost(coF, d), |coF|)
  }

  /** The corrected `empiricalPVal`: ZeroDivisionError as before, else `FractionAbove`. */
  ghost function CorrectedPValOf<W>(lociSubN: seq<Net<W>>, coFPopDensities: seq<real>, toFloat: W -> real): Result<real> {
    if lociSubN == [] || coFPopDensities == [] then Err(ZeroDivisionError)
    else Ok(FractionAbove(coFPopDensities, LociDensityOf(lociSubN, toFloat)))
  }

  lemma {:induction false} CountAtMostBounds(s: seq<real>, d: real)
    ensures CountAtMost(s, d) <= |s|
    ensures CountAtMost(s, d) == |s| <==> forall i | 0 <= i < |s| :: s[i] <= d
    ensures CountAtMost(s, d) == 0 <==> forall i | 0 <= i < |s| :: s[i] > d
  {
    if s != [] {
      var init := s[..|s| - 1];
      CountAtMostBounds(init, d);
      assert forall i | 0 <= i < |init| :: init[i] == s[i];
    }
  }

  /**
   * The corrected p-value lies in [0, 1]; it is 0 exactly when no null
   * value exceeds `d` and 1 exactly when all do.
   */
  lemma FractionAboveBounds(coF: seq<real>, d: real)
    requires coF != []
    ensures 0.0 <= FractionAbove(coF, d) <= 1.0
    ensures FractionAbove(coF, d) == 0.0 <==> forall i | 0 <= i < |coF| :: coF[i] <= d
    ensures FractionAbove(coF, d) == 1.0 <==> forall i | 0 <= i < |coF| :: coF[i] > d
  {
    CountAtMostBounds(coF, d);
    var n, c := |coF|, CountAtMost(coF, d);
    FractionZeroOne(n - c, n);
  }

  lemma FractionZeroOne(k: nat, n: nat)
    requires k <= n && n > 0
    ensures 0.0 <= Ratio(k, n) <= 1.0
    ensures Ratio(k, n) == 0.0 <==> k == 0
    ensures Ratio(k, n) == 1.0 <==> k == n
  {
  }

  /**
   * The source's p-value is the corrected one plus 1/n whenever some null
   * value is at most `d`: the scan records the last such position, one
   * less than their count.
   */
  lemma PValAsWritten(coF: seq<real>, d: real)
    requires coF != []
    ensures PValAt(coF, d) == FractionAbove(coF, d) + (if CountAtMost(coF, d) > 0 then 1.0 / |coF| as real else 0.0)
  {
    var n, c := |coF|, CountAtMost(coF, d);
    if c > 0 {
      RatioShift(n, c);
    }
  }

  lemma RatioShift(n: nat, c: nat)
    requires 0 < c <= n
    ensures Ratio(n - (c - 1), n) == Ratio(n - c, n) + 1.0 / n as real
  {
  }

  /** On a sorted list the last position at most `d` is one less than the count. */
  lemma {:induction false} SortedLastAtMost(s: seq<real>, d: real)
    requires SortedBy(s, Identity)
    ensures CountAtMost(s, d) == 0 ==> LastAtMost(s, d) == 0
    ensures CountAtMost(s, d) > 0 ==> LastAtMost(s, d) == CountAtMost(s, d) - 1
  {
    if s != [] {
      var init := s[..|s| - 1];
      if s[|s| - 1] <= d {
        assert forall i | 0 <= i < |s| :: s[i] <= d by {
          forall i | 0 <= i < |s| - 1 ensures s[i] <= d {
            assert Identity(s[i]) <= Identity(s[|s| - 1]);
          }
        }
        CountAtMostBounds(s, d);
      } else {
        SortedSlice(s, Identity, 0, |s| - 1);
        SortedLastAtMost(init, d);
      }
    }
  }

  lemma {:induction false} CountInsert(t: seq<real>, x: real, key: real -> real, d: real)
    requires SortedBy(t, key)
    ensures CountAtMost(Insert(t, x, key), d) == CountAtMost(t, d) + (if x <= d then 1 else 0)
  {
    if t == [] {
      assert [x][..0] == [];
    } else if key(t[|t| - 1]) <= key(x) {
      assert (t + [x])[..|t|] == t;
    } else {
      var init, last := t[..|t| - 1], t[|t| - 1];
      SortedSlice(t, key, 0, |t| - 1);
      var r' := Insert(init, x, key);
      assert Insert(t, x, key) == r' + [last];
      assert (r' + [last])[..|r'|] == r';
      CountInsert(init, x, key, d);
    }
  }

  /** Sorting does not change how many values are at most `d`. */
  lemma {:induction false} CountSortBy(s: seq<real>, key: real -> real, d: real)
    ensures CountAtMost(SortBy(s, key), d) == CountAtMost(s, d)
  {
    if s != [] {
      var init := s[..|s| - 1];
      CountSortBy(init, key, d);
      SortByProps(init, key);
      CountInsert(SortBy(init, key), s[|s| - 1], key, d);
    }
  }

  /**
   * One null value 0.5 below a loci density of 1.0: the source gives a
   * p-value of 1, the fraction of null values above the density is 0.
   */
  lemma OneNullBelow()
    ensures PValAt([0.5], 1.0) == 1.0
    ensures FractionAbove([0.5], 1.0) == 0.0
  {
    PValAsWritten([0.5], 1.0);
    assert CountAtMost([0.5], 1.0) == 1 by {
      assert [0.5][..0] == [];
    }
  }
}
