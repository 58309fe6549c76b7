/**
 * Degree-matched null subnetworks (`makeCoFSubnetworks`,
 * networkCreation.py:100-148).
 *
 * For every node of a reference subnetwork the bins are scanned in order
 * for the first whose last gene has at least the node's degree; a gene is
 * drawn from that bin, and drawn once more if it is already chosen. The
 * chosen genes and the edges of the network among them form the null
 * subnetwork. Draw `t` (0 or 1) for node `k` of reference `r` is
 * `draw(r, k, t)`, reduced to an index by `Pick`.
 */
module CoFSubnetworks {
  import opened Common
  import opened NetworkCreation

  // ---------------------------------------------------------------------
  // The bin scan (lines 122-135)
  // ---------------------------------------------------------------------

  /**
   * `binMax` (lines 123-126): the degree of the bin's last gene, -1 for an
   * empty bin, and KeyError when that gene is not a key of `full`.
   */
  function BinMax<W>(full: Net<W>, bin: seq<Gene>): Result<int> {
    if bin == [] then Ok(-1)
    else if bin[|bin| - 1] in full.adj then Ok(|full.adj[bin[|bin| - 1]]|)
    else Err(KeyError)
  }

  /** A bin the scan goes past for a node of degree `d`. */
  predicate Passed<W>(full: Net<W>, bin: seq<Gene>, d: int) {
    BinMax(full, bin).Ok? && BinMax(full, bin).value < d
  }

  /** The scan from bin `i` on: the first bin whose `binMax` reaches `d`. */
  function FirstFitFrom<W>(full: Net<W>, bins: seq<seq<Gene>>, d: int, i: nat): (r: Result<Option<nat>>)
    ensures r.Ok? && r.value.Some? ==>
              i <= r.value.value < |bins| && BinMax(full, bins[r.value.value]).Ok? &&
              BinMax(full, bins[r.value.value]).value >= d
    decreases |bins| - i
  {
    if i >= |bins| then Ok(None)
    else
      match BinMax(full, bins[i])
      case Err(e) => Err(e)
      case Ok(m) => if m >= d then Ok(Some(i)) else FirstFitFrom(full, bins, d, i + 1)
  }

  function FirstFit<W>(full: Net<W>, bins: seq<seq<Gene>>, d: int): Result<Option<nat>> {
    FirstFitFrom(full, bins, d, 0)
  }

  lemma {:induction false} FirstFitFromSpec<W>(full: Net<W>, bins: seq<seq<Gene>>, d: int, i: nat)
    ensures var r := FirstFitFrom(full, bins, d, i);
            && (r == Ok(None) <==> forall j | i <= j < |bins| :: Passed(full, bins[j], d))
            && (r.Ok? && r.value.Some? ==> forall j | i <= j < r.value.value :: Passed(full, bins[j], d))
            && (r.Err? ==>
                  r.error == KeyError &&
                  exists k | i <= k < |bins| :: BinMax(full, bins[k]).Err? && forall j | i <= j < k :: Passed(full, bins[j], d))
    decreases |bins| - i
  {
    if i < |bins| && BinMax(full, bins[i]).Ok? && BinMax(full, bins[i]).value < d {
      FirstFitFromSpec(full, bins, d, i + 1);
      var r := FirstFitFrom(full, bins, d, i + 1);
      if r.Err? {
        var k :| i + 1 <= k < |bins| && BinMax(full, bins[k]).Err? && forall j | i + 1 <= j < k :: Passed(full, bins[j], d);
        assert forall j | i <= j < k :: Passed(full, bins[j], d);
      }
    }
  }

  /**
   * The bin the scan stops at for a node of degree `d >= 0` is not empty,
   * its last gene has degree at least `d`, and every earlier bin is empty
   * or ends in a gene of smaller degree. The scan finds no bin exactly
   * when every bin is passed, and fails with KeyError exactly at a
   * non-empty bin whose last gene is not a key of `full`.
   */
  lemma FirstFitSpec<W>(full: Net<W>, bins: seq<seq<Gene>>, d: nat)
    ensures var r := FirstFit(full, bins, d);
            && (r == Ok(None) <==> forall j | 0 <= j < |bins| :: Passed(full, bins[j], d))
            && (r.Ok? && r.value.Some? ==>
                  var i := r.value.value;
                  && i < |bins| && bins[i] != []
                  && Degree(full, bins[i][|bins[i]| - 1]) >= d
                  && forall j | 0 <= j < i :: bins[j] == [] || Degree(full, bins[j][|bins[j]| - 1]) < d)
            && (r.Err? ==>
                  r.error == KeyError &&
                  exists k | 0 <= k < |bins| :: bins[k] != [] && bins[k][|bins[k]| - 1] !in full.adj)
  {
    FirstFitFromSpec(full, bins, d, 0);
    var r := FirstFit(full, bins, d);
    if r.Ok? && r.value.Some? {
      var i := r.value.value;
      forall j | 0 <= j < i ensures bins[j] == [] || Degree(full, bins[j][|bins[j]| - 1]) < d {
        assert Passed(full, bins[j], d);
      }
    }
    if r.Err? {
      var k :| 0 <= k < |bins| && BinMax(full, bins[k]).Err? && forall j | 0 <= j < k :: Passed(full, bins[j], d);
      assert bins[k] != [] && bins[k][|bins[k]| - 1] !in full.adj;
    }
  }

  /**
   * The gene added for a node of degree `d` given the genes already
   * chosen: from the bin the scan stops at, the first draw, or the second
   * if the first is already chosen (lines 130-133). KeyError if the drawn
   * gene is not a key of `full` (line 134); nothing if no bin fits.
   */
  function NullNodeOf<W>(full: Net<W>, bins: seq<seq<Gene>>, d: nat, keys: seq<Gene>, k0: nat, k1: nat): Result<Option<Gene>> {
    match FirstFit(full, bins, d)
    case Err(e) => Err(e)
    case Ok(None) => Ok(None)
    case Ok(Some(i)) =>
      var g := Pick(bins[i], k0);
      var g' := if g in keys then Pick(bins[i], k1) else g;
      if g' in full.adj then Ok(Some(g')) else Err(KeyError)
  }

  /** The bin loop of lines 122-135 for one reference node. */
  method PickNode<W>(full: Net<W>, bins: seq<seq<Gene>>, nodeDensity: nat, keys: seq<Gene>, k0: nat, k1: nat)
    returns (r: Result<Option<Gene>>)
    ensures r == NullNodeOf(full, bins, nodeDensity, keys, k0, k1)
  {
    r := Ok(None);
    for i := 0 to |bins|
      invariant FirstFit(full, bins, nodeDensity) == FirstFitFrom(full, bins, nodeDensity, i)
    {
      var bin := bins[i];
      var binMax: int;
      if |bin| > 0 {
        if bin[|bin| - 1] !in full.adj {
          return Err(KeyError);
        }
        binMax := |full.adj[bin[|bin| - 1]]|;
      } else {
        binMax := -1;
      }
      if binMax >= nodeDensity {
        var node := Pick(bin, k0);
        if node in keys {
          node := Pick(bin, k1);
        }
        if node !in full.adj {
          return Err(KeyError);
        }
        return Ok(Some(node));
      }
    }
  }

  /** A chosen gene comes from the bin the scan stopped at, by one of the two draws. */
  lemma NullNodeFromBin<W>(full: Net<W>, bins: seq<seq<Gene>>, d: nat, keys: seq<Gene>, k0: nat, k1: nat)
    requires NullNodeOf(full, bins, d, keys, k0, k1).Ok? && NullNodeOf(full, bins, d, keys, k0, k1).value.Some?
    ensures FirstFit(full, bins, d).Ok? && FirstFit(full, bins, d).value.Some?
    ensures var i, g := FirstFit(full, bins, d).value.value, NullNodeOf(full, bins, d, keys, k0, k1).value.value;
            && i < |bins| && bins[i] != [] && g in bins[i] && g in full.adj
            && (Pick(bins[i], k0) !in keys ==> g == Pick(bins[i], k0))
            && (Pick(bins[i], k0) in keys ==> g == Pick(bins[i], k1))
  {
    FirstFitSpec(full, bins, d);
  }

  // ---------------------------------------------------------------------
  // One null subnetwork (lines 111-145)
  // ---------------------------------------------------------------------

  /**
   * The keys of `tempSubnetwork` after the first `|ref|` reference nodes:
   * each adds its chosen gene (kept once), or nothing when no bin fits.
   */
  function NullNodesOf<W>(full: Net<W>, bins: seq<seq<Gene>>, ref: seq<Gene>, draw: (nat, nat) -> nat): (r: Result<seq<Gene>>)
    ensures r.Ok? ==> Distinct(r.value) && |r.value| <= |ref|
    ensures r.Ok? ==> forall k | 0 <= k < |r.value| :: r.value[k] in full.adj
  {
    if ref == [] then Ok([])
    else
      var n := |ref| - 1;
      match NullNodesOf(full, bins, ref[..n], draw)
      case Err(e) => Err(e)
      case Ok(keys) =>
        match NullNodeOf(full, bins, Degree(full, ref[n]), keys, draw(n, 0), draw(n, 1))
        case Err(e) => Err(e)
        case Ok(None) => Ok(keys)
        case Ok(Some(g)) =>
          TouchKeys(keys, g);
          Ok(Touch(keys, g))
  }

  /** What the body of the loop at line 110 builds for one reference subnetwork. */
  function NullSubnetworkOf<W>(full: Net<W>, bins: seq<seq<Gene>>, ref: Net<W>, draw: (nat, nat) -> nat): Result<Net<W>> {
    match NullNodesOf(full, bins, ref.nodes, draw)
    case Err(e) => Err(e)
    case Ok(keys) =>
      assert SetOf(keys) <= full.adj.Keys;
      Ok(Net(keys, Induce(full.adj, SetOf(keys))))
  }

  /** One pass of the loop at line 112: reference node `k` picks its null node. */
  method NullNodeStep<W>(full: Net<W>, bins: seq<seq<Gene>>, ref: seq<Gene>, draw: (nat, nat) -> nat, k: nat, keys: seq<Gene>)
    returns (r: Result<seq<Gene>>)
    requires k < |ref| && NullNodesOf(full, bins, ref[..k], draw) == Ok(keys)
    ensures r == NullNodesOf(full, bins, ref[..k + 1], draw)
  {
    var node := ref[k];
    var nodeDensity: nat;
    if node in full.adj {
      nodeDensity := |full.adj[node]|;
    } else {
      nodeDensity := 0;
    }
    var picked := PickNode(full, bins, nodeDensity, keys, draw(k, 0), draw(k, 1));
    assert ref[..k + 1][..k] == ref[..k];
    if picked.Err? {
      return Err(picked.error);
    }
    if picked.value.Some? {
      return Ok(Touch(keys, picked.value.value));
    }
    return Ok(keys);
  }

  method NullSubnetwork<W>(full: Net<W>, bins: seq<seq<Gene>>, ref: Net<W>, draw: (nat, nat) -> nat)
    returns (r: Result<Net<W>>)
    ensures r == NullSubnetworkOf(full, bins, ref, draw)
  {
    var keys: seq<Gene> := [];
    for k := 0 to |ref.nodes|
      invariant NullNodesOf(full, bins, ref.nodes[..k], draw) == Ok(keys)
    {
      var next := NullNodeStep(full, bins, ref.nodes, draw, k, keys);
      if next.Err? {
        NullNodesErrPersists(full, bins, ref.nodes, draw, k + 1);
        return Err(next.error);
      }
      keys := next.value;
    }
    assert ref.nodes[..|ref.nodes|] == ref.nodes;
    var edges := InducedEdges(full, keys);
    return Ok(Net(keys, edges.value));
  }

  lemma {:induction false} NullNodesErrPersists<W>(full: Net<W>, bins: seq<seq<Gene>>, ref: seq<Gene>, draw: (nat, nat) -> nat, m: nat)
    requires m <= |ref| && NullNodesOf(full, bins, ref[..m], draw).Err?
    ensures NullNodesOf(full, bins, ref, draw) == NullNodesOf(full, bins, ref[..m], draw)
    decreases |ref| - m
  {
    if m < |ref| {
      var init := ref[..|ref| - 1];
      assert init[..m] == ref[..m];
      NullNodesErrPersists(full, bins, init, draw, m);
    } else {
      assert ref[..m] == ref;
    }
  }

  /**
   * A null subnetwork is a dict (each key once, keys and rows agree) with
   * at most as many genes as its reference: a node no bin covers adds
   * none and a repeated collision adds none.
   */
  lemma NullSubnetworkSize<W>(full: Net<W>, bins: seq<seq<Gene>>, ref: Net<W>, draw: (nat, nat) -> nat)
    requires NullSubnetworkOf(full, bins, ref, draw).Ok?
    ensures var sub := NullSubnetworkOf(full, bins, ref, draw).value;
            Valid(sub) && |sub.nodes| <= |ref.nodes|
  {
    var sub := NullSubnetworkOf(full, bins, ref, draw).value;
    forall g ensures g in sub.adj <==> g in sub.nodes {
      assert g in sub.nodes <==> g in SetOf(sub.nodes);
    }
  }

  /**
   * Every gene of a null subnetwork was drawn, for some reference node,
   * from the bin the scan stopped at for that node's degree.
   */
  lemma {:induction false} NullNodesFromBins<W>(full: Net<W>, bins: seq<seq<Gene>>, ref: seq<Gene>, draw: (nat, nat) -> nat, g: Gene)
    requires NullNodesOf(full, bins, ref, draw).Ok? && g in NullNodesOf(full, bins, ref, draw).value
    ensures exists k | 0 <= k < |ref| ::
              var fit := FirstFit(full, bins, Degree(full, ref[k]));
              fit.Ok? && fit.value.Some? && fit.value.value < |bins| && g in bins[fit.value.value]
  {
    var n := |ref| - 1;
    var keys := NullNodesOf(full, bins, ref[..n], draw).value;
    var step := NullNodeOf(full, bins, Degree(full, ref[n]), keys, draw(n, 0), draw(n, 1));
    if g in keys {
      NullNodesFromBins(full, bins, ref[..n], draw, g);
      var k :| 0 <= k < n &&
               var fit := FirstFit(full, bins, Degree(full, ref[..n][k]));
               fit.Ok? && fit.value.Some? && fit.value.value < |bins| && g in bins[fit.value.value];
      assert ref[..n][k] == ref[k];
    } else {
      assert step.Ok? && step.value == Some(g);
      NullNodeFromBin(full, bins, Degree(full, ref[n]), keys, draw(n, 0), draw(n, 1));
    }
  }

  /**
   * g1 -> g2 is an edge of a null subnetwork, with `full`'s weight, exactly
   * when both are chosen genes and g2 is a neighbour of g1 in `full`
   * (lines 142-145); a symmetric `full` gives a symmetric null subnetwork.
   */
  lemma NullSubnetworkEdges<W>(full: Net<W>, bins: seq<seq<Gene>>, ref: Net<W>, draw: (nat, nat) -> nat, g1: Gene, g2: Gene)
    requires NullSubnetworkOf(full, bins, ref, draw).Ok?
    ensures var sub := NullSubnetworkOf(full, bins, ref, draw).value;
            g1 in sub.adj ==>
              g1 in full.adj &&
              (g2 in sub.adj[g1] <==> g2 in sub.adj && g2 in full.adj[g1]) &&
              (g2 in sub.adj[g1] ==> sub.adj[g1][g2] == full.adj[g1][g2])
    ensures Symmetric(full.adj) ==> Symmetric(NullSubnetworkOf(full, bins, ref, draw).value.adj)
  {
    var keys := NullNodesOf(full, bins, ref.nodes, draw).value;
    if Symmetric(full.adj) {
      InduceSymmetric(full.adj, SetOf(keys));
    }
  }

  // ---------------------------------------------------------------------
  // makeCoFSubnetworks (lines 100-148)
  // ---------------------------------------------------------------------

  /** The draws for reference subnetwork `r`. */
  function CoFDraws(draw: (nat, nat, nat) -> nat, r: nat): (nat, nat) -> nat {
    (k, t) => draw(r, k, t)
  }

  /** One attempt per reference subnetwork, in order. */
  function CoFAttempts<W>(full: Net<W>, bins: seq<seq<Gene>>, lociSubN: seq<Net<W>>, draw: (nat, nat, nat) -> nat): seq<Result<Net<W>>> {
    seq(|lociSubN|, r requires 0 <= r < |lociSubN| => NullSubnetworkOf(full, bins, lociSubN[r], CoFDraws(draw, r)))
  }

  /** What `makeCoFSubnetworks` returns: the null subnetworks in order, or the first exception. */
  function CoFSubnetworksOf<W>(full: Net<W>, bins: seq<seq<Gene>>, lociSubN: seq<Net<W>>, draw: (nat, nat, nat) -> nat): Result<seq<Net<W>>> {
    Collect(CoFAttempts(full, bins, lociSubN, draw))
  }

  method MakeCoFSubnetworks<W>(full: Net<W>, bins: seq<seq<Gene>>, lociSubN: seq<Net<W>>, draw: (nat, nat, nat) -> nat)
    returns (r: Result<seq<Net<W>>>)
    ensures r == CoFSubnetworksOf(full, bins, lociSubN, draw)
  {
    ghost var attempts := CoFAttempts(full, bins, lociSubN, draw);
    var coFSubnetworks: seq<Net<W>> := [];
    for i := 0 to |lociSubN|
      invariant Collect(attempts[..i]) == Ok(coFSubnetworks)
    {
      var sub := NullSubnetwork(full, bins, lociSubN[i], CoFDraws(draw, i));
      assert sub == attempts[i];
      PrefixSnoc(attempts, i);
      CollectSnoc(attempts[..i], sub);
      if sub.Err? {
        CollectErrPersists(attempts, i + 1);
        return Err(sub.error);
      }
      coFSubnetworks := coFSubnetworks + [sub.value];
    }
    assert attempts[..|lociSubN|] == attempts;
    return Ok(coFSubnetworks);
  }

  /**
   * One null subnetwork per reference subnetwork, the `r`-th matched to
   * the `r`-th reference; the call fails exactly when one of them does.
   */
  lemma CoFSubnetworksCount<W>(full: Net<W>, bins: seq<seq<Gene>>, lociSubN: seq<Net<W>>, draw: (nat, nat, nat) -> nat)
    ensures var r := CoFSubnetworksOf(full, bins, lociSubN, draw);
            && (r.Ok? <==> forall i | 0 <= i < |lociSubN| :: NullSubnetworkOf(full, bins, lociSubN[i], CoFDraws(draw, i)).Ok?)
            && (r.Ok? ==> |r.value| == |lociSubN|)
            && (r.Ok? ==> forall i | 0 <= i < |lociSubN| :: NullSubnetworkOf(full, bins, lociSubN[i], CoFDraws(draw, i)) == Ok(r.value[i]))
  {
    var attempts := CoFAttempts(full, bins, lociSubN, draw);
    CollectSpec(attempts);
    assert forall i | 0 <= i < |lociSubN| :: attempts[i] == NullSubnetworkOf(full, bins, lociSubN[i], CoFDraws(draw, i));
  }
}
