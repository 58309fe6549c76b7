/**
 * Subnetwork construction and degree binning (networkCreation.py).
 *
 * Every `random.choice` is a draw supplied by the caller: a function from
 * the position of the draw to a natural number, reduced to an index by
 * `Pick`. Every index is some draw, so what is proved for all draw
 * functions holds for every outcome of the random choices.
 */
module NetworkCreation {
  import opened Common
  import opened Sorting

  // ---------------------------------------------------------------------
  // Induced edges (lines 30-35 and 142-145)
  // ---------------------------------------------------------------------

  /**
   * Fills the neighbour map of `g1` with the edges of `full` that end in
   * `keys` (the inner loop over `fullNetwork[gene1]`).
   */
  method InducedRow<W>(full: Net<W>, g1: Gene, keys: set<Gene>) returns (row: map<Gene, W>)
    requires g1 in full.adj
    ensures row == Row(full.adj, g1, keys)
  {
    row := map[];
    var rest := full.adj[g1].Keys;
    while rest != {}
      invariant rest <= full.adj[g1].Keys
      invariant row == map g2 | g2 in full.adj[g1].Keys - rest && g2 in keys :: full.adj[g1][g2]
      decreases |rest|
    {
      var g2 :| g2 in rest;
      if g2 in keys {
        row := row[g2 := full.adj[g1][g2]];
      }
      rest := rest - {g2};
    }
  }

  /**
   * The edge loop over the chosen genes: every gene must be a key of
   * `full` (else `fullNetwork[gene1]` raises KeyError) and its row becomes
   * its edges into the chosen set.
   */
  method InducedEdges<W>(full: Net<W>, nodes: seq<Gene>) returns (r: Result<map<Gene, map<Gene, W>>>)
    requires Distinct(nodes)
    ensures (forall k | 0 <= k < |nodes| :: nodes[k] in full.adj) ==>
              SetOf(nodes) <= full.adj.Keys && r == Ok(Induce(full.adj, SetOf(nodes)))
    ensures !(forall k | 0 <= k < |nodes| :: nodes[k] in full.adj) ==> r == Err(KeyError)
  {
    var keys := SetOf(nodes);
    var adj: map<Gene, map<Gene, W>> := map g | g in keys :: map[];
    for i := 0 to |nodes|
      invariant forall k | 0 <= k < i :: nodes[k] in full.adj
      invariant adj.Keys == keys
      invariant forall k | 0 <= k < i :: adj[nodes[k]] == Row(full.adj, nodes[k], keys)
      invariant forall k | i <= k < |nodes| :: adj[nodes[k]] == map[]
    {
      var g1 := nodes[i];
      if g1 !in full.adj {
        return Err(KeyError);
      }
      var row := InducedRow(full, g1, keys);
      adj := adj[g1 := row];
    }
    assert keys <= full.adj.Keys;
    forall g | g in keys ensures adj[g] == Row(full.adj, g, keys) {
      var k :| 0 <= k < |nodes| && nodes[k] == g;
    }
    var ind := Induce(full.adj, keys);
    assert adj.Keys == ind.Keys;
    assert forall g | g in keys :: ind[g] == Row(full.adj, g, keys);
    assert adj == ind;
    return Ok(adj);
  }

  // ---------------------------------------------------------------------
  // createSubnetwork (lines 21-37)
  // ---------------------------------------------------------------------

  predicate NoEmptyLocus(loci: seq<seq<Gene>>) {
    forall j | 0 <= j < |loci| :: loci[j] != []
  }

  /** No gene is listed in two loci. */
  ghost predicate DisjointLoci(loci: seq<seq<Gene>>) {
    forall i, j | 0 <= i < j < |loci| :: SetOf(loci[i]) !! SetOf(loci[j])
  }

  /** The gene drawn from locus `j` (line 26) is `Pick(loci[j], choice(j))`. */
  function ChosenGenes(loci: seq<seq<Gene>>, choice: nat -> nat): (c: seq<Gene>)
    requires NoEmptyLocus(loci)
    ensures |c| == |loci|
    ensures forall j | 0 <= j < |loci| :: c[j] == Pick(loci[j], choice(j))
  {
    if loci == [] then []
    else ChosenGenes(loci[..|loci| - 1], choice) + [Pick(loci[|loci| - 1], choice(|loci| - 1))]
  }

  /**
   * What `createSubnetwork` returns: IndexError if a locus is empty (the
   * draw fails), KeyError if a drawn gene is not a key of `full`, else
   * the chosen genes in locus order (a gene drawn twice kept once) with
   * the subgraph of `full` they induce.
   */
  function SubnetworkOf<W>(full: Net<W>, loci: seq<seq<Gene>>, choice: nat -> nat): Result<Net<W>> {
    if !NoEmptyLocus(loci) then Err(IndexError)
    else
      var c := ChosenGenes(loci, choice);
      if forall k | 0 <= k < |c| :: c[k] in full.adj then
        assert SetOf(c) <= full.adj.Keys;
        Ok(Net(Dedup(c), Induce(full.adj, SetOf(c))))
      else Err(KeyError)
  }

  lemma ChosenGenesPrefix(loci: seq<seq<Gene>>, choice: nat -> nat, j: nat)
    requires j < |loci| && NoEmptyLocus(loci[..j]) && loci[j] != []
    ensures NoEmptyLocus(loci[..j + 1])
    ensures ChosenGenes(loci[..j + 1], choice) == ChosenGenes(loci[..j], choice) + [Pick(loci[j], choice(j))]
  {
    assert loci[..j + 1] == loci[..j] + [loci[j]];
    assert loci[..j + 1][..j] == loci[..j];
  }

  /** `createSubnetwork` with the draw for locus `j` given by `choice(j)`. */
  method CreateSubnetwork<W>(full: Net<W>, loci: seq<seq<Gene>>, choice: nat -> nat) returns (r: Result<Net<W>>)
    ensures r == SubnetworkOf(full, loci, choice)
  {
    var nodes := DrawLoci(loci, choice);
    if nodes.Err? {
      return Err(IndexError);
    }
    var c := ChosenGenes(loci, choice);
    DedupKeys(c);
    var edges := InducedEdges(full, nodes.value);
    KeysOfDrawn(full, nodes.value, c);
    if edges.Err? {
      return Err(KeyError);
    }
    return Ok(Net(nodes.value, edges.value));
  }

  /** One pass of the first loop of `createSubnetwork`: the draw from locus `j`, kept once. */
  method DrawLocus(loci: seq<seq<Gene>>, choice: nat -> nat, j: nat, nodes: seq<Gene>) returns (next: seq<Gene>)
    requires j < |loci| && loci[j] != []
    requires NoEmptyLocus(loci[..j]) && nodes == Dedup(ChosenGenes(loci[..j], choice))
    ensures NoEmptyLocus(loci[..j + 1]) && next == Dedup(ChosenGenes(loci[..j + 1], choice))
  {
    ChosenGenesPrefix(loci, choice, j);
    DedupSnoc(ChosenGenes(loci[..j], choice), Pick(loci[j], choice(j)));
    next := Touch(nodes, Pick(loci[j], choice(j)));
  }

  /** The first loop of `createSubnetwork`: one draw per locus, in locus order. */
  method DrawLoci(loci: seq<seq<Gene>>, choice: nat -> nat) returns (r: Result<seq<Gene>>)
    ensures r.Ok? <==> NoEmptyLocus(loci)
    ensures r.Err? ==> r.error == IndexError
    ensures r.Ok? ==> r.value == Dedup(ChosenGenes(loci, choice))
  {
    var nodes: seq<Gene> := [];
    for j := 0 to |loci|
      invariant NoEmptyLocus(loci[..j])
      invariant nodes == Dedup(ChosenGenes(loci[..j], choice))
    {
      if loci[j] == [] {
        return Err(IndexError);
      }
      nodes := DrawLocus(loci, choice, j, nodes);
    }
    assert loci[..|loci|] == loci;
    return Ok(nodes);
  }

  lemma KeysOfDrawn<W>(full: Net<W>, nodes: seq<Gene>, c: seq<Gene>)
    requires SetOf(nodes) == SetOf(c)
    ensures (forall k | 0 <= k < |nodes| :: nodes[k] in full.adj) <==> (forall k | 0 <= k < |c| :: c[k] in full.adj)
  {
    if forall k | 0 <= k < |nodes| :: nodes[k] in full.adj {
      forall k | 0 <= k < |c| ensures c[k] in full.adj {
        assert c[k] in SetOf(c);
      }
    }
    if forall k | 0 <= k < |c| :: c[k] in full.adj {
      forall k | 0 <= k < |nodes| ensures nodes[k] in full.adj {
        assert nodes[k] in SetOf(nodes);
      }
    }
  }

  /** The chosen genes are the subnetwork's keys, each drawn from its own locus. */
  lemma SubnetworkNodes<W>(full: Net<W>, loci: seq<seq<Gene>>, choice: nat -> nat)
    requires SubnetworkOf(full, loci, choice).Ok?
    ensures NoEmptyLocus(loci)
    ensures var sub := SubnetworkOf(full, loci, choice).value;
            var c := ChosenGenes(loci, choice);
            && Valid(sub)
            && sub.adj.Keys == SetOf(c)
            && (forall j | 0 <= j < |loci| :: c[j] in loci[j])
  {
    var sub := SubnetworkOf(full, loci, choice).value;
    var c := ChosenGenes(loci, choice);
    DedupKeys(c);
    forall g ensures g in sub.adj <==> g in sub.nodes {
      assert g in sub.nodes <==> g in SetOf(sub.nodes);
    }
  }

  /**
   * There are at most as many chosen genes as loci, and exactly as many
   * when the loci are disjoint.
   */
  lemma SubnetworkSize<W>(full: Net<W>, loci: seq<seq<Gene>>, choice: nat -> nat)
    requires SubnetworkOf(full, loci, choice).Ok?
    ensures |SubnetworkOf(full, loci, choice).value.nodes| <= |loci|
    ensures DisjointLoci(loci) ==> |SubnetworkOf(full, loci, choice).value.nodes| == |loci|
  {
    var c := ChosenGenes(loci, choice);
    DedupKeys(c);
    if DisjointLoci(loci) {
      forall i, j | 0 <= i < j < |c| ensures c[i] != c[j] {
        assert c[i] in SetOf(loci[i]) && c[j] in SetOf(loci[j]);
      }
      DedupOfDistinct(c);
    }
  }

  /**
   * g1 -> g2 is an edge of the subnetwork, with `full`'s weight, exactly
   * when both are chosen genes and g2 is a neighbour of g1 in `full`; a
   * symmetric `full` gives a symmetric subnetwork.
   */
  lemma SubnetworkEdges<W>(full: Net<W>, loci: seq<seq<Gene>>, choice: nat -> nat, g1: Gene, g2: Gene)
    requires SubnetworkOf(full, loci, choice).Ok?
    ensures var sub := SubnetworkOf(full, loci, choice).value;
            g1 in sub.adj ==>
              g1 in full.adj &&
              (g2 in sub.adj[g1] <==> g2 in sub.adj && g2 in full.adj[g1]) &&
              (g2 in sub.adj[g1] ==> sub.adj[g1][g2] == full.adj[g1][g2])
    ensures Symmetric(full.adj) ==> Symmetric(SubnetworkOf(full, loci, choice).value.adj)
  {
    var c := ChosenGenes(loci, choice);
    if Symmetric(full.adj) {
      InduceSymmetric(full.adj, SetOf(c));
    }
  }

  // ---------------------------------------------------------------------
  // makeLociSubnetworks (lines 11-15)
  // ---------------------------------------------------------------------

  /** The draws of the `i`-th subnetwork. */
  function NetworkDraws(choice: (nat, nat) -> nat, i: nat): nat -> nat {
    j => choice(i, j)
  }

  /** The `n` attempts of `makeLociSubnetworks`, the `i`-th with draws `i`. */
  function Attempts<W>(full: Net<W>, loci: seq<seq<Gene>>, choice: (nat, nat) -> nat, n: nat): seq<Result<Net<W>>> {
    seq(n, i requires 0 <= i < n => SubnetworkOf(full, loci, NetworkDraws(choice, i)))
  }

  /**
   * What `makeLociSubnetworks` returns: `range(numNetworks)` is empty for
   * `numNetworks <= 0`; otherwise the subnetworks in order, or the first
   * exception raised.
   */
  function LociSubnetworksOf<W>(numNetworks: int, full: Net<W>, loci: seq<seq<Gene>>, choice: (nat, nat) -> nat): Result<seq<Net<W>>> {
    if numNetworks <= 0 then Ok([]) else Collect(Attempts(full, loci, choice, numNetworks))
  }

  method MakeLociSubnetworks<W>(numNetworks: int, full: Net<W>, loci: seq<seq<Gene>>, choice: (nat, nat) -> nat)
    returns (r: Result<seq<Net<W>>>)
    ensures r == LociSubnetworksOf(numNetworks, full, loci, choice)
  {
    var nets: seq<Net<W>> := [];
    if numNetworks <= 0 {
      return Ok(nets);
    }
    ghost var attempts := Attempts(full, loci, choice, numNetworks);
    var i := 0;
    while i < numNetworks
      invariant 0 <= i <= numNetworks
      invariant Collect(attempts[..i]) == Ok(nets)
    {
      var sub := CreateSubnetwork(full, loci, NetworkDraws(choice, i));
      assert sub == attempts[i];
      PrefixSnoc(attempts, i);
      CollectSnoc(attempts[..i], sub);
      if sub.Err? {
        CollectErrPersists(attempts, i + 1);
        return Err(sub.error);
      }
      nets := nets + [sub.value];
      i := i + 1;
    }
    assert attempts[..numNetworks] == attempts;
    r := Ok(nets);
  }

  /**
   * `makeLociSubnetworks` returns exactly `numNetworks` subnetworks (none
   * for a count `<= 0`), the `i`-th built with draws `i`; it fails exactly
   * when one of them does.
   */
  lemma LociSubnetworksCount<W>(numNetworks: int, full: Net<W>, loci: seq<seq<Gene>>, choice: (nat, nat) -> nat)
    ensures var r := LociSubnetworksOf(numNetworks, full, loci, choice);
            && (r.Ok? <==> forall i: nat | i < numNetworks :: SubnetworkOf(full, loci, NetworkDraws(choice, i)).Ok?)
            && (r.Ok? ==> |r.value| == if numNetworks > 0 then numNetworks else 0)
            && (r.Ok? ==> forall i | 0 <= i < |r.value| :: SubnetworkOf(full, loci, NetworkDraws(choice, i)) == Ok(r.value[i]))
  {
    if numNetworks > 0 {
      var attempts := Attempts(full, loci, choice, numNetworks);
      CollectSpec(attempts);
      assert forall i: nat | i < numNetworks :: attempts[i] == SubnetworkOf(full, loci, NetworkDraws(choice, i));
    }
  }
}
