/**
 * The cross-locus network of the top genes (networkVisualization.py,
 * `makeCrossLociNetwork`): each listed gene keeps its edges to other
 * listed genes, except those into the locus it belongs to.
 *
 * The locus of a gene is a local variable of the whole function: the
 * loop over the loci has no `break`, so the last locus holding the gene
 * wins, and a gene in no locus reuses the locus of an earlier gene (or
 * raises UnboundLocalError when there is none and the variable is read).
 */
module NetworkVisualization {
  import opened Common

  /** The locus lines 26-28 leave in `loci` for `n`: the last one that contains it. */
  function LastLocus(lociLists: seq<seq<Gene>>, n: Gene): (r: Option<nat>)
    ensures r.Some? ==> r.value < |lociLists| && n in lociLists[r.value]
    ensures r.Some? ==> forall k | r.value < k < |lociLists| :: n !in lociLists[k]
    ensures r.None? ==> forall k | 0 <= k < |lociLists| :: n !in lociLists[k]
  {
    if lociLists == [] then None
    else if n in lociLists[|lociLists| - 1] then Some(|lociLists| - 1)
    else LastLocus(lociLists[..|lociLists| - 1], n)
  }

  /** The value of `loci` after the locus search for `n`, `before` being its value until then. */
  function LociAfter(lociLists: seq<seq<Gene>>, n: Gene, before: Option<seq<Gene>>): Option<seq<Gene>> {
    match LastLocus(lociLists, n)
    case Some(k) => Some(lociLists[k])
    case None => before
  }

  /** Lines 31-34: the edges of `n` to listed genes outside its locus, with their weights. */
  function KeptEdges<W>(edges: map<Gene, W>, nodes: seq<Gene>, loci: seq<Gene>): map<Gene, W> {
    map e | e in edges && e in nodes && e !in loci :: edges[e]
  }

  /** The local state carried from one gene to the next: `loci` and `network`. */
  datatype Cross<W> = Cross(loci: Option<seq<Gene>>, network: Net<W>)

  /**
   * One pass of the loop of lines 23-34 for gene `n`: KeyError when `n`
   * has no entry in `connections`, UnboundLocalError when no locus was
   * ever found and `loci` is read for an edge to a listed gene.
   */
  function CrossStep<W>(st: Cross<W>, n: Gene, nodes: seq<Gene>, connections: map<Gene, map<Gene, W>>,
                        lociLists: seq<seq<Gene>>): Result<Cross<W>>
  {
    var loci := LociAfter(lociLists, n, st.loci);
    if n !in connections then Err(KeyError)
    else
      var edges := connections[n];
      match loci
      case None =>
        if exists e | e in edges :: e in nodes then Err(UnboundLocalError)
        else Ok(Cross(loci, Net(Touch(st.network.nodes, n), st.network.adj[n := map[]])))
      case Some(l) =>
        Ok(Cross(loci, Net(Touch(st.network.nodes, n), st.network.adj[n := KeptEdges(edges, nodes, l)])))
  }

  /** The loop over the genes still to do, `ns`. */
  function CrossFrom<W>(st: Cross<W>, ns: seq<Gene>, nodes: seq<Gene>, connections: map<Gene, map<Gene, W>>,
                        lociLists: seq<seq<Gene>>): Result<Cross<W>>
    decreases |ns|
  {
    if ns == [] then Ok(st)
    else
      match CrossStep(st, ns[0], nodes, connections, lociLists)
      case Err(e) => Err(e)
      case Ok(st') => CrossFrom(st', ns[1..], nodes, connections, lociLists)
  }

  /** What `makeCrossLociNetwork` returns. */
  function CrossLociOf<W>(nodes: seq<Gene>, connections: map<Gene, map<Gene, W>>, lociLists: seq<seq<Gene>>)
    : Result<Net<W>>
  {
    match CrossFrom(Cross(None, Net([], map[])), nodes, nodes, connections, lociLists)
    case Err(e) => Err(e)
    case Ok(st) => Ok(st.network)
  }

  /** Lines 26-28. */
  method FindLoci(lociLists: seq<seq<Gene>>, n: Gene, before: Option<seq<Gene>>) returns (loci: Option<seq<Gene>>)
    ensures loci == LociAfter(lociLists, n, before)
  {
    loci := before;
    for j := 0 to |lociLists|
      invariant loci == LociAfter(lociLists[..j], n, before)
    {
      PrefixSnoc(lociLists, j);
      if n in lociLists[j] {
        loci := Some(lociLists[j]);
      }
    }
    assert lociLists[..|lociLists|] == lociLists;
  }

  /** Lines 31-34 over the edges in whatever order the dict yields them. */
  method KeepEdges<W>(edges: map<Gene, W>, nodes: seq<Gene>, loci: Option<seq<Gene>>) returns (r: Result<map<Gene, W>>)
    ensures loci.None? ==>
              r == if exists e | e in edges :: e in nodes then Err(UnboundLocalError) else Ok(map[])
    ensures loci.Some? ==> r == Ok(KeptEdges(edges, nodes, loci.value))
  {
    var row: map<Gene, W> := map[];
    var todo := edges.Keys;
    while todo != {}
      invariant todo <= edges.Keys
      invariant loci.None? ==> row == map[] && forall e | e in edges && e !in todo :: e !in nodes
      invariant loci.Some? ==> row == map e | e in edges && e !in todo && e in nodes && e !in loci.value :: edges[e]
      decreases |todo|
    {
      var edge :| edge in todo;
      if edge in nodes {
        if loci.None? {
          assert edge in edges && edge in nodes;
          return Err(UnboundLocalError);
        }
        if edge !in loci.value {
          row := row[edge := edges[edge]];
        }
      }
      todo := todo - {edge};
    }
    if loci.Some? {
      assert row == KeptEdges(edges, nodes, loci.value);
    }
    r := Ok(row);
  }

  method MakeCrossLociNetwork<W>(nodes: seq<Gene>, connections: map<Gene, map<Gene, W>>, lociLists: seq<seq<Gene>>)
    returns (r: Result<Net<W>>)
    ensures r == CrossLociOf(nodes, connections, lociLists)
  {
    var network: Net<W> := Net([], map[]);
    var loci: Option<seq<Gene>> := None;
    for i := 0 to |nodes|
      invariant CrossFrom(Cross(None, Net([], map[])), nodes, nodes, connections, lociLists)
                == CrossFrom(Cross(loci, network), nodes[i..], nodes, connections, lociLists)
    {
      var n := nodes[i];
      assert nodes[i..][0] == n && nodes[i..][1..] == nodes[i + 1..];
      ghost var before := Cross(loci, network);
      network := Net(Touch(network.nodes, n), network.adj[n := map[]]);
      loci := FindLoci(lociLists, n, loci);
      if n !in connections {
        return Err(KeyError);
      }
      var row := KeepEdges(connections[n], nodes, loci);
      if row.Err? {
        return Err(row.error);
      }
      network := Net(network.nodes, network.adj[n := row.value]);
      assert network.adj == before.network.adj[n := row.value];
      assert loci.None? ==> row.value == map[];
      assert loci.Some? ==> row.value == KeptEdges(connections[n], nodes, loci.value);
      assert CrossStep(before, n, nodes, connections, lociLists) == Ok(Cross(loci, network));
    }
    assert nodes[|nodes|..] == [];
    r := Ok(network);
  }

  // ---------------------------------------------------------------------
  // Properties
  // ---------------------------------------------------------------------

  /** A gene no locus contains. */
  predicate InNoLocus(lociLists: seq<seq<Gene>>, g: Gene) {
    forall k | 0 <= k < |lociLists| :: g !in lociLists[k]
  }

  /** The row of `a`: a filtered copy of its connections, exactly the kept edges when `a` lies in a locus. */
  ghost predicate RowOk<W>(a: Gene, row: map<Gene, W>, nodes: seq<Gene>, connections: map<Gene, map<Gene, W>>,
                     lociLists: seq<seq<Gene>>)
  {
    && a in connections
    && (forall b | b in row :: b in nodes && b in connections[a] && row[b] == connections[a][b])
    && (LastLocus(lociLists, a).Some? ==> row == KeptEdges(connections[a], nodes, lociLists[LastLocus(lociLists, a).value]))
  }

  /** What the loop state satisfies. */
  ghost predicate RowsOk<W>(st: Cross<W>, nodes: seq<Gene>, connections: map<Gene, map<Gene, W>>,
                            lociLists: seq<seq<Gene>>)
  {
    && Valid(st.network)
    && (st.loci.Some? ==> exists k | 0 <= k < |lociLists| :: st.loci.value == lociLists[k])
    && forall a | a in st.network.adj :: RowOk(a, st.network.adj[a], nodes, connections, lociLists)
  }

  /** The row the step writes for `n`. */
  lemma NewRowOk<W>(st: Cross<W>, n: Gene, nodes: seq<Gene>, connections: map<Gene, map<Gene, W>>,
                    lociLists: seq<seq<Gene>>)
    requires st.loci.Some? ==> exists k | 0 <= k < |lociLists| :: st.loci.value == lociLists[k]
    requires CrossStep(st, n, nodes, connections, lociLists).Ok?
    ensures var st' := CrossStep(st, n, nodes, connections, lociLists).value;
            && n in st'.network.adj
            && RowOk(n, st'.network.adj[n], nodes, connections, lociLists)
            && (st'.loci.Some? ==> exists k | 0 <= k < |lociLists| :: st'.loci.value == lociLists[k])
  {
  }

  lemma StepOk<W>(st: Cross<W>, n: Gene, nodes: seq<Gene>, connections: map<Gene, map<Gene, W>>,
                  lociLists: seq<seq<Gene>>)
    requires RowsOk(st, nodes, connections, lociLists)
    ensures var r := CrossStep(st, n, nodes, connections, lociLists);
            r.Ok? ==> RowsOk(r.value, nodes, connections, lociLists) && r.value.network.nodes == Touch(st.network.nodes, n)
  {
    var r := CrossStep(st, n, nodes, connections, lociLists);
    if r.Ok? {
      TouchKeys(st.network.nodes, n);
      NewRowOk(st, n, nodes, connections, lociLists);
      var net, old_ := r.value.network, st.network;
      assert net.adj == old_.adj[n := net.adj[n]];
      assert net.nodes == Touch(old_.nodes, n);
      forall a | a in net.adj ensures RowOk(a, net.adj[a], nodes, connections, lociLists) {
        if a != n {
          assert net.adj[a] == old_.adj[a];
        }
      }
      assert forall g :: g in net.adj <==> g in net.nodes;
    }
  }

  lemma {:induction false} FromOk<W>(st: Cross<W>, done: seq<Gene>, ns: seq<Gene>, nodes: seq<Gene>,
                                     connections: map<Gene, map<Gene, W>>, lociLists: seq<seq<Gene>>)
    requires RowsOk(st, nodes, connections, lociLists) && st.network.nodes == Dedup(done)
    ensures var r := CrossFrom(st, ns, nodes, connections, lociLists);
            r.Ok? ==> RowsOk(r.value, nodes, connections, lociLists) && r.value.network.nodes == Dedup(done + ns)
    decreases |ns|
  {
    if ns == [] {
      assert done + ns == done;
    } else {
      var r := CrossStep(st, ns[0], nodes, connections, lociLists);
      if r.Ok? {
        StepOk(st, ns[0], nodes, connections, lociLists);
        DedupSnoc(done, ns[0]);
        FromOk(r.value, done + [ns[0]], ns[1..], nodes, connections, lociLists);
        assert done + [ns[0]] + ns[1..] == done + ns;
      }
    }
  }

  /**
   * A successful result has one key per listed gene, in the order of
   * first listing; every edge is an edge of `connections` to a listed
   * gene, with its weight; and for a gene that lies in a locus the edges
   * are exactly its connections to listed genes outside the last locus
   * holding it.
   */
  lemma CrossLociSpec<W>(nodes: seq<Gene>, connections: map<Gene, map<Gene, W>>, lociLists: seq<seq<Gene>>,
                         a: Gene, b: Gene)
    ensures var r := CrossLociOf(nodes, connections, lociLists);
            r.Ok? ==>
              && Valid(r.value)
              && r.value.nodes == Dedup(nodes)
              && (a in r.value.adj <==> a in nodes)
              && (a in r.value.adj && b in r.value.adj[a] ==>
                    b in nodes && a in connections && b in connections[a] && r.value.adj[a][b] == connections[a][b])
              && (a in r.value.adj && LastLocus(lociLists, a).Some? ==>
                    a in connections &&
                    (b in r.value.adj[a] <==>
                       b in connections[a] && b in nodes && b !in lociLists[LastLocus(lociLists, a).value]))
  {
    var st0 := Cross(None, Net([], map[]));
    assert Dedup<Gene>([]) == [];
    FromOk(st0, [], nodes, nodes, connections, lociLists);
    assert [] + nodes == nodes;
    DedupKeys(nodes);
    if CrossLociOf(nodes, connections, lociLists).Ok? {
      var net := CrossLociOf(nodes, connections, lociLists).value;
      assert a in net.adj <==> a in SetOf(net.nodes);
    }
  }

  /** No gene is in two loci. */
  predicate DisjointLoci(lociLists: seq<seq<Gene>>) {
    forall i, j, g | 0 <= i < j < |lociLists| && g in lociLists[i] :: g !in lociLists[j]
  }

  /** With disjoint loci, no edge of the result joins two genes of one locus. */
  lemma NoEdgeWithinLocus<W>(nodes: seq<Gene>, connections: map<Gene, map<Gene, W>>, lociLists: seq<seq<Gene>>,
                             a: Gene, b: Gene, k: nat)
    requires DisjointLoci(lociLists)
    requires k < |lociLists| && a in lociLists[k] && b in lociLists[k]
    ensures var r := CrossLociOf(nodes, connections, lociLists);
            r.Ok? && a in r.value.adj ==> b !in r.value.adj[a]
  {
    CrossLociSpec(nodes, connections, lociLists, a, b);
    var last := LastLocus(lociLists, a);
    assert last.Some? && last.value >= k;
    assert last.value == k;
  }

  /** Every gene before and including position `i` lies in no locus. */
  predicate UnlocatedUpTo(ns: seq<Gene>, i: nat, lociLists: seq<seq<Gene>>)
    requires i < |ns|
  {
    forall j | 0 <= j <= i :: InNoLocus(lociLists, ns[j])
  }

  /** The gene at `i` makes the loop fail, given the `loci` it started with. */
  predicate FailsAt<W>(started: Option<seq<Gene>>, ns: seq<Gene>, i: nat, nodes: seq<Gene>,
                       connections: map<Gene, map<Gene, W>>, lociLists: seq<seq<Gene>>)
    requires i < |ns|
  {
    || ns[i] !in connections
    || (started.None? && UnlocatedUpTo(ns, i, lociLists) && exists e | e in connections[ns[i]] :: e in nodes)
  }

  lemma LociAfterNone(lociLists: seq<seq<Gene>>, n: Gene, before: Option<seq<Gene>>)
    ensures LociAfter(lociLists, n, before).None? <==> before.None? && InNoLocus(lociLists, n)
  {
    if LastLocus(lociLists, n).None? {
      assert forall k | 0 <= k < |lociLists| :: n !in lociLists[k];
    }
  }

  lemma {:induction false} FromFails<W>(st: Cross<W>, ns: seq<Gene>, nodes: seq<Gene>,
                                        connections: map<Gene, map<Gene, W>>, lociLists: seq<seq<Gene>>)
    ensures var r := CrossFrom(st, ns, nodes, connections, lociLists);
            && (r.Err? <==> exists i | 0 <= i < |ns| :: FailsAt(st.loci, ns, i, nodes, connections, lociLists))
            && (r.Err? ==> r.error == KeyError || r.error == UnboundLocalError)
    decreases |ns|
  {
    if ns != [] {
      var n := ns[0];
      LociAfterNone(lociLists, n, st.loci);
      var step := CrossStep(st, n, nodes, connections, lociLists);
      if step.Err? {
        assert FailsAt(st.loci, ns, 0, nodes, connections, lociLists);
      } else {
        var st' := step.value;
        FromFails(st', ns[1..], nodes, connections, lociLists);
        assert !FailsAt(st.loci, ns, 0, nodes, connections, lociLists);
        forall i | 0 <= i < |ns| - 1
          ensures FailsAt(st'.loci, ns[1..], i, nodes, connections, lociLists)
              <==> FailsAt(st.loci, ns, i + 1, nodes, connections, lociLists)
        {
          assert ns[1..][i] == ns[i + 1];
          if st'.loci.None? {
            assert UnlocatedUpTo(ns[1..], i, lociLists) <==> UnlocatedUpTo(ns, i + 1, lociLists) by {
              assert forall j | 0 <= j <= i :: ns[1..][j] == ns[j + 1];
            }
          } else if st.loci.None? {
            assert !UnlocatedUpTo(ns, i + 1, lociLists);
          }
        }
        if exists i | 0 <= i < |ns| :: FailsAt(st.loci, ns, i, nodes, connections, lociLists) {
          var i :| 0 <= i < |ns| && FailsAt(st.loci, ns, i, nodes, connections, lociLists);
          assert i > 0;
          assert FailsAt(st'.loci, ns[1..], i - 1, nodes, connections, lociLists);
        }
      }
    }
  }

  /**
   * The function fails exactly when some gene has no entry in
   * `connections`, or no gene up to and including it lies in a locus
   * while it has an edge to a listed gene; the error is then KeyError or
   * UnboundLocalError.
   */
  lemma CrossLociFails<W>(nodes: seq<Gene>, connections: map<Gene, map<Gene, W>>, lociLists: seq<seq<Gene>>)
    ensures var r := CrossLociOf(nodes, connections, lociLists);
            && (r.Err? <==> exists i | 0 <= i < |nodes| :: FailsAt(None, nodes, i, nodes, connections, lociLists))
            && (r.Err? ==> r.error == KeyError || r.error == UnboundLocalError)
  {
    FromFails(Cross(None, Net([], map[])), nodes, nodes, connections, lociLists);
  }
}
