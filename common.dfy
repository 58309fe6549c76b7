/**
 * Shared vocabulary of the model: genes, Python's exceptions as a result
 * type, the dict-of-dicts networks the program passes around, and the
 * sequence helpers the other modules are written with.
 */
module Common {

  /** A gene (or protein) identifier; no structure is interpreted. */
  type Gene = string

  /** The Python exceptions the modelled code can raise. */
  datatype Error =
    | IndexError         // random.choice on an empty list, a list index past the end
    | KeyError           // a dict lookup of a missing key
    | ZeroDivisionError  // a division by zero
    | ValueError         // tuple unpacking of the wrong number of fields
    | TypeError          // reduce() over an empty list
    | UnboundLocalError  // a local variable read before any assignment

  datatype Result<T> = Ok(value: T) | Err(error: Error)

  datatype Option<T> = None | Some(value: T)

  /**
   * A loop that appends one result per step and stops at the first
   * exception: the values of `rs` if all succeed, else the first error.
   */
  function Collect<T>(rs: seq<Result<T>>): Result<seq<T>> {
    if rs == [] then Ok([])
    else
      match Collect(rs[..|rs| - 1])
      case Err(e) => Err(e)
      case Ok(vs) =>
        match rs[|rs| - 1]
        case Err(e) => Err(e)
        case Ok(v) => Ok(vs + [v])
  }

  lemma {:induction false} CollectSpec<T>(rs: seq<Result<T>>)
    ensures Collect(rs).Ok? <==> forall i | 0 <= i < |rs| :: rs[i].Ok?
    ensures Collect(rs).Ok? ==> |Collect(rs).value| == |rs| && forall i | 0 <= i < |rs| :: rs[i] == Ok(Collect(rs).value[i])
    ensures Collect(rs).Err? ==> exists i | 0 <= i < |rs| :: rs[i] == Err(Collect(rs).error) && forall j | 0 <= j < i :: rs[j].Ok?
  {
    if rs != [] {
      var init := rs[..|rs| - 1];
      CollectSpec(init);
      assert forall i | 0 <= i < |init| :: init[i] == rs[i];
      if Collect(init).Err? {
        var i :| 0 <= i < |init| && init[i] == Err(Collect(init).error) && forall j | 0 <= j < i :: init[j].Ok?;
        assert rs[i] == Err(Collect(rs).error);
      } else if rs[|rs| - 1].Err? {
        assert rs[|rs| - 1] == Err(Collect(rs).error);
      }
    }
  }

  /** One more step of the loop. */
  lemma CollectSnoc<T>(rs: seq<Result<T>>, x: Result<T>)
    ensures Collect(rs + [x]) == match Collect(rs)
                                 case Err(e) => Err(e)
                                 case Ok(vs) => (match x case Err(e) => Err(e) case Ok(v) => Ok(vs + [v]))
  {
    assert (rs + [x])[..|rs|] == rs;
  }

  /** Once a prefix has failed, the whole loop fails with the same error. */
  lemma {:induction false} CollectErrPersists<T>(rs: seq<Result<T>>, m: nat)
    requires m <= |rs| && Collect(rs[..m]).Err?
    ensures Collect(rs) == Collect(rs[..m])
    decreases |rs| - m
  {
    if m < |rs| {
      var init := rs[..|rs| - 1];
      assert init[..m] == rs[..m];
      CollectErrPersists(init, m);
    } else {
      assert rs[..m] == rs;
    }
  }

  /**
   * A Python dict `gene -> {gene -> weight}`. `nodes` is the outer dict's
   * insertion order (the order `for g in d` visits keys); the inner dicts
   * are maps because no modelled result depends on their order.
   */
  datatype Net<W> = Net(nodes: seq<Gene>, adj: map<Gene, map<Gene, W>>)

  /** What every Python dict satisfies: each key once, in order. */
  ghost predicate Valid<W>(n: Net<W>) {
    Distinct(n.nodes) && (forall g :: g in n.adj <==> g in n.nodes)
  }

  predicate Distinct<T(==)>(s: seq<T>) {
    forall i, j | 0 <= i < j < |s| :: s[i] != s[j]
  }

  function SetOf<T(==)>(s: seq<T>): set<T> {
    set x | x in s
  }

  /** The key order after `d[k] = ...`: a new key goes last, an old one stays. */
  function Touch<T(==)>(keys: seq<T>, k: T): seq<T> {
    if k in keys then keys else keys + [k]
  }

  lemma TouchKeys<T>(keys: seq<T>, k: T)
    ensures SetOf(Touch(keys, k)) == SetOf(keys) + {k}
    ensures Distinct(keys) ==> Distinct(Touch(keys, k))
    ensures |Touch(keys, k)| <= |keys| + 1
  {
  }

  /** The key order of a dict built by assigning the keys of `s` in turn. */
  function Dedup<T(==)>(s: seq<T>): seq<T> {
    if s == [] then [] else Touch(Dedup(s[..|s| - 1]), s[|s| - 1])
  }

  /** Each key once, the same keys, no more of them than assignments. */
  lemma {:induction false} DedupKeys<T>(s: seq<T>)
    ensures Distinct(Dedup(s))
    ensures SetOf(Dedup(s)) == SetOf(s)
    ensures |Dedup(s)| <= |s|
  {
    if s != [] {
      var init := s[..|s| - 1];
      DedupKeys(init);
      TouchKeys(Dedup(init), s[|s| - 1]);
      assert SetOf(s) == SetOf(init) + {s[|s| - 1]} by {
        assert s == init + [s[|s| - 1]];
      }
    }
  }

  /** One more element of `s` read. */
  lemma PrefixSnoc<T>(s: seq<T>, i: nat)
    requires i < |s|
    ensures s[..i + 1] == s[..i] + [s[i]]
  {
  }

  lemma DedupSnoc<T>(s: seq<T>, x: T)
    ensures Dedup(s + [x]) == Touch(Dedup(s), x)
  {
    assert (s + [x])[..|s|] == s;
  }

  lemma {:induction false} DedupOfDistinct<T>(s: seq<T>)
    requires Distinct(s)
    ensures Dedup(s) == s
  {
    if s != [] {
      var init := s[..|s| - 1];
      DedupOfDistinct(init);
      assert s[|s| - 1] !in init;
      assert init + [s[|s| - 1]] == s;
    }
  }

  /** `random.choice(xs)`: the draw is the caller-supplied `k`, reduced to an index. */
  function Pick<T>(xs: seq<T>, k: nat): (r: T)
    requires xs != []
    ensures r in xs
  {
    xs[k % |xs|]
  }

  /** Every element of a non-empty list is some draw of `Pick`. */
  lemma PickReachesAll<T>(xs: seq<T>, i: nat)
    requires i < |xs|
    ensures Pick(xs, i) == xs[i]
  {
    ModBelow(i, |xs|);
  }

  lemma ModBelow(k: nat, n: nat)
    requires k < n
    ensures k % n == k
  {
  }

  /** `reduce(operator.add, ss)` for a non-empty `ss`, and `[]` for an empty one. */
  function Concat<T>(ss: seq<seq<T>>): seq<T> {
    if ss == [] then [] else Concat(ss[..|ss| - 1]) + ss[|ss| - 1]
  }

  lemma {:induction false} ConcatLength<T>(ss: seq<seq<T>>)
    ensures |Concat(ss)| == SumLengths(ss)
  {
    if ss != [] {
      ConcatLength(ss[..|ss| - 1]);
    }
  }

  lemma {:induction false} ConcatMember<T>(ss: seq<seq<T>>, x: T)
    ensures x in Concat(ss) <==> exists i :: 0 <= i < |ss| && x in ss[i]
  {
    if ss != [] {
      var init := ss[..|ss| - 1];
      ConcatMember(init, x);
      assert forall i :: 0 <= i < |init| ==> init[i] == ss[i];
    }
  }

  lemma ConcatAppend<T>(ss: seq<seq<T>>, tail: seq<T>)
    ensures Concat(ss + [tail]) == Concat(ss) + tail
  {
    assert (ss + [tail])[..|ss|] == ss;
  }

  function SumLengths<T>(ss: seq<seq<T>>): nat {
    if ss == [] then 0 else SumLengths(ss[..|ss| - 1]) + |ss[|ss| - 1]|
  }

  /** `sum(s)` over exact reals. */
  function SumReals(s: seq<real>): real {
    if s == [] then 0.0 else SumReals(s[..|s| - 1]) + s[|s| - 1]
  }

  lemma SumRealsSnoc(s: seq<real>, x: real)
    ensures SumReals(s + [x]) == SumReals(s) + x
  {
    assert (s + [x])[..|s|] == s;
  }

  lemma {:induction false} SumRealsBounds(s: seq<real>, lo: real, hi: real)
    requires forall i | 0 <= i < |s| :: lo <= s[i] <= hi
    ensures |s| as real * lo <= SumReals(s) <= |s| as real * hi
  {
    if s != [] {
      var init := s[..|s| - 1];
      SumRealsBounds(init, lo, hi);
      var n := |init| as real;
      assert (n + 1.0) * lo == n * lo + lo && (n + 1.0) * hi == n * hi + hi;
    }
  }

  /** `sum(s) / len(s)` for a non-empty `s`. */
  function Mean(s: seq<real>): real
    requires s != []
  {
    SumReals(s) / |s| as real
  }

  /** A mean lies between any lower and upper bound of the values. */
  lemma MeanBounds(s: seq<real>, lo: real, hi: real)
    requires s != [] && forall i | 0 <= i < |s| :: lo <= s[i] <= hi
    ensures lo <= Mean(s) <= hi
  {
    SumRealsBounds(s, lo, hi);
    var n := |s| as real;
    DivideBounds(SumReals(s), n, lo, hi);
  }

  lemma DivideBounds(t: real, n: real, lo: real, hi: real)
    requires n > 0.0 && n * lo <= t <= n * hi
    ensures lo <= t / n <= hi
  {
    assert t / n * n == t;
  }

  /** Python's `s[:k]` for any integer `k`, negative ones counting from the end. */
  function PyTake<T>(s: seq<T>, k: int): (r: seq<T>)
    ensures k >= 0 ==> r == s[..if k < |s| then k else |s|]
    ensures k < 0 ==> r == s[..if |s| + k > 0 then |s| + k else 0]
  {
    if k >= 0 then s[..if k < |s| then k else |s|]
    else s[..if |s| + k > 0 then |s| + k else 0]
  }

  function Clamp(x: nat, n: nat): nat {
    if x < n then x else n
  }

  /** Python's `s[start:start + width]` for `start >= 0`: both ends clamp to the length. */
  function Window<T>(s: seq<T>, start: nat, width: nat): seq<T> {
    s[Clamp(start, |s|)..Clamp(start + width, |s|)]
  }

  lemma SliceJoin<T>(s: seq<T>, lo: nat, hi: nat)
    requires lo <= hi <= |s|
    ensures s[..lo] + s[lo..hi] == s[..hi]
  {
  }

  /** A window holds at most `width` elements, each taken from its offset in `s`. */
  lemma WindowAt<T>(s: seq<T>, start: nat, width: nat, k: nat)
    requires k < |Window(s, start, width)|
    ensures k < width && start + k < |s| && Window(s, start, width)[k] == s[start + k]
  {
  }

  lemma WindowLength<T>(s: seq<T>, start: nat, width: nat)
    ensures |Window(s, start, width)| <= width
  {
  }

  /**
   * The number of neighbours of `g`, `len(full[g])`, and 0 for a gene that
   * is not a key (the convention of networkCreation.py:114-117).
   */
  function Degree<W>(full: Net<W>, g: Gene): nat {
    if g in full.adj then |full.adj[g]| else 0
  }

  /** Sort key "number of edges", as a real so that it can be passed to `SortBy`. */
  function DegreeKey<W>(full: Net<W>): Gene -> real {
    g => Degree(full, g) as real
  }

  /** The neighbour map of `g1` restricted to the genes in `keys`. */
  function Row<W>(adj: map<Gene, map<Gene, W>>, g1: Gene, keys: set<Gene>): map<Gene, W>
    requires g1 in adj
  {
    map g2 | g2 in adj[g1] && g2 in keys :: adj[g1][g2]
  }

  /** The subgraph of `adj` induced by `keys`. */
  function Induce<W>(adj: map<Gene, map<Gene, W>>, keys: set<Gene>): map<Gene, map<Gene, W>>
    requires keys <= adj.Keys
  {
    map g1 | g1 in keys :: Row(adj, g1, keys)
  }

  /** Every edge is stored from both ends with the same weight. */
  ghost predicate Symmetric<W>(adj: map<Gene, map<Gene, W>>) {
    forall a, b :: a in adj && b in adj[a] ==> b in adj && a in adj[b] && adj[b][a] == adj[a][b]
  }

  /** An induced subgraph of a symmetric network is symmetric. */
  lemma InduceSymmetric<W>(adj: map<Gene, map<Gene, W>>, keys: set<Gene>)
    requires keys <= adj.Keys
    requires Symmetric(adj)
    ensures Symmetric(Induce(adj, keys))
  {
    var sub := Induce(adj, keys);
    forall a, b | a in sub && b in sub[a]
      ensures b in sub && a in sub[b] && sub[b][a] == sub[a][b]
    {
      assert b in keys && b in adj[a];
    }
  }

  /** Every edge of an induced subgraph is an edge of the network, with its weight. */
  lemma InduceEdges<W>(adj: map<Gene, map<Gene, W>>, keys: set<Gene>, a: Gene, b: Gene)
    requires keys <= adj.Keys
    ensures a in Induce(adj, keys) <==> a in keys
    ensures a in Induce(adj, keys) ==>
      (b in Induce(adj, keys)[a] <==> b in keys && b in adj[a]) &&
      (b in Induce(adj, keys)[a] ==> Induce(adj, keys)[a][b] == adj[a][b])
  {
  }

  lemma DistinctSetSize<T>(s: seq<T>)
    requires Distinct(s)
    ensures |SetOf(s)| == |s|
  {
    if s != [] {
      var init := s[..|s| - 1];
      assert SetOf(s) == SetOf(init) + {s[|s| - 1]};
      assert s[|s| - 1] !in SetOf(init);
      DistinctSetSize(init);
    }
  }

  /** A permutation of a sequence without repetitions has none either. */
  lemma DistinctPerm<T>(a: seq<T>, b: seq<T>)
    requires multiset(a) == multiset(b) && Distinct(a)
    ensures Distinct(b)
  {
    forall i, j | 0 <= i < j < |b| ensures b[i] != b[j] {
      if b[i] == b[j] {
        RepeatCount(b, i, j);
        DistinctCount(a, b[i]);
        assert false;
      }
    }
  }

  lemma RepeatCount<T>(b: seq<T>, i: nat, j: nat)
    requires i < j < |b| && b[i] == b[j]
    ensures multiset(b)[b[i]] >= 2
  {
    assert b == b[..j] + [b[j]] + b[j + 1..];
    assert b[..j][i] == b[i];
  }

  lemma {:induction false} DistinctCount<T>(a: seq<T>, x: T)
    requires Distinct(a)
    ensures multiset(a)[x] <= 1
  {
    if a != [] {
      var init := a[..|a| - 1];
      assert a == init + [a[|a| - 1]];
      DistinctCount(init, x);
      if x == a[|a| - 1] {
        assert x !in init;
      }
    }
  }
}
