/**
 * Gene scoring and top-k selection (geneScoring.py).
 *
 * `getGeneScores` walks every loci subnetwork; for each chosen gene it
 * finds the gene's locus and gives every gene of that locus one score: the
 * weight of its edge to the last other subnetwork gene it touches, or 0.
 * `getGeneScoreAvg` averages the lists and `getTopLociGenes` keeps the
 * best-scoring genes of each locus.
 */
module GeneScoring {
  import opened Common
  import opened Sorting

  // ---------------------------------------------------------------------
  // The geneScores dictionary (lines 17, 42-45)
  // ---------------------------------------------------------------------

  /** `geneScores`: gene -> the scores it received, keys in insertion order. */
  datatype Scores = Scores(keys: seq<Gene>, lists: map<Gene, seq<real>>)

  const NoScores: Scores := Scores([], map[])

  /** What a Python dict satisfies: each key once, the listed keys are the stored ones. */
  ghost predicate ValidScores(s: Scores) {
    Distinct(s.keys) && (forall g :: g in s.lists <==> g in s.keys)
  }

  /** No gene has an empty list (so its average exists). */
  ghost predicate NonEmptyLists(s: Scores) {
    forall g | g in s.lists :: s.lists[g] != []
  }

  /** The list of `g`, and `[]` for a gene that has none yet. */
  function ListOf(s: Scores, g: Gene): seq<real> {
    if g in s.lists then s.lists[g] else []
  }

  /** `geneScores[gene].append(geneS)`, or `geneScores[gene] = [geneS]` for a new gene (lines 42-45). */
  function AppendScore(s: Scores, g: Gene, v: real): (r: Scores)
    ensures ListOf(r, g) == ListOf(s, g) + [v]
    ensures forall h | h != g :: ListOf(r, h) == ListOf(s, h)
  {
    Scores(Touch(s.keys, g), s.lists[g := ListOf(s, g) + [v]])
  }

  /** Appending adds `g` as a key and keeps the dict valid with non-empty lists. */
  lemma AppendScoreKeeps(s: Scores, g: Gene, v: real)
    ensures var r := AppendScore(s, g, v);
            && SetOf(r.keys) == SetOf(s.keys) + {g}
            && (ValidScores(s) ==> ValidScores(r))
            && (NonEmptyLists(s) ==> NonEmptyLists(r))
  {
    TouchKeys(s.keys, g);
  }

  // ---------------------------------------------------------------------
  // One score (lines 33-40)
  // ---------------------------------------------------------------------

  /** The test of line 38: another subnetwork gene that is a neighbour. */
  predicate Matches<W>(d: Gene, lociGene: Gene, row: map<Gene, W>) {
    d != lociGene && d in row
  }

  /**
   * The position of the last `diffGene` that line 40 takes its score from:
   * it passes the test of line 38 and no later one does.
   */
  function LastMatch<W>(diffs: seq<Gene>, lociGene: Gene, row: map<Gene, W>): (r: Option<nat>)
    ensures r.Some? ==> r.value < |diffs| && Matches(diffs[r.value], lociGene, row)
    ensures r.Some? ==> forall k | r.value < k < |diffs| :: !Matches(diffs[k], lociGene, row)
    ensures r.None? ==> forall k | 0 <= k < |diffs| :: !Matches(diffs[k], lociGene, row)
  {
    if diffs == [] then None
    else if Matches(diffs[|diffs| - 1], lociGene, row) then Some(|diffs| - 1)
    else LastMatch(diffs[..|diffs| - 1], lociGene, row)
  }

  /**
   * The score of `gene` against the subnetwork genes `diffs`:
   * `interactions[gene]` is looked up (KeyError if absent) only once some
   * `diffGene` differs from the chosen gene; the last match is assigned,
   * not added; 0 without a match.
   */
  function ScoreOf<W>(diffs: seq<Gene>, lociGene: Gene, gene: Gene, interactions: Net<W>, num: W -> real): Result<real> {
    if forall k | 0 <= k < |diffs| :: diffs[k] == lociGene then Ok(0.0)
    else if gene !in interactions.adj then Err(KeyError)
    else
      var row := interactions.adj[gene];
      match LastMatch(diffs, lociGene, row)
      case None => Ok(0.0)
      case Some(j) => Ok(num(row[diffs[j]]))
  }

  /** The loop of lines 33-40. */
  method ScoreGene<W>(subN: Net<W>, lociGene: Gene, gene: Gene, interactions: Net<W>, num: W -> real)
    returns (r: Result<real>)
    ensures r == ScoreOf(subN.nodes, lociGene, gene, interactions, num)
  {
    var diffs := subN.nodes;
    var geneS := 0.0;
    for k := 0 to |diffs|
      invariant (forall j | 0 <= j < k :: diffs[j] == lociGene) || gene in interactions.adj
      invariant ScoreOf(diffs[..k], lociGene, gene, interactions, num) == Ok(geneS)
    {
      var diffGene := diffs[k];
      assert diffs[..k + 1][..k] == diffs[..k];
      if diffGene != lociGene {
        if gene !in interactions.adj {
          return Err(KeyError);
        }
        if diffGene in interactions.adj[gene] {
          geneS := num(interactions.adj[gene][diffGene]);
        }
      }
    }
    assert diffs[..|diffs|] == diffs;
    r := Ok(geneS);
  }

  /**
   * The score is the weight of the edge from `gene` to the last subnetwork
   * gene (other than the chosen one) it is connected to, and 0 when there
   * is no such gene.
   */
  lemma ScoreIsLastEdge<W>(diffs: seq<Gene>, lociGene: Gene, gene: Gene, interactions: Net<W>, num: W -> real)
    ensures var r := ScoreOf(diffs, lociGene, gene, interactions, num);
            (r.Err? <==> gene !in interactions.adj && exists k | 0 <= k < |diffs| :: diffs[k] != lociGene) &&
            (r.Err? ==> r.error == KeyError)
    ensures var r := ScoreOf(diffs, lociGene, gene, interactions, num);
            r.Ok? && (gene !in interactions.adj || forall k | 0 <= k < |diffs| :: !(diffs[k] != lociGene && diffs[k] in interactions.adj[gene])) ==>
              r.value == 0.0
    ensures var r := ScoreOf(diffs, lociGene, gene, interactions, num);
            r.Ok? && gene in interactions.adj ==>
              forall j | 0 <= j < |diffs| && diffs[j] != lociGene && diffs[j] in interactions.adj[gene] &&
                         (forall k | j < k < |diffs| :: !(diffs[k] != lociGene && diffs[k] in interactions.adj[gene])) ::
                r.value == num(interactions.adj[gene][diffs[j]])
  {
    var r := ScoreOf(diffs, lociGene, gene, interactions, num);
    if r.Ok? && gene in interactions.adj {
      var row := interactions.adj[gene];
      var last := LastMatch(diffs, lociGene, row);
      forall j | 0 <= j < |diffs| && diffs[j] != lociGene && diffs[j] in row &&
                 (forall k | j < k < |diffs| :: !(diffs[k] != lociGene && diffs[k] in row))
        ensures r.value == num(row[diffs[j]])
      {
        assert Matches(diffs[j], lociGene, row);
        assert last.Some? && last.value == j;
      }
    }
  }

  // ---------------------------------------------------------------------
  // The locus of a chosen gene (lines 24-27)
  // ---------------------------------------------------------------------

  /** The position of the first locus that contains `g`. */
  function FirstLocus(lociL: seq<seq<Gene>>, g: Gene): (r: Option<nat>)
    ensures r.Some? ==> r.value < |lociL| && g in lociL[r.value]
    ensures r.Some? ==> forall j | 0 <= j < r.value :: g !in lociL[j]
    ensures r.None? ==> forall j | 0 <= j < |lociL| :: g !in lociL[j]
  {
    if lociL == [] then None
    else
      match FirstLocus(lociL[..|lociL| - 1], g)
      case Some(i) => Some(i)
      case None => if g in lociL[|lociL| - 1] then Some(|lociL| - 1) else None
  }

  /** The loop of lines 24-27, which stops at the first hit. */
  method FindLocus(lociL: seq<seq<Gene>>, lociGene: Gene) returns (r: Option<nat>)
    ensures r == FirstLocus(lociL, lociGene)
  {
    for i := 0 to |lociL|
      invariant forall j | 0 <= j < i :: lociGene !in lociL[j]
    {
      if lociGene in lociL[i] {
        return Some(i);
      }
    }
    return None;
  }

  // ---------------------------------------------------------------------
  // The scoring run (lines 16-47)
  // ---------------------------------------------------------------------

  /** The loop state: the variable `loci` (unbound until a first locus is found) and `geneScores`. */
  datatype State = State(loci: Option<seq<Gene>>, scores: Scores)

  /** The score of each gene of the locus (lines 33-40) against one subnetwork and chosen gene. */
  function ScoreFn<W>(subN: Net<W>, lociGene: Gene, interactions: Net<W>, num: W -> real): Gene -> Result<real> {
    g => ScoreOf(subN.nodes, lociGene, g, interactions, num)
  }

  /** Lines 30-45: one score appended for each gene of the locus, in order; the first failure stops. */
  function LocusOf(st: Scores, loci: seq<Gene>, score: Gene -> Result<real>): Result<Scores>
    decreases |loci|
  {
    if loci == [] then Ok(st)
    else
      match score(loci[0])
      case Err(e) => Err(e)
      case Ok(v) => LocusOf(AppendScore(st, loci[0], v), loci[1..], score)
  }

  /**
   * Lines 24-45 for one chosen gene. When no locus contains it, `loci`
   * keeps the previous chosen gene's locus; before any locus was found it
   * is unbound.
   */
  function StepGene<W>(st: State, subN: Net<W>, lociGene: Gene, lociL: seq<seq<Gene>>, interactions: Net<W>, num: W -> real)
    : Result<State>
  {
    var loci := match FirstLocus(lociL, lociGene) case Some(i) => Some(lociL[i]) case None => st.loci;
    match loci
    case None => Err(UnboundLocalError)
    case Some(l) =>
      match LocusOf(st.scores, l, ScoreFn(subN, lociGene, interactions, num))
      case Err(e) => Err(e)
      case Ok(s) => Ok(State(loci, s))
  }

  /** Lines 22-45: the chosen genes `lociGenes` of one subnetwork, in turn. */
  function SubnetOf<W>(st: State, subN: Net<W>, lociGenes: seq<Gene>, lociL: seq<seq<Gene>>, interactions: Net<W>, num: W -> real)
    : Result<State>
    decreases |lociGenes|
  {
    if lociGenes == [] then Ok(st)
    else
      match StepGene(st, subN, lociGenes[0], lociL, interactions, num)
      case Err(e) => Err(e)
      case Ok(st') => SubnetOf(st', subN, lociGenes[1..], lociL, interactions, num)
  }

  /** Lines 20-45: the subnetworks in turn. */
  function RunOf<W>(st: State, subNs: seq<Net<W>>, lociL: seq<seq<Gene>>, interactions: Net<W>, num: W -> real)
    : Result<State>
    decreases |subNs|
  {
    if subNs == [] then Ok(st)
    else
      match SubnetOf(st, subNs[0], subNs[0].nodes, lociL, interactions, num)
      case Err(e) => Err(e)
      case Ok(st') => RunOf(st', subNs[1..], lociL, interactions, num)
  }

  /** What `getGeneScores` returns. */
  function GeneScoresOf<W>(lociSubNs: seq<Net<W>>, lociL: seq<seq<Gene>>, interactions: Net<W>, num: W -> real)
    : Result<Scores>
  {
    match RunOf(State(None, NoScores), lociSubNs, lociL, interactions, num)
    case Err(e) => Err(e)
    case Ok(st) => Ok(st.scores)
  }

  method ScoreLocus<W>(st: Scores, loci: seq<Gene>, subN: Net<W>, lociGene: Gene, interactions: Net<W>, num: W -> real)
    returns (r: Result<Scores>)
    ensures r == LocusOf(st, loci, ScoreFn(subN, lociGene, interactions, num))
  {
    var geneScores := st;
    for i := 0 to |loci|
      invariant LocusOf(st, loci, ScoreFn(subN, lociGene, interactions, num)) == LocusOf(geneScores, loci[i..], ScoreFn(subN, lociGene, interactions, num))
    {
      var gene := loci[i];
      assert loci[i..][0] == gene && loci[i..][1..] == loci[i + 1..];
      var geneS := ScoreGene(subN, lociGene, gene, interactions, num);
      if geneS.Err? {
        return Err(geneS.error);
      }
      geneScores := AppendScore(geneScores, gene, geneS.value);
    }
    assert loci[|loci|..] == [];
    r := Ok(geneScores);
  }

  method ScoreSubnet<W>(st: State, subN: Net<W>, lociL: seq<seq<Gene>>, interactions: Net<W>, num: W -> real)
    returns (r: Result<State>)
    ensures r == SubnetOf(st, subN, subN.nodes, lociL, interactions, num)
  {
    var lociGenes := subN.nodes;
    var loci := st.loci;
    var geneScores := st.scores;
    for i := 0 to |lociGenes|
      invariant SubnetOf(st, subN, lociGenes, lociL, interactions, num) ==
                SubnetOf(State(loci, geneScores), subN, lociGenes[i..], lociL, interactions, num)
    {
      var lociGene := lociGenes[i];
      assert lociGenes[i..][0] == lociGene && lociGenes[i..][1..] == lociGenes[i + 1..];
      var found := FindLocus(lociL, lociGene);
      if found.Some? {
        loci := Some(lociL[found.value]);
      }
      if loci.None? {
        return Err(UnboundLocalError);
      }
      var next := ScoreLocus(geneScores, loci.value, subN, lociGene, interactions, num);
      if next.Err? {
        return Err(next.error);
      }
      geneScores := next.value;
    }
    assert lociGenes[|lociGenes|..] == [];
    r := Ok(State(loci, geneScores));
  }

  method GetGeneScores<W>(lociSubNs: seq<Net<W>>, lociL: seq<seq<Gene>>, interactions: Net<W>, num: W -> real)
    returns (r: Result<Scores>)
    ensures r == GeneScoresOf(lociSubNs, lociL, interactions, num)
  {
    var st := State(None, NoScores);
    for i := 0 to |lociSubNs|
      invariant RunOf(State(None, NoScores), lociSubNs, lociL, interactions, num) == RunOf(st, lociSubNs[i..], lociL, interactions, num)
    {
      assert lociSubNs[i..][0] == lociSubNs[i] && lociSubNs[i..][1..] == lociSubNs[i + 1..];
      var next := ScoreSubnet(st, lociSubNs[i], lociL, interactions, num);
      if next.Err? {
        return Err(next.error);
      }
      st := next.value;
    }
    assert lociSubNs[|lociSubNs|..] == [];
    r := Ok(st.scores);
  }

  // ---------------------------------------------------------------------
  // What the run appends
  // ---------------------------------------------------------------------

  /** `n` copies of `v`. */
  function Repeat(v: real, n: nat): (r: seq<real>)
    ensures |r| == n && forall i | 0 <= i < n :: r[i] == v
  {
    seq(n, _ => v)
  }

  /** The number of occurrences of `x` in `s`. */
  function Count(s: seq<Gene>, x: Gene): (c: nat)
    ensures c <= |s| && (c > 0 <==> x in s)
  {
    if s == [] then 0 else (if s[0] == x then 1 else 0) + Count(s[1..], x)
  }

  lemma RepeatCons(l: seq<real>, v: real, n: nat)
    ensures l + [v] + Repeat(v, n) == l + Repeat(v, n + 1)
  {
    assert [v] + Repeat(v, n) == Repeat(v, n + 1);
  }

  /** One pass over a locus fails exactly when the score of one of its genes does, with that error. */
  lemma {:induction false} LocusFails(st: Scores, loci: seq<Gene>, score: Gene -> Result<real>)
    ensures LocusOf(st, loci, score).Err? <==> exists i | 0 <= i < |loci| :: score(loci[i]).Err?
    ensures LocusOf(st, loci, score).Err? ==> exists i | 0 <= i < |loci| :: score(loci[i]) == Err(LocusOf(st, loci, score).error)
    decreases |loci|
  {
    if loci != [] {
      var a, rest := loci[0], loci[1..];
      assert forall i | 0 <= i < |rest| :: rest[i] == loci[i + 1];
      if score(a).Ok? {
        LocusFails(AppendScore(st, a, score(a).value), rest, score);
      }
    }
  }

  /** A pass adds the genes of the locus as keys and keeps the dict valid with non-empty lists. */
  lemma {:induction false} LocusKeys(st: Scores, loci: seq<Gene>, score: Gene -> Result<real>)
    ensures var r := LocusOf(st, loci, score);
            r.Ok? ==>
              && SetOf(r.value.keys) == SetOf(st.keys) + SetOf(loci)
              && (ValidScores(st) ==> ValidScores(r.value))
              && (NonEmptyLists(st) ==> NonEmptyLists(r.value))
    decreases |loci|
  {
    if loci != [] {
      var a, rest := loci[0], loci[1..];
      assert loci == [a] + rest;
      assert SetOf(loci) == {a} + SetOf(rest);
      if score(a).Ok? {
        AppendScoreKeeps(st, a, score(a).value);
        LocusKeys(AppendScore(st, a, score(a).value), rest, score);
      }
    }
  }

  /**
   * After a pass, each gene of the locus has its score appended once per
   * occurrence in the locus (so exactly once for a locus without repeats),
   * and every other gene keeps its list.
   */
  lemma {:induction false} LocusAppends(st: Scores, loci: seq<Gene>, score: Gene -> Result<real>, g: Gene)
    ensures var r := LocusOf(st, loci, score);
            r.Ok? && g !in loci ==> ListOf(r.value, g) == ListOf(st, g)
    ensures var r := LocusOf(st, loci, score);
            r.Ok? && g in loci ==> score(g).Ok? && ListOf(r.value, g) == ListOf(st, g) + Repeat(score(g).value, Count(loci, g))
    decreases |loci|
  {
    if loci != [] {
      var a, rest := loci[0], loci[1..];
      assert loci == [a] + rest;
      if score(a).Ok? {
        var v := score(a).value;
        var st1 := AppendScore(st, a, v);
        LocusAppends(st1, rest, score, g);
        var r := LocusOf(st1, rest, score);
        if r.Ok? && g == a {
          if a in rest {
            RepeatCons(ListOf(st, a), v, Count(rest, a));
          } else {
            RepeatCons(ListOf(st, a), v, 0);
          }
        } else if r.Ok? {
          assert g in loci <==> g in rest;
        }
      }
    }
  }

  /** The locus a chosen gene scores: the first that contains it, else the previous one. */
  lemma StepGeneLocus<W>(st: State, subN: Net<W>, lociGene: Gene, lociL: seq<seq<Gene>>, interactions: Net<W>, num: W -> real)
    ensures var r := StepGene(st, subN, lociGene, lociL, interactions, num);
            r == Err(UnboundLocalError) <==> st.loci.None? && forall i | 0 <= i < |lociL| :: lociGene !in lociL[i]
    ensures var r := StepGene(st, subN, lociGene, lociL, interactions, num);
            r.Ok? ==>
              && (forall i | 0 <= i < |lociL| && lociGene in lociL[i] && (forall j | 0 <= j < i :: lociGene !in lociL[j]) ::
                    r.value.loci == Some(lociL[i]))
              && ((forall i | 0 <= i < |lociL| :: lociGene !in lociL[i]) ==> r.value.loci == st.loci)
              && LocusOf(st.scores, r.value.loci.value, ScoreFn(subN, lociGene, interactions, num)) == Ok(r.value.scores)
  {
    var loci := match FirstLocus(lociL, lociGene) case Some(i) => Some(lociL[i]) case None => st.loci;
    if loci.Some? {
      var score := ScoreFn(subN, lociGene, interactions, num);
      LocusFails(st.scores, loci.value, score);
      if LocusOf(st.scores, loci.value, score).Err? {
        var i :| 0 <= i < |loci.value| && score(loci.value[i]) == Err(LocusOf(st.scores, loci.value, score).error);
        ScoreIsLastEdge(subN.nodes, lociGene, loci.value[i], interactions, num);
      }
    }
  }

  /**
   * The run's invariant: `geneScores` is a dict whose lists are non-empty
   * and whose keys are genes of the loci, and a bound `loci` is one of the
   * loci.
   */
  ghost predicate GoodState(st: State, lociL: seq<seq<Gene>>) {
    && ValidScores(st.scores)
    && NonEmptyLists(st.scores)
    && (st.loci.Some? ==> st.loci.value in lociL)
    && (forall g | g in st.scores.keys :: exists i | 0 <= i < |lociL| :: g in lociL[i])
  }

  lemma StepGeneGood<W>(st: State, subN: Net<W>, lociGene: Gene, lociL: seq<seq<Gene>>, interactions: Net<W>, num: W -> real)
    requires GoodState(st, lociL)
    ensures var r := StepGene(st, subN, lociGene, lociL, interactions, num);
            r.Ok? ==> GoodState(r.value, lociL)
  {
    var loci := match FirstLocus(lociL, lociGene) case Some(i) => Some(lociL[i]) case None => st.loci;
    if loci.Some? {
      var score := ScoreFn(subN, lociGene, interactions, num);
      LocusKeys(st.scores, loci.value, score);
      var r := LocusOf(st.scores, loci.value, score);
      if r.Ok? {
        var j :| 0 <= j < |lociL| && lociL[j] == loci.value;
        forall g | g in r.value.keys
          ensures exists i | 0 <= i < |lociL| :: g in lociL[i]
        {
          assert g in SetOf(r.value.keys);
          if g !in SetOf(st.scores.keys) {
            assert g in lociL[j];
          }
        }
      }
    }
  }

  lemma {:induction false} SubnetGood<W>(st: State, subN: Net<W>, lociGenes: seq<Gene>, lociL: seq<seq<Gene>>, interactions: Net<W>, num: W -> real)
    requires GoodState(st, lociL)
    ensures var r := SubnetOf(st, subN, lociGenes, lociL, interactions, num);
            r.Ok? ==> GoodState(r.value, lociL)
    decreases |lociGenes|
  {
    if lociGenes != [] {
      StepGeneGood(st, subN, lociGenes[0], lociL, interactions, num);
      var r := StepGene(st, subN, lociGenes[0], lociL, interactions, num);
      if r.Ok? {
        SubnetGood(r.value, subN, lociGenes[1..], lociL, interactions, num);
      }
    }
  }

  lemma {:induction false} RunGood<W>(st: State, subNs: seq<Net<W>>, lociL: seq<seq<Gene>>, interactions: Net<W>, num: W -> real)
    requires GoodState(st, lociL)
    ensures var r := RunOf(st, subNs, lociL, interactions, num);
            r.Ok? ==> GoodState(r.value, lociL)
    decreases |subNs|
  {
    if subNs != [] {
      SubnetGood(st, subNs[0], subNs[0].nodes, lociL, interactions, num);
      var r := SubnetOf(st, subNs[0], subNs[0].nodes, lociL, interactions, num);
      if r.Ok? {
        RunGood(r.value, subNs[1..], lociL, interactions, num);
      }
    }
  }

  /**
   * `getGeneScores` returns a dict whose every list is non-empty and whose
   * keys are all genes of the loci.
   */
  lemma GeneScoresValid<W>(lociSubNs: seq<Net<W>>, lociL: seq<seq<Gene>>, interactions: Net<W>, num: W -> real)
    ensures var r := GeneScoresOf(lociSubNs, lociL, interactions, num);
            r.Ok? ==>
              && ValidScores(r.value)
              && NonEmptyLists(r.value)
              && forall g | g in r.value.lists :: exists i | 0 <= i < |lociL| :: g in lociL[i]
  {
    RunGood(State(None, NoScores), lociSubNs, lociL, interactions, num);
  }

  // ---------------------------------------------------------------------
  // getGeneScoreAvg (lines 54-58)
  // ---------------------------------------------------------------------

  /** What `getGeneScoreAvg` returns: ZeroDivisionError if some list is empty, else each list's mean. */
  function AvgOf(geneScores: Scores): Result<map<Gene, real>> {
    if exists i | 0 <= i < |geneScores.keys| :: ListOf(geneScores, geneScores.keys[i]) == [] then Err(ZeroDivisionError)
    else Ok(map g | g in geneScores.keys :: Mean(ListOf(geneScores, g)))
  }

  method GetGeneScoreAvg(geneScores: Scores) returns (r: Result<map<Gene, real>>)
    requires ValidScores(geneScores)
    ensures r == AvgOf(geneScores)
  {
    var keys := geneScores.keys;
    var geneSAvg: map<Gene, real> := map[];
    for i := 0 to |keys|
      invariant forall j | 0 <= j < i :: ListOf(geneScores, keys[j]) != []
      invariant geneSAvg == map g | g in keys[..i] :: Mean(ListOf(geneScores, g))
    {
      var gene := keys[i];
      var scores := geneScores.lists[gene];
      if |scores| == 0 {
        return Err(ZeroDivisionError);
      }
      geneSAvg := geneSAvg[gene := SumReals(scores) / |scores| as real];
      PrefixSnoc(keys, i);
    }
    assert keys[..|keys|] == keys;
    r := Ok(geneSAvg);
  }

  function SeqMin(s: seq<real>): (m: real)
    requires s != []
    ensures m in s && forall i | 0 <= i < |s| :: m <= s[i]
  {
    if |s| == 1 then s[0]
    else
      var m' := SeqMin(s[..|s| - 1]);
      if s[|s| - 1] < m' then s[|s| - 1] else m'
  }

  function SeqMax(s: seq<real>): (m: real)
    requires s != []
    ensures m in s && forall i | 0 <= i < |s| :: s[i] <= m
  {
    if |s| == 1 then s[0]
    else
      var m' := SeqMax(s[..|s| - 1]);
      if s[|s| - 1] > m' then s[|s| - 1] else m'
  }

  /**
   * The averages have the same keys as the score lists, and each lies
   * between the smallest and the largest score of its gene. The only
   * failure is an empty list.
   */
  lemma AvgBounds(geneScores: Scores)
    ensures AvgOf(geneScores).Err? <==> exists g | g in geneScores.keys :: ListOf(geneScores, g) == []
    ensures var r := AvgOf(geneScores);
            r.Ok? ==>
              && r.value.Keys == SetOf(geneScores.keys)
              && forall g | g in r.value :: SeqMin(ListOf(geneScores, g)) <= r.value[g] <= SeqMax(ListOf(geneScores, g))
  {
    var r := AvgOf(geneScores);
    if r.Ok? {
      forall g | g in r.value
        ensures SeqMin(ListOf(geneScores, g)) <= r.value[g] <= SeqMax(ListOf(geneScores, g))
      {
        var l := ListOf(geneScores, g);
        MeanBounds(l, SeqMin(l), SeqMax(l));
      }
    }
  }

  /** The dict `getGeneScores` builds always has averages: no list of it is empty. */
  lemma ScoresHaveAverages<W>(lociSubNs: seq<Net<W>>, lociL: seq<seq<Gene>>, interactions: Net<W>, num: W -> real)
    ensures var r := GeneScoresOf(lociSubNs, lociL, interactions, num);
            r.Ok? ==> AvgOf(r.value).Ok?
  {
    GeneScoresValid(lociSubNs, lociL, interactions, num);
  }

  // ---------------------------------------------------------------------
  // getTopLociGenes (lines 68-82)
  // ---------------------------------------------------------------------

  /** The key of line 75 with `reverse=True`: Python's reversed sort is stable, so it sorts by the negated score. */
  function NegScore(geneAvg: map<Gene, real>): Gene -> real {
    g => if g in geneAvg then -geneAvg[g] else 0.0
  }

  /** `n` of lines 77-79: `numGenes`, capped at the number of genes. */
  function TakeCount(numGenes: int, len: nat): int {
    if numGenes > len then len else numGenes
  }

  /**
   * One locus' block (lines 72-80): KeyError unless every gene has an
   * average; else the distinct genes by decreasing average (ties in locus
   * order), cut to `n`.
   */
  function TopOf(geneAvg: map<Gene, real>, locus: seq<Gene>, numGenes: int): Result<seq<Gene>> {
    if exists i | 0 <= i < |locus| :: locus[i] !in geneAvg then Err(KeyError)
    else
      var lociSorted := SortBy(Dedup(locus), NegScore(geneAvg));
      Ok(PyTake(lociSorted, TakeCount(numGenes, |lociSorted|)))
  }

  function TopBlocks(geneAvg: map<Gene, real>, lociLists: seq<seq<Gene>>, numGenes: int): seq<Result<seq<Gene>>> {
    seq(|lociLists|, i requires 0 <= i < |lociLists| => TopOf(geneAvg, lociLists[i], numGenes))
  }

  /** What `getTopLociGenes` returns: the blocks of the loci, in locus order, joined. */
  function TopLociOf(geneAvg: map<Gene, real>, lociLists: seq<seq<Gene>>, numGenes: int): Result<seq<Gene>> {
    match Collect(TopBlocks(geneAvg, lociLists, numGenes))
    case Err(e) => Err(e)
    case Ok(blocks) => Ok(Concat(blocks))
  }

  /** Lines 72-74: `lociScores`, keys in locus order. */
  method LociScores(geneAvg: map<Gene, real>, loci: seq<Gene>) returns (r: Result<seq<Gene>>)
    ensures (exists i | 0 <= i < |loci| :: loci[i] !in geneAvg) ==> r == Err(KeyError)
    ensures (forall i | 0 <= i < |loci| :: loci[i] in geneAvg) ==> r == Ok(Dedup(loci))
  {
    var keys: seq<Gene> := [];
    for i := 0 to |loci|
      invariant forall j | 0 <= j < i :: loci[j] in geneAvg
      invariant keys == Dedup(loci[..i])
    {
      var gene := loci[i];
      if gene !in geneAvg {
        return Err(KeyError);
      }
      DedupSnoc(loci[..i], gene);
      PrefixSnoc(loci, i);
      keys := Touch(keys, gene);
    }
    assert loci[..|loci|] == loci;
    r := Ok(keys);
  }

  /** One pass of the loop at line 71: the block of one locus. */
  method TopBlock(geneAvg: map<Gene, real>, locus: seq<Gene>, numGenes: int) returns (r: Result<seq<Gene>>)
    ensures r == TopOf(geneAvg, locus, numGenes)
  {
    var lociScores := LociScores(geneAvg, locus);
    if lociScores.Err? {
      return Err(lociScores.error);
    }
    var lociSorted := SortBy(lociScores.value, NegScore(geneAvg));
    var n := numGenes;
    if numGenes > |lociSorted| {
      n := |lociSorted|;
    }
    return Ok(PyTake(lociSorted, n));
  }

  method GetTopLociGenes(geneAvg: map<Gene, real>, lociLists: seq<seq<Gene>>, numGenes: int) returns (r: Result<seq<Gene>>)
    ensures r == TopLociOf(geneAvg, lociLists, numGenes)
  {
    ghost var blocks := TopBlocks(geneAvg, lociLists, numGenes);
    ghost var done: seq<seq<Gene>> := [];
    var genes: seq<Gene> := [];
    for i := 0 to |lociLists|
      invariant Collect(blocks[..i]) == Ok(done) && genes == Concat(done)
    {
      var block := TopBlock(geneAvg, lociLists[i], numGenes);
      assert block == blocks[i];
      PrefixSnoc(blocks, i);
      CollectSnoc(blocks[..i], blocks[i]);
      if block.Err? {
        CollectErrPersists(blocks, i + 1);
        return Err(block.error);
      }
      ConcatAppend(done, block.value);
      done := done + [block.value];
      genes := genes + block.value;
    }
    assert blocks[..|lociLists|] == blocks;
    r := Ok(genes);
  }

  /**
   * One block: KeyError exactly when a gene of the locus has no average.
   * Otherwise the block holds `min(numGenes, d)` genes for the `d`
   * distinct genes of the locus (all of them when `numGenes >= d`; a
   * negative `numGenes` cuts from the end as Python's slice does), each of
   * them a gene of the locus and none twice, by non-increasing average,
   * and no gene of the locus left out averages more than one kept.
   */
  lemma TopOfSpec(geneAvg: map<Gene, real>, locus: seq<Gene>, numGenes: int)
    ensures TopOf(geneAvg, locus, numGenes).Err? <==> exists i | 0 <= i < |locus| :: locus[i] !in geneAvg
    ensures TopOf(geneAvg, locus, numGenes).Err? ==> TopOf(geneAvg, locus, numGenes).error == KeyError
    ensures var r, d := TopOf(geneAvg, locus, numGenes), |Dedup(locus)|;
            r.Ok? ==>
              && |r.value| == (if numGenes >= d then d else if numGenes >= 0 then numGenes else if d + numGenes > 0 then d + numGenes else 0)
              && Distinct(r.value)
              && (forall i | 0 <= i < |r.value| :: r.value[i] in locus && r.value[i] in geneAvg)
              && (numGenes >= d ==> SetOf(r.value) == SetOf(locus))
              && (forall i, j | 0 <= i < j < |r.value| :: geneAvg[r.value[j]] <= geneAvg[r.value[i]])
              && (forall g, h | g in locus && g !in r.value && h in r.value :: geneAvg[g] <= geneAvg[h])
  {
    var r := TopOf(geneAvg, locus, numGenes);
    if r.Ok? {
      var key := NegScore(geneAvg);
      var ds := Dedup(locus);
      var sorted := SortBy(ds, key);
      SortByProps(ds, key);
      DedupKeys(locus);
      DistinctPerm(ds, sorted);
      var k := TakeCount(numGenes, |sorted|);
      var m := if k >= 0 then k else if |sorted| + k > 0 then |sorted| + k else 0;
      assert r.value == sorted[..m];
      BlockProps(locus, ds, sorted, geneAvg, m);
    }
  }

  /** What `TopOfSpec` states, for any prefix of the sorted distinct genes. */
  lemma BlockProps(locus: seq<Gene>, ds: seq<Gene>, sorted: seq<Gene>, geneAvg: map<Gene, real>, m: nat)
    requires SetOf(ds) == SetOf(locus) && multiset(sorted) == multiset(ds)
    requires SortedBy(sorted, NegScore(geneAvg)) && Distinct(sorted) && m <= |sorted|
    requires forall i | 0 <= i < |locus| :: locus[i] in geneAvg
    ensures var b := sorted[..m];
            && Distinct(b)
            && (forall i | 0 <= i < |b| :: b[i] in locus && b[i] in geneAvg)
            && (m == |sorted| ==> SetOf(b) == SetOf(locus))
            && (forall i, j | 0 <= i < j < |b| :: geneAvg[b[j]] <= geneAvg[b[i]])
            && (forall g, h | g in locus && g !in b && h in b :: geneAvg[g] <= geneAvg[h])
  {
    BlockMembers(locus, ds, sorted, geneAvg);
    BlockOrdered(sorted, geneAvg, m);
    BlockBest(locus, sorted, geneAvg, m);
  }

  lemma BlockMembers(locus: seq<Gene>, ds: seq<Gene>, sorted: seq<Gene>, geneAvg: map<Gene, real>)
    requires SetOf(ds) == SetOf(locus) && multiset(sorted) == multiset(ds)
    requires forall i | 0 <= i < |locus| :: locus[i] in geneAvg
    ensures forall x | x in sorted :: x in locus && x in geneAvg
    ensures SetOf(sorted) == SetOf(locus)
  {
    forall x | x in sorted ensures x in SetOf(locus) {
      assert x in multiset(sorted);
    }
    forall x | x in locus ensures x in SetOf(sorted) {
      assert x in SetOf(ds);
      assert x in multiset(sorted);
    }
  }

  lemma BlockOrdered(sorted: seq<Gene>, geneAvg: map<Gene, real>, m: nat)
    requires SortedBy(sorted, NegScore(geneAvg)) && m <= |sorted|
    requires forall x | x in sorted :: x in geneAvg
    ensures forall i, j | 0 <= i < j < m :: geneAvg[sorted[j]] <= geneAvg[sorted[i]]
  {
    var key := NegScore(geneAvg);
    forall i, j | 0 <= i < j < m ensures geneAvg[sorted[j]] <= geneAvg[sorted[i]] {
      assert key(sorted[i]) <= key(sorted[j]);
    }
  }

  lemma BlockBest(locus: seq<Gene>, sorted: seq<Gene>, geneAvg: map<Gene, real>, m: nat)
    requires SortedBy(sorted, NegScore(geneAvg)) && m <= |sorted|
    requires forall x | x in sorted :: x in geneAvg
    requires SetOf(sorted) == SetOf(locus) && forall i | 0 <= i < |locus| :: locus[i] in geneAvg
    ensures forall g, h | g in locus && g !in sorted[..m] && h in sorted[..m] :: geneAvg[g] <= geneAvg[h]
  {
    var key := NegScore(geneAvg);
    forall g, h | g in locus && g !in sorted[..m] && h in sorted[..m] ensures geneAvg[g] <= geneAvg[h] {
      assert g in SetOf(sorted);
      var x :| 0 <= x < |sorted| && sorted[x] == g;
      var y :| 0 <= y < m && sorted[..m][y] == h;
      assert key(sorted[y]) <= key(sorted[x]);
    }
  }

  /** The sum over the loci of `min(numGenes, d)` for each locus' `d` distinct genes. */
  function TopTotal(lociLists: seq<seq<Gene>>, numGenes: nat): nat {
    if lociLists == [] then 0
    else
      var d := |Dedup(lociLists[|lociLists| - 1])|;
      TopTotal(lociLists[..|lociLists| - 1], numGenes) + (if numGenes < d then numGenes else d)
  }

  /**
   * `getTopLociGenes` fails, with KeyError, exactly when a gene of some
   * locus has no average; otherwise its result is the loci's blocks joined
   * in locus order, every gene of it is a gene of some locus, and for
   * `numGenes >= 0` it holds the sum over the loci of
   * `min(numGenes, distinct genes of the locus)` genes.
   */
  lemma TopLociSpec(geneAvg: map<Gene, real>, lociLists: seq<seq<Gene>>, numGenes: int)
    ensures var r := TopLociOf(geneAvg, lociLists, numGenes);
            (r.Err? <==> exists i, j | 0 <= i < |lociLists| && 0 <= j < |lociLists[i]| :: lociLists[i][j] !in geneAvg) &&
            (r.Err? ==> r.error == KeyError)
    ensures var r := TopLociOf(geneAvg, lociLists, numGenes);
            r.Ok? ==>
              && (exists blocks: seq<seq<Gene>> ::
                    && |blocks| == |lociLists|
                    && r.value == Concat(blocks)
                    && forall i | 0 <= i < |lociLists| :: TopOf(geneAvg, lociLists[i], numGenes) == Ok(blocks[i]))
              && (forall g | g in r.value :: exists i | 0 <= i < |lociLists| :: g in lociLists[i])
              && (numGenes >= 0 ==> |r.value| == TopTotal(lociLists, numGenes))
  {
    var rs := TopBlocks(geneAvg, lociLists, numGenes);
    CollectSpec(rs);
    var r := TopLociOf(geneAvg, lociLists, numGenes);
    forall i | 0 <= i < |lociLists| ensures rs[i].Err? <==> exists j | 0 <= j < |lociLists[i]| :: lociLists[i][j] !in geneAvg {
      TopOfErr(geneAvg, lociLists[i], numGenes);
    }
    if r.Err? {
      var i :| 0 <= i < |rs| && rs[i] == Err(Collect(rs).error) && forall j | 0 <= j < i :: rs[j].Ok?;
      TopOfErr(geneAvg, lociLists[i], numGenes);
    } else {
      var blocks := Collect(rs).value;
      assert forall i | 0 <= i < |lociLists| :: TopOf(geneAvg, lociLists[i], numGenes) == Ok(blocks[i]);
      forall g | g in r.value ensures exists i | 0 <= i < |lociLists| :: g in lociLists[i] {
        ConcatMember(blocks, g);
        var i :| 0 <= i < |blocks| && g in blocks[i];
        TopOfGenes(geneAvg, lociLists[i], numGenes);
      }
      if numGenes >= 0 {
        ConcatLength(blocks);
        forall i | 0 <= i < |lociLists|
          ensures |blocks[i]| == var d := |Dedup(lociLists[i])|; if numGenes < d then numGenes else d
        {
          TopOfLength(geneAvg, lociLists[i], numGenes);
        }
        BlockLengths(blocks, lociLists, numGenes);
      }
    }
  }

  lemma TopOfErr(geneAvg: map<Gene, real>, locus: seq<Gene>, numGenes: int)
    ensures TopOf(geneAvg, locus, numGenes).Err? <==> exists i | 0 <= i < |locus| :: locus[i] !in geneAvg
    ensures TopOf(geneAvg, locus, numGenes).Err? ==> TopOf(geneAvg, locus, numGenes).error == KeyError
  {
    TopOfSpec(geneAvg, locus, numGenes);
  }

  lemma TopOfGenes(geneAvg: map<Gene, real>, locus: seq<Gene>, numGenes: int)
    ensures var r := TopOf(geneAvg, locus, numGenes); r.Ok? ==> forall g | g in r.value :: g in locus
  {
    TopOfSpec(geneAvg, locus, numGenes);
  }

  lemma TopOfLength(geneAvg: map<Gene, real>, locus: seq<Gene>, numGenes: nat)
    ensures var r, d := TopOf(geneAvg, locus, numGenes), |Dedup(locus)|;
            r.Ok? ==> |r.value| == if numGenes < d then numGenes else d
  {
    TopOfSpec(geneAvg, locus, numGenes);
  }

  lemma {:induction false} BlockLengths(blocks: seq<seq<Gene>>, lociLists: seq<seq<Gene>>, numGenes: nat)
    requires |blocks| == |lociLists|
    requires forall i | 0 <= i < |lociLists| :: |blocks[i]| == var d := |Dedup(lociLists[i])|; if numGenes < d then numGenes else d
    ensures SumLengths(blocks) == TopTotal(lociLists, numGenes)
  {
    if blocks != [] {
      var n := |blocks| - 1;
      assert forall i | 0 <= i < n :: blocks[..n][i] == blocks[i] && lociLists[..n][i] == lociLists[i];
      BlockLengths(blocks[..n], lociLists[..n], numGenes);
    }
  }
}
