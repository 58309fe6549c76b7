# Gene subnetworks from disease loci: a Dafny model

The modelled program looks for functional gene modules behind a set of disease
loci (blocks of candidate genes, for example Fanconi anaemia loci). It reads
the loci from a tab-separated file and a weighted protein–protein interaction
network from a STRING file. It then builds many random *loci subnetworks* by
drawing one gene per locus and keeping the network edges between the drawn
genes. As a null model it builds *co-functional (CoF) subnetworks*: for every
node of a loci subnetwork it draws a gene of similar degree from degree bins of
the full network. It scores each candidate gene by its edges into the
subnetworks, averages the scores and keeps the best genes of every locus. An
empirical p-value compares the weighted edge density of the loci subnetworks
with the densities of the null population.

The model is a Dafny project with one module per source file plus two shared
modules:

- `Common` (`common.dfy`): genes, the error kinds of the Python exceptions,
  `Result`, `Option`, and the network value `Net`. A `Net` keeps the insertion
  order of the outer dictionary (`nodes`) beside its rows (`adj`). The module
  also holds `Dedup`, `Concat`, `Pick`, the induced subgraph `Induce` and
  real-number sums and means.
- `Sorting` (`sorting.dfy`): Python's stable `sorted` with a key, written as an
  insertion sort `SortBy`. It is proved sorted, a permutation and stable.
- `FileParsing`, `NetworkCreation`, `DegreeBins` (the bin builders of
  `networkCreation.py`), `CoFSubnetworks`, `Statistics`, `GeneScoring` and
  `NetworkVisualization`.

Each Python function that loops is modelled as a Dafny `method` with a loop
and its invariants. The method's postcondition ties its result to a
specification function. Lemmas then state what the function means.

The source mutates only local lists and dictionaries that it returns, so the
model has no classes. The dictionaries become values that the methods
reassign. A Python exception becomes an `Err` of the matching kind
(`KeyError`, `IndexError`, `ZeroDivisionError`, `ValueError`, `TypeError`,
`UnboundLocalError`), and its condition is stated exactly.

Three environment inputs become parameters:

- **Randomness.** `random.choice(xs)` is `xs[k % |xs|]`, where `k` comes from
  a caller-supplied draw function. Every element can be reached, so a
  property that holds for every draw function holds for every run.
- **Weights.** Weights stay the raw values read from the file. `float(...)` is
  a caller-supplied conversion `num`/`toFloat: W -> real`.
- **Files.** File contents (`text`) and the line iteration (`lines`) are
  parameters.

Integers are unbounded, as they are in Python. Python's `round` (half to even),
`math.floor` of a true division, and slices with negative or overlong bounds
are written out exactly.

## Model

| member | source | states |
|---|---|---|
| Sorting.SortByProps | networkCreation.py:52 | the key sort of the nodes is ordered by the key and is a permutation of its input |
| Sorting.SortStable | geneScoring.py:75 | the sort is stable: the elements with any given key keep their input order |
| Sorting.LastIsMax | networkCreation.py:53 | the last element of a key-sorted list has the largest key, so it gives the maximum degree |
| Sorting.InsertSorted | statistics.py:81 | inserting into a sorted list keeps it sorted |
| FileParsing.StripSpec | fileParsing.py:31 | Python `strip` removes exactly the longest prefix and the longest suffix of strippable characters and keeps the middle |
| FileParsing.SplitNoSep | fileParsing.py:32 | no piece of a Python `split(sep)` contains the separator |
| FileParsing.SplitJoin | fileParsing.py:32 | joining the pieces of a `split` with the separator gives back the original string |
| FileParsing.JoinSplit | fileParsing.py:65 | splitting a join of separator-free pieces gives back the pieces |
| FileParsing.FileLinesStrip | fileParsing.py:64-65 | a file iterates as one line per newline-separated piece (the last only when non-empty), and `strip('\n')` of each line is its piece |
| FileParsing.ReadInput | fileParsing.py:27-44 | the method (strip, split, drop two columns of every row longer than one, optional flattening) computes `ReadInputOf` |
| FileParsing.ReadInputSpec | fileParsing.py:27-44 | readInput never fails; it yields one row per line of the stripped file; each row is the line's tab fields without the first two (or the single field); the flattened form is the concatenation of the rows |
| FileParsing.MakeInteractionNetwork | fileParsing.py:60-70 | the method over the file's lines computes `InteractionsOf` |
| FileParsing.FieldsOfSpec | fileParsing.py:64-65 | the fields of each iterated line are the tab split of its newline-free piece |
| FileParsing.InteractionsSpec | fileParsing.py:60-70 | it fails exactly when some line does not have three fields, and then with ValueError; otherwise the result is valid and its outer keys are the first fields; an edge g1 to g2 exists iff some line names that pair, and its weight is the third field of the last such line |
| FileParsing.OneDirectionOnly | fileParsing.py:47-53 | a single line `a\tb\tw` gives the edge a to b and no row for b: nothing adds the reverse edge |
| FileParsing.MakeNetwork | fileParsing.py:76-89 | the method computes `NetworkOf`, including the TypeError of `reduce` on an empty list |
| FileParsing.GeneRow | fileParsing.py:81-88 | a gene's row is empty when the gene is not in the interactions, otherwise its interaction edges restricted to the listed genes |
| FileParsing.NetworkSpec | fileParsing.py:76-89 | TypeError iff there are no loci; otherwise the result is valid; its keys are exactly the genes of some locus; the row of a gene absent from the interactions is empty; an edge exists iff both genes are listed and the interactions have it, and it keeps the interaction's weight |
| FileParsing.NetworkSymmetric | fileParsing.py:76-89 | symmetric interactions give a symmetric gene network |
| NetworkCreation.InducedRow | networkCreation.py:32-35 | one node's row is its full-network edges to nodes of the subnetwork, with the same weights |
| NetworkCreation.InducedEdges | networkCreation.py:30-35 | KeyError iff some subnetwork node has no row in the full network; otherwise the induced subgraph |
| NetworkCreation.DrawLoci | networkCreation.py:25-27 | the draw succeeds iff no locus is empty (else IndexError); the nodes are the drawn genes without repeats, in draw order |
| NetworkCreation.DrawLocus | networkCreation.py:26-27 | one draw extends the kept genes by the gene picked from that locus, once |
| NetworkCreation.CreateSubnetwork | networkCreation.py:21-37 | the method computes `SubnetworkOf` |
| NetworkCreation.SubnetworkNodes | networkCreation.py:21-37 | a built subnetwork is valid; its nodes are the drawn genes, each drawn from its own locus |
| NetworkCreation.SubnetworkSize | networkCreation.py:25-27 | a subnetwork has at most one node per locus, and exactly one per locus when the loci are disjoint |
| NetworkCreation.SubnetworkEdges | networkCreation.py:30-35 | the subnetwork is the subgraph of the full network induced by its nodes, with the full weights; it is symmetric when the full network is |
| NetworkCreation.MakeLociSubnetworks | networkCreation.py:11-15 | the method computes `LociSubnetworksOf` |
| NetworkCreation.LociSubnetworksCount | networkCreation.py:11-15 | the result succeeds iff every draw succeeds; it holds max(numNetworks, 0) subnetworks, the i-th built from the i-th draws |
| DegreeBins.RoundIsNearest | networkCreation.py:54 | Python `round` of p/q is a nearest integer, and an even one on a tie |
| DegreeBins.RoundPositiveIsNearest | networkCreation.py:81 | the same for a positive denominator |
| DegreeBins.FloorDivBounds | networkCreation.py:63 | `math.floor(a/b)` is the floor of the true quotient for either sign of b |
| DegreeBins.ByDegree | networkCreation.py:52 | the nodes sorted by degree are ordered by degree and are a permutation of the nodes |
| DegreeBins.MakeFixedBins | networkCreation.py:45-66 | the method computes `FixedBinsOf`, including IndexError for an empty network, for negative numBins and for a node past the last bin, and ZeroDivisionError for zero bins or a zero rounded width |
| DegreeBins.PlaceNodes | networkCreation.py:61-64 | the placement loop over pre-allocated empty bins computes `FixedBinsOf` |
| DegreeBins.FixedBinsOk | networkCreation.py:45-66 | the fixed bins are built iff the network is non-empty, numBins and the rounded bin size are positive, and the maximum degree is below numBins times the bin size |
| DegreeBins.FixedBinsPlacement | networkCreation.py:61-64 | when built there are numBins bins, and a gene is in bin i iff it is a node and i is its degree floor-divided by the bin size |
| DegreeBins.FixedBinsSorted | networkCreation.py:61-64 | every fixed bin is ordered by degree |
| DegreeBins.FixedBinsConcat | networkCreation.py:56-64 | when built, the bins concatenate to the degree-sorted nodes: every node is in exactly one bin |
| DegreeBins.FixedBinsRoundDownFails | networkCreation.py:54-64 | whenever the rounded bin size times numBins is at most the maximum degree, the build fails |
| DegreeBins.StarInTwoFixedBins | networkCreation.py:54-64 | a three-node path (maximum degree 2) in two bins raises IndexError |
| DegreeBins.ClampedBinsConcat | networkCreation.py:45-66 | the corrected fixed bins (the rounded width, at least 1; the last bin takes every higher degree) always give numBins bins that concatenate to the degree-sorted nodes |
| DegreeBins.ClampedBinsPlacement | networkCreation.py:61-64 | in the corrected bins a gene is in bin i iff it is a node and i is min(degree // width, numBins - 1) |
| DegreeBins.ClampedAgreesWithFixed | networkCreation.py:45-66 | whenever the source's fixed bins succeed, the corrected bins equal them |
| DegreeBins.MakeQuantileBins | networkCreation.py:72-89 | the method computes `QuantileBinsOf`, including ZeroDivisionError for zero bins |
| DegreeBins.QuantileBinsShape | networkCreation.py:72-89 | for non-zero numBins it never fails; there are numBins bins (none for negative numBins), each at most the rounded bin size |
| DegreeBins.QuantileBinsConcat | networkCreation.py:85-88 | the bins concatenate to the first numBins times binSize degree-sorted nodes (clamped to the node count) |
| DegreeBins.QuantileBinsOrdered | networkCreation.py:85-88 | every node of an earlier bin has degree at most that of any node of a later bin, and with distinct nodes the bins are disjoint |
| DegreeBins.QuantileBinsDropLast | networkCreation.py:81-88 | when numBins times the rounded size is below the node count, the highest-degree node is in no bin |
| DegreeBins.FiveNodesInTwoQuantileBins | networkCreation.py:81-88 | five nodes in two bins (size round(2.5) = 2) lose the highest-degree node |
| DegreeBins.CoveringQuantileBinsAgree | networkCreation.py:85-88 | the corrected quantile bins agree with the source's on every bin but the last |
| DegreeBins.CoveringQuantileBinsConcat | networkCreation.py:72-89 | the corrected quantile bins concatenate to all degree-sorted nodes |
| CoFSubnetworks.FirstFitSpec | networkCreation.py:122-127 | the bin loop stops at the first non-empty bin whose last node has degree at least the target; it finds none iff every bin passes; a KeyError comes only from a bin whose last node has no row |
| CoFSubnetworks.FirstFitFromSpec | networkCreation.py:122-127 | the same scan from any starting bin |
| CoFSubnetworks.PickNode | networkCreation.py:114-135 | the method for one loci node computes `NullNodeOf` |
| CoFSubnetworks.NullNodeFromBin | networkCreation.py:127-133 | a picked node comes from the first fitting bin: the first draw if it is new, otherwise the second draw |
| CoFSubnetworks.NullNodesOf | networkCreation.py:112-135 | the picked nodes are distinct, at most one per reference node, and all are full-network nodes |
| CoFSubnetworks.NullNodesFromBins | networkCreation.py:112-135 | every picked node lies in the first fitting bin for the degree of some reference node |
| CoFSubnetworks.NullNodeStep | networkCreation.py:112-135 | one reference node extends the picked nodes as `NullNodesOf` does over one more node |
| CoFSubnetworks.NullSubnetwork | networkCreation.py:110-147 | the method for one loci subnetwork computes `NullSubnetworkOf` |
| CoFSubnetworks.NullSubnetworkSize | networkCreation.py:110-147 | a null subnetwork is valid and no larger than its loci subnetwork |
| CoFSubnetworks.NullSubnetworkEdges | networkCreation.py:142-145 | a null subnetwork is the subgraph of the full network induced by its nodes, and symmetric when the full network is |
| CoFSubnetworks.MakeCoFSubnetworks | networkCreation.py:100-148 | the method computes `CoFSubnetworksOf` |
| CoFSubnetworks.CoFSubnetworksCount | networkCreation.py:100-148 | it succeeds iff every null subnetwork succeeds; there is one null subnetwork per loci subnetwork, the i-th from the i-th draws |
| Statistics.CalcEdgeDensity | statistics.py:13-21 | the density is the sum of the node degrees halved |
| Statistics.EdgeDensityCountsEdges | statistics.py:16-19 | for a symmetric loop-free network the density is the number of undirected edges |
| Statistics.ArcsCount | statistics.py:17-18 | the degree sum of distinct nodes is the number of directed arcs among them |
| Statistics.ArcPairs | statistics.py:16 | a symmetric loop-free arc set has twice as many arcs as undirected edges |
| Statistics.CalcEdgeDensityW | statistics.py:29-36 | the weighted density is half the total weight of all rows |
| Statistics.AddWeights | statistics.py:33-34 | one row's loop adds exactly that row's total weight |
| Statistics.DensityWNonNegative | statistics.py:29-36 | non-negative weights give a non-negative weighted density |
| Statistics.UnitWeightsCountEdges | statistics.py:13-36 | with all weights 1 the weighted density equals the unweighted density |
| Statistics.EmpiricalPVal | statistics.py:64-101 | the method computes `PValOf` (ZeroDivisionError for no loci subnetworks or an empty null population) |
| Statistics.SumDensities | statistics.py:70-74 | the loop sums the weighted densities of the loci subnetworks |
| Statistics.PValFromDensity | statistics.py:81-91 | ZeroDivisionError iff the null population is empty, else the as-written p-value |
| Statistics.ScanNull | statistics.py:82-89 | the scan returns the last position whose null density is at most the loci density, or 0 |
| Statistics.LastIsCount | statistics.py:81-89 | on the sorted densities that position is the number of null densities at most the loci density minus one (0 when there are none) |
| Statistics.PValBounds | statistics.py:91 | the p-value lies in [1/n, 1]; it is 1 when all null densities are above the loci density, and 1/n when none are |
| Statistics.PValMonotone | statistics.py:91 | the p-value does not increase as the loci density grows |
| Statistics.CountSortBy | statistics.py:81 | sorting does not change how many densities are at most a bound |
| Statistics.PValAsWritten | statistics.py:91 | the as-written p-value is the fraction above the loci density plus 1/n whenever some null density is at most it |
| Statistics.OneNullBelow | statistics.py:91 | for null densities [0.5] and loci density 1.0 the source yields 1.0 where the fraction above is 0.0 |
| Statistics.FractionAboveBounds | statistics.py:65-67 | the corrected p-value lies in [0, 1]; it is 0 iff no null density exceeds the loci density and 1 iff all do |
| Statistics.CountAtMostBounds | statistics.py:85-89 | the count of densities at most d is n iff all are, and 0 iff none are |
| GeneScoring.LastMatch | geneScoring.py:35-40 | it finds the last subnetwork gene that is not the locus gene and has an edge to the candidate, or shows there is none |
| GeneScoring.ScoreGene | geneScoring.py:33-40 | the method computes `ScoreOf` |
| GeneScoring.ScoreIsLastEdge | geneScoring.py:33-40 | KeyError iff the candidate has no interactions and some other gene is in the subnetwork; otherwise the score is 0 when no other subnetwork gene is a neighbour of the candidate, and else the weight of the edge to the last such neighbour in subnetwork order |
| GeneScoring.FirstLocus | geneScoring.py:24-27 | it finds the first locus containing the gene, or shows no locus does |
| GeneScoring.FindLocus | geneScoring.py:24-27 | the method computes `FirstLocus` |
| GeneScoring.AppendScore | geneScoring.py:42-45 | appending extends exactly that gene's list by the score and leaves the other lists as they were |
| GeneScoring.ScoreLocus | geneScoring.py:30-45 | the method computes `LocusOf` |
| GeneScoring.LocusFails | geneScoring.py:30-45 | scoring a locus fails iff some gene's score fails, and with that error |
| GeneScoring.LocusKeys | geneScoring.py:42-45 | after a locus the keys are the old keys plus the locus genes, and the score table stays well formed |
| GeneScoring.LocusAppends | geneScoring.py:42-45 | a gene outside the locus keeps its list; a gene in it gets its score appended once per occurrence |
| GeneScoring.StepGeneLocus | geneScoring.py:22-45 | UnboundLocalError iff no locus was found so far and none contains the gene; the locus used is the first one containing the gene, or the one carried over from the previous gene |
| GeneScoring.ScoreSubnet | geneScoring.py:22-45 | the method for one subnetwork computes `SubnetOf` |
| GeneScoring.GetGeneScores | geneScoring.py:16-47 | the method computes `GeneScoresOf` |
| GeneScoring.GeneScoresValid | geneScoring.py:16-47 | every gene in the result has a non-empty score list and belongs to some locus |
| GeneScoring.GetGeneScoreAvg | geneScoring.py:54-58 | the method computes `AvgOf` |
| GeneScoring.AvgBounds | geneScoring.py:54-58 | ZeroDivisionError iff some list is empty; otherwise every gene gets an average between the minimum and the maximum of its scores |
| GeneScoring.ScoresHaveAverages | geneScoring.py:16-58 | averaging the scores of a successful getGeneScores never fails |
| GeneScoring.LociScores | geneScoring.py:72-74 | KeyError iff some locus gene has no average; otherwise the locus genes without repeats, in first-seen order |
| GeneScoring.TopBlock | geneScoring.py:72-80 | the method for one locus computes `TopOf` |
| GeneScoring.GetTopLociGenes | geneScoring.py:68-82 | the method computes `TopLociOf` |
| GeneScoring.TopOfSpec | geneScoring.py:72-80 | for one locus: KeyError iff a gene lacks an average; otherwise the Python slice length for numGenes (negative values included); the result is distinct locus genes in descending score order; every left-out gene scores no higher than every kept one; all genes are kept when numGenes reaches the locus size |
| GeneScoring.TopLociSpec | geneScoring.py:68-82 | KeyError iff some locus gene lacks an average; otherwise the result is the concatenation of the per-locus blocks, every gene comes from some locus, and for numGenes >= 0 its length is the sum of min(numGenes, distinct locus size) |
| NetworkVisualization.LastLocus | networkVisualization.py:26-28 | it finds the last locus containing the node, or shows there is none |
| NetworkVisualization.FindLoci | networkVisualization.py:26-28 | the loop leaves the last locus containing the node, or the locus carried over from earlier nodes |
| NetworkVisualization.KeepEdges | networkVisualization.py:31-34 | the edges kept are those to listed nodes outside the locus; UnboundLocalError when no locus was ever found and some edge reaches a listed node |
| NetworkVisualization.MakeCrossLociNetwork | networkVisualization.py:21-35 | the method computes `CrossLociOf` |
| NetworkVisualization.CrossLociSpec | networkVisualization.py:21-35 | when it succeeds the result is valid, its keys are exactly the listed nodes, and every edge is a connection between listed nodes with the same weight; for a node with a locus, an edge exists iff the connection exists, the target is listed and the target is outside that node's last locus |
| NetworkVisualization.NoEdgeWithinLocus | networkVisualization.py:30-33 | with disjoint loci no edge joins two genes of the same locus |
| NetworkVisualization.CrossLociFails | networkVisualization.py:21-35 | it fails iff some node is the first to fail: no row in the connections (KeyError), or no locus found yet and an edge to a listed node (UnboundLocalError) |

## Left out

- Floating point: scores, weights and densities are exact reals. `float(...)` is the caller-supplied `num`/`toFloat`, and its ValueError on a malformed weight is not modelled.
- The random number generator: each `random.choice` is `Pick` with an index from a caller-supplied draw function. The model says nothing about distributions.
- File opening and reading: the text of a file and the lines a file iterates are parameters. Universal-newline translation of `\r\n` is not modelled.
- Printing and plotting in `empiricalPVal` (the histogram, `densPos`), `histogram` and `overlappingHistogram` in `statistics.py`: output only.
- The `lociD` and `coFD` lists of `makeCoFSubnetworks`: they are filled but never returned.
- `main.py`, `test.py`, `outputFiles.py` and `geneticAlgorithm.py` are not part of this model. It covers only those parts of `networkVisualization.py` that compute values (`makeCrossLociNetwork`); its drawing functions are left out.
- GeneScoring.GetGeneScoreAvg: the result is a map, so the key order of the `geneSAvg` dictionary is not modelled. The same holds for the `lociScores` dictionary of `getTopLociGenes`, whose order is carried instead by `LociScores`' first-seen list.
- GeneScoring.GetGeneScores: the key order of the `geneScores` dictionary is kept in a list, but no lemma states it beyond the key set.
- NetworkVisualization.KeepEdges: the order in which edges of a row are visited is not modelled. The resulting row does not depend on it, and when the UnboundLocalError occurs, it occurs whatever the order.
- Inner dictionaries (rows) are maps, so their key order is not modelled. No modelled result depends on it.

## Findings

| source | as written | input that shows it | evidently intended | confidence | as-written member | corrected member |
|---|---|---|---|---|---|---|
| networkCreation.py:54-64 | the fixed bin width is `round(maxEdges/numBins)`, and the highest-degree node goes to bin `floor(maxEdges/binSize)`, which can be `numBins` or more | a path of three nodes (maximum degree 2) in 2 bins: the width is round(1.0) = 1, the centre goes to bin 2, and `fullNetworkBins[2]` raises IndexError | every node is placed in one of the numBins bins | not executed | DegreeBins.FixedBinsRoundDownFails, DegreeBins.StarInTwoFixedBins | DegreeBins.ClampedBinsConcat, DegreeBins.ClampedBinsPlacement, DegreeBins.ClampedAgreesWithFixed |
| networkCreation.py:81-88 | the quantile bin size is `round(numNodes/numBins)`, and the bins take the slices `[i*binSize:(i+1)*binSize]` for i below numBins | 5 nodes in 2 bins: the size is round(2.5) = 2, the bins hold 4 nodes, and the highest-degree node is in no bin | the bins cover all nodes | not executed | DegreeBins.QuantileBinsDropLast, DegreeBins.FiveNodesInTwoQuantileBins | DegreeBins.CoveringQuantileBinsConcat, DegreeBins.CoveringQuantileBinsAgree |
| statistics.py:82-91 | `p` is the last index whose null density is at most the loci density, and `pval = (n - p)/n` | null densities [0.5] and loci density 1.0: p = 0 and pval = 1.0, though no null density exceeds the loci density | the fraction of null densities greater than the loci density (the comment at lines 65-67), which is 0.0 here | not executed | Statistics.PValAsWritten, Statistics.OneNullBelow | Statistics.FractionAboveBounds |
