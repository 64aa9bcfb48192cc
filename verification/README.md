# Spatial soft sweeps and birth-death fixation on graphs, in Dafny

This project models the core of a set of simulation programs about how
mutant clones spread over a contact graph.

**Colonization simulator.** The C++ simulator `spatialsoft2d.cpp`, with its lattice class `lrd2d.h`/`lrd2d.cpp`, works like this:
- It loads an undirected edge list. Its nodes must be labelled 0 .. n-1.
- It then repeats a colonization trial. The graph starts empty. Each step either drops a fresh colour (a new mutation) on a random empty node, or lets a random occupied node copy its colour onto a random neighbour, which takes the colour only if it is empty.
- When every node is occupied, the trial records two figures: the number of clones issued, and the match probability (the chance that two nodes drawn at random carry the same colour).
- Running means of both figures give the reported soft-sweep probability, which is 1 minus the mean match probability, and the mean number of clones.

**Moran birth-death simulator.** `evo0_Bd.h` builds a graph from a file of integers. It then runs trials from a single mutant until one type fixes or a step limit is reached. It records each trial's final mutant count and step count.

**Graph generators.** Three Python scripts build graphs:
- `generate_grids.py` builds grid graphs;
- `generate_tree.py` builds grid graphs with horizontal edges cut level by level into a tree of strips;
- `fingers.py` builds "finger" graphs: all vertical edges, plus the horizontal edges of the first k rows.

One Dafny module covers each component:
- `Common` (shared option/result types, ranges, scaling of a uniform draw);
- `Pool` (`quantizedPointArray`);
- `Lattice` (`latticeLongRangeSim`);
- `Network` (`initialize_network` and the no-gap check);
- `Colonize` (one trial's while loop);
- `Stats` (clone counts, match probability, running means);
- `Driver` (the trial loop of `main`);
- `BdGraph` (the `Simulator` constructor);
- `BirthDeath` (`permute` and both `simulate` overloads);
- `Grids` (`generate_grids.py`, `generate_tree.py`);
- `Fingers` (`fingers.py`).

Randomness is always an argument:
- a uniform draw in [0,1) is a `real`, scaled to an index by truncation (`Common.Scale`);
- an index draw is an integer with the range the source draws from;
- a trial's random stream is a finite sequence of draws.

## Model

| member | source | states |
|---|---|---|
| Common.Range | generate_grids.py:9-10 | Python's `range(lo, hi)`: hi-lo consecutive integers starting at lo, none for an empty range |
| Common.RangeMembers | generate_grids.py:9-10 | an integer is in `range(lo, hi)` exactly when lo <= x < hi |
| Common.Scale | evo0_Bd.h:161 | truncating `(int)(u * k)` of a draw in [0,1) always gives an index below k |
| Common.ScaleOnto | evo0_Bd.h:161 | every index below k is hit by some draw in [0,1), so truncation can pick any node |
| Pool.Create | lrd2d.h:61-70 | a new pool of `total_sites` sites has every site unoccupied, size 0, `empties[k] == k` and `pos_of[k] == k`, and satisfies the representation invariant |
| Pool.ColorAt | lrd2d.h:78-80 | the colour of a site is EMPTY_CELL exactly when the site is unoccupied |
| Pool.EmptyAtPos | lrd2d.h:88-90 | the site stored at any position of the empties list is an in-range unoccupied site |
| Pool.Swap | lrd2d.h:106-107 | `std::swap` exchanges two entries and leaves every other entry alone |
| Pool.Insert | lrd2d.h:94-116 | insert succeeds exactly when the site was unoccupied; a refused insert changes nothing; a successful one writes only that site's colour and adds one to the occupied count |
| Pool.InsertKeepsValid | lrd2d.h:98-114 | occupying an empty site with a proper colour keeps the pool invariant and removes exactly that site from the unoccupied sites and from `empties` |
| Pool.InsertPositions | lrd2d.h:101-111 | after the swap-with-last and pop, every entry of `empties` still has `pos_of` pointing back at its position |
| Pool.InsertIndex | lrd2d.h:101-111 | after the swap-with-last and pop, every site with a position is listed at that position |
| Pool.InsertEmpties | lrd2d.h:101-111 | the swap-with-last and pop drops exactly the inserted site from `empties` |
| Pool.ValidPartition | lrd2d.h:46-51 | under the invariant `empties` lists each unoccupied site exactly once; `Nempty()` is the number of unoccupied sites; `size()` is the number of occupied sites; the two add up to `capacity()` |
| Pool.EmptiesNoDup | lrd2d.h:49-50 | because `pos_of` inverts `empties`, no site is listed twice |
| Pool.EmptiesAreEmptySites | lrd2d.h:48-50 | the sites in `empties` are exactly those whose colour is EMPTY_CELL |
| Pool.SitesSplit | lrd2d.h:48 | every site is unoccupied or occupied, so the two counts add up to the capacity |
| Pool.InsertEmptyColorBreaksCount | lrd2d.h:94-116 | inserting the colour EMPTY_CELL is accepted yet leaves the site looking unoccupied while the count goes up, so callers must pass a real colour |
| Lattice.Create | lrd2d.cpp:6-13 | a new simulation on `lattSize` sites has no occupied site, every site unoccupied, no network and no access counts, and satisfies the invariant |
| Lattice.SiteIdxsAreOccupied | lrd2d.cpp:42-50 | the insertion-order list holds exactly the occupied sites |
| Lattice.AddPoint | lrd2d.cpp:42-50 | addPoint succeeds exactly when the site was unoccupied. On success the site and its time are appended to the insertion-order lists, only that site's colour changes and N grows by one. A refused point changes nothing |
| Lattice.PointByIdx | lrd2d.cpp:34-36 | the idx-th inserted site is an occupied site |
| Lattice.ColorByIdx | lrd2d.cpp:38-40 | the colour of the idx-th inserted site is that site's colour in the pool and is never EMPTY_CELL |
| Lattice.RandomPoint | lrd2d.cpp:30-31 | randomPoint returns an occupied site together with its own colour |
| Lattice.RandomPointOneDrawEach | lrd2d.cpp:62-64 | with randomIndex uniform on [0, N-1], every occupied site is returned for exactly one index, so randomPoint is uniform over the occupied sites |
| Lattice.RandomEmptyPoint | lrd2d.cpp:66-70 | randomEmptyPoint returns an in-range unoccupied site |
| Lattice.RandomEmptyPointOneDrawEach | lrd2d.cpp:66-70 | every unoccupied site is returned for exactly one position in [0, Nempty-1], so the pick is uniform over the unoccupied sites |
| Lattice.RandomNeighbor | lrd2d.cpp:16-27 | randomNeighbor returns a member of the origin's list and adds one to that node's access count (a missing count starts at 0). No other count and no other state changes |
| Lattice.RandomTwoColor | lrd2d.cpp:79-81 | the result is 0 or 1. A fraction of at least 1 always gives 1 and a fraction of at most 0 always gives 0 |
| Lattice.RandomTwoColorBothWays | lrd2d.cpp:79-81 | for a fraction strictly between 0 and 1 both results occur |
| Lattice.ColorsInOrder | lrd2d.cpp:38-40 | the colours of the occupied sites in insertion order, one per occupied site, each equal to colorByIdx |
| Lattice.NetColor | lrd2d.cpp:56-60 | netColor is the sum of the colours of all occupied sites |
| Network.SkipSpace | spatialsoft2d.cpp:106-107 | `>>` skips exactly the leading white space |
| Network.SkipDigits | spatialsoft2d.cpp:106-107 | the digits an `int` extraction consumes are the maximal run of decimal digits |
| Network.ReadInt | spatialsoft2d.cpp:106-107 | a successful `>> int` skips white space and one optional sign, consumes the whole run of digits after them and yields their decimal value under the sign, which fits a 32-bit int; with no digit after the sign the read fails |
| Network.ReadIntText | spatialsoft2d.cpp:106-107 | a read from i recovers any 32-bit int written in decimal at p when only white space lies between i and p and no digit follows, and ends just after the number |
| Network.NatTextValue | spatialsoft2d.cpp:106-107 | reading back the decimal digits of a natural number gives that number |
| Network.IntTextDenotes | spatialsoft2d.cpp:106-107 | the decimal text of an int is a minus exactly for a negative int, followed by digits whose value is its magnitude |
| Network.SignedValue | spatialsoft2d.cpp:106-107 | a digit run with its sign yields plus or minus its decimal value and ends the read after the digits; it fails exactly when that value does not fit a 32-bit int |
| Network.ParseLine | spatialsoft2d.cpp:102-110 | empty lines and lines starting with '#' contribute no edge; an accepted line yields two 32-bit ints |
| Network.ParseLineText | spatialsoft2d.cpp:102-110 | a line holding two 32-bit ints in decimal, separated by a blank and followed by anything that does not continue the second number, yields exactly those two ints |
| Network.ParseLineDenoted | spatialsoft2d.cpp:102-110 | the same for any decimal spelling of the two ints, leading zeros and plus signs aside |
| Network.TrailingTextIgnored | spatialsoft2d.cpp:106-110 | text after the two numbers of an accepted line does not change the edge read |
| Network.ReadIntPrefix | spatialsoft2d.cpp:106-107 | a read that ends before a trailing white-space character is unaffected by anything appended after it |
| Network.Edges | spatialsoft2d.cpp:102-115 | each line contributes at most one edge |
| Network.AddEdge | spatialsoft2d.cpp:113-114 | the two push_backs make both endpoints keys, and no other key appears |
| Network.AddEdgeMult | spatialsoft2d.cpp:113-114 | an edge raises the number of times b occurs in a's list by one for (u,v) and by one for (v,u); a self-loop raises it by two |
| Network.GetAddEdge | spatialsoft2d.cpp:113-114 | an edge appends v to u's list and then u to v's list; every other list is unchanged |
| Network.AddEdgeKeepsSymmetric | spatialsoft2d.cpp:113-114 | adding an edge keeps the adjacency symmetric: lists non-empty, neighbours are keys, b occurs in a's list as often as a in b's |
| Network.AddEdgeSameMult | spatialsoft2d.cpp:113-114 | adding an edge keeps each pair's multiplicity the same in both directions |
| Network.AddEdgeNonEmpty | spatialsoft2d.cpp:113-114 | adding an edge keeps every key's list non-empty |
| Network.AddEdgeKeyed | spatialsoft2d.cpp:113-114 | adding an edge keeps every listed neighbour a key |
| Network.AddEdgeGrows | spatialsoft2d.cpp:113-114 | each list grows by the new entries at its end, at most two |
| Network.BuildSymmetric | spatialsoft2d.cpp:91-117 | the loaded map is symmetric with multiplicity, every key has a non-empty list, and every neighbour is a key |
| Network.BuildDegrees | spatialsoft2d.cpp:91-117 | a node is a key exactly when it is an endpoint of an accepted edge, and its list length is the number of edge endpoints it is (a self-loop counts twice) |
| Network.BuildTotalLength | spatialsoft2d.cpp:113-114 | the list lengths add up to twice the number of accepted edges |
| Network.CheckNoGap | spatialsoft2d.cpp:215-219 | the loop over i < adjList.size() passes exactly when the keys are 0 .. n-1 |
| Network.BuildFromEdges | spatialsoft2d.cpp:111-113 | the map after both push_backs of each accepted edge in turn; its shape is stated by BuildSymmetric, BuildDegrees (key iff endpoint, list length = endpoint count) and BuildTotalLength |
| Network.InitializeNetwork | spatialsoft2d.cpp:91-117 | the loaded map is symmetric with multiplicity, and its lists hold two entries per accepted line |
| Network.LoadedGraphWellFormed | spatialsoft2d.cpp:214-222 | a loaded graph that passes the no-gap check has keys 0 .. n-1, non-empty lists, and only neighbours in 0 .. n-1, so every randomNeighbor call of a trial is defined |
| Colonize.Start | spatialsoft2d.cpp:204-222 | a trial starts with every one of the n sites unoccupied, no occupied site and lastcolor 0, the network in place |
| Colonize.MutateNotJump | spatialsoft2d.cpp:237 | on the empty lattice a positive rate always mutates and a non-positive one never does (the fraction is ±infinity). A fraction of at least one always mutates, and a non-positive rate never mutates |
| Colonize.Step | spatialsoft2d.cpp:236-248 | one pass keeps the trial invariant. It mutates exactly when the draw says so, and always on the empty lattice. A mutation puts colour lastcolor on the drawn empty site (MutSite), appends that site to the occupation order and increments lastcolor. A copy or mutation fills exactly one site and a collision changes no site. Outside a mutation the step copies exactly when the picked site's target neighbour is unoccupied, and the copy colours that neighbour with the picked site's colour. Occupied sites stay occupied |
| Colonize.Mutate | spatialsoft2d.cpp:240-242 | the mutation branch colours the drawn empty site (MutSite) with the old lastcolor and nothing else, appends it to the occupation order, and increments lastcolor |
| Colonize.MutSite | spatialsoft2d.cpp:241 | the site the mutation branch draws is randomEmptyPoint at the scaled pick position, an unoccupied site; each unoccupied site has exactly one such position (Lattice.RandomEmptyPointOneDrawEach) |
| Colonize.Source | spatialsoft2d.cpp:244 | the copy branch's source is the occupied site at the scaled pick position of the occupation order |
| Colonize.Target | spatialsoft2d.cpp:245 | the copy target is a neighbour of the source, an in-range site |
| Colonize.Copy | spatialsoft2d.cpp:243-247 | the copy succeeds exactly when the target neighbour of the picked site is unoccupied; it then gives the target the picked site's colour and appends the target to the occupation order, and otherwise changes no site; lastcolor is unchanged |
| Colonize.Run | spatialsoft2d.cpp:236-248 | the while loop keeps the trial invariant and takes at most one step per draw |
| Colonize.RunStopsWhenFull | spatialsoft2d.cpp:236 | the loop ends with every site occupied unless the draws ran out, and a full lattice takes no step |
| Colonize.RunCounts | spatialsoft2d.cpp:240-247 | lastcolor grows by the number of mutations and N by the number of steps that filled a site |
| Colonize.RunStepsOnlyWhileNotFull | spatialsoft2d.cpp:236 | every step was taken while some site was unoccupied |
| Colonize.StepPalette | spatialsoft2d.cpp:240-247 | a mutation adds the fresh colour to the set of colours present; a copy or a collision adds none |
| Colonize.StepAppendsColour | spatialsoft2d.cpp:240-247 | a step that fills a site appends that site's colour to the colours in insertion order |
| Colonize.SameColourKept | spatialsoft2d.cpp:236-248 | a step never recolours an already occupied site, in insertion order |
| Colonize.StepKeepsOccupiedColours | spatialsoft2d.cpp:236-248 | the colour of an occupied site survives a step |
| Colonize.CopiedColourPresent | spatialsoft2d.cpp:243-247 | a successful copy places a colour that is already on the lattice |
| Colonize.RunPalette | spatialsoft2d.cpp:236-248 | the loop keeps the set of colours present equal to {0 .. lastcolor-1} |
| Colonize.Colonize | spatialsoft2d.cpp:204-248 | a whole trial from the empty start keeps the trial invariant |
| Colonize.ColonizeCounts | spatialsoft2d.cpp:236-248 | at the end of a trial lastcolor equals the number of mutations, and N equals the number of successful steps and is at most n |
| Colonize.ColonizeSteps | spatialsoft2d.cpp:236 | a trial stepped only while some site was unoccupied, and stopped with all sites occupied unless its draws ran out |
| Colonize.ColonizeStartsWithMutation | spatialsoft2d.cpp:236-242 | on a non-empty graph the first step of a trial is a mutation |
| Colonize.ColonizePalette | spatialsoft2d.cpp:236-252 | at the end of a trial the colours on the lattice are exactly 0 .. lastcolor-1, so lastcolor counts the clones present |
| Stats.CloneCounts | spatialsoft2d.cpp:250-252 | clonect has a key for exactly the colours present |
| Stats.FirstSeen | spatialsoft2d.cpp:256 | the colours visited by the loop over clonect: each colour present, once |
| Stats.CloneCountsAreMultiplicities | spatialsoft2d.cpp:250-252 | clonect[c] is the number of occupied sites of colour c |
| Stats.CountsSumToSites | spatialsoft2d.cpp:250-256 | the clone counts add up to the number of occupied sites, which is `total` |
| Stats.SquaresArePairs | spatialsoft2d.cpp:254-259 | the squared clone counts add up to the number of ordered pairs of sites with the same colour |
| Stats.MatchProbIsPairFraction | spatialsoft2d.cpp:254-259 | match_prob, the sum of squared frequencies, is the fraction of same-colour pairs among all ordered pairs of sites |
| Stats.MatchProb | spatialsoft2d.cpp:254-259 | the sum over colours of (count/total)²; MatchProbIsPairFraction and MatchProbBounds state its value and range |
| Stats.MeanStep | spatialsoft2d.cpp:263-264 | one update turns the mean of count-1 values into the mean of count values: result × count = avg × (count-1) + x |
| Stats.RunningMean | spatialsoft2d.cpp:261-264 | the running mean from 0 over a list times its length is the list's sum |
| Stats.MatchProbBounds | spatialsoft2d.cpp:254-259 | for a non-empty lattice match_prob lies in (0, 1] and is 1 exactly when a single clone is present |
| Stats.OneColorIffOneKey | spatialsoft2d.cpp:250-252 | clonect has a single key exactly when every site has the same colour |
| Stats.RunningMeanIsMean | spatialsoft2d.cpp:261-264 | the update `avg += (x - avg) / count` over non-empty data gives the sum divided by the count |
| Stats.RunningMeanIsMeanAll | spatialsoft2d.cpp:198-264 | the running mean started at 0 equals the arithmetic mean, with 0 for no values |
| Stats.SamePairsBounds | spatialsoft2d.cpp:254-259 | each site shares its colour with at least itself and at most all sites |
| Driver.TrialOutcome | spatialsoft2d.cpp:236-264 | a trial yields its figures exactly when it filled every site |
| Driver.TrialOutcomeBounds | spatialsoft2d.cpp:236-264 | on a non-empty graph a finished trial has at least one clone and a match probability in (0, 1] that is 1 exactly when one clone is issued; a trial stops early only when its draws are used up |
| Driver.Outcomes | spatialsoft2d.cpp:202-266 | when every trial finishes there is one outcome per trial |
| Driver.OutcomesPrefixNone | spatialsoft2d.cpp:202-266 | a trial that cannot finish spoils every longer run of trials |
| Driver.OutcomesStep | spatialsoft2d.cpp:202-266 | the outcomes of the first i+1 trials are those of the first i followed by trial i's |
| Driver.MeansSnoc | spatialsoft2d.cpp:261-264 | one more trial advances both running means by exactly one update step |
| Driver.LoadedGraphChecked | spatialsoft2d.cpp:214-222 | a loaded graph that passes the no-gap check is one a trial can run on |
| Driver.RunMain | spatialsoft2d.cpp:198-269 | main reports the failure of the checks (gap in the labels, non-starting rate under the corrected test `mutrate <= 0`, draws used up). Otherwise it reports 1 minus the arithmetic mean of the trials' match probabilities, and the arithmetic mean of their lastcolor values |
| Driver.RunOn | spatialsoft2d.cpp:214-266 | on a loaded graph the checks and the trial loop give that same result, with every rate <= 0 rejected as a non-starter (the corrected test of the Findings row) |
| Driver.TrialLoop | spatialsoft2d.cpp:202-264 | the loop's running means are the arithmetic means of the trials' match probabilities and clone counts, and the loop fails exactly when some trial cannot finish |
| Driver.SummaryBounds | spatialsoft2d.cpp:267-269 | on a non-empty graph the reported soft-sweep probability lies in [0, 1) and the mean clone count is at least 1; the probability is 0 exactly when the mean count is 1 |
| Driver.SummaryBoundsFor | spatialsoft2d.cpp:267-269 | the same bounds for the summary on a loaded graph |
| Driver.OutcomesSound | spatialsoft2d.cpp:202-264 | every recorded trial on a non-empty graph has sound figures |
| Driver.SummaryOfSound | spatialsoft2d.cpp:261-269 | the summary of sound trials lies in [0, 1) × [1, ∞) with probability 0 exactly when the mean count is 1 |
| Driver.TrialSound | spatialsoft2d.cpp:236-264 | a finished trial on a non-empty graph has sound figures |
| Driver.OutcomeOfTrial | spatialsoft2d.cpp:202-264 | each recorded outcome comes from a finished trial and is sound |
| Driver.OutcomesSnoc | spatialsoft2d.cpp:202-264 | a complete list of outcomes is that of all but the last trial followed by the last trial's |
| Driver.MeanBounds | spatialsoft2d.cpp:261-264 | means of values in (0, 1] and of values at least 1, matched so that one is 1 exactly when the other is, keep those bounds and that match |
| Driver.SumBounds | spatialsoft2d.cpp:261-264 | the sums behind the means lie between their extremes and reach them only when every value does |
| Driver.NegativeRatePassesWrittenTest | spatialsoft2d.cpp:230-237 | as written, every negative rate passes the non-starter test, and on the empty lattice it takes the copy branch |
| Driver.CorrectedTestStartsWithMutation | spatialsoft2d.cpp:230-237 | with every non-positive rate rejected, a rate that passes is positive and the first step of a trial mutates |
| Driver.NonStartingAsWritten | spatialsoft2d.cpp:230 | main's non-starter test, true only for a rate of exactly 0; NegativeRatePassesWrittenTest shows every negative rate gets past it |
| BdGraph.MaxNode | evo0_Bd.h:71-80 | the running maximum is at least every token and is 0 or one of the tokens |
| BdGraph.Outs | evo0_Bd.h:75-76 | `out` holds the tokens at even positions, in order |
| BdGraph.Ins | evo0_Bd.h:77-78 | `in` holds the tokens at odd positions, in order |
| BdGraph.HalvesCoverTokens | evo0_Bd.h:72-80 | between them `out` and `in` hold every token read |
| BdGraph.Pairs | evo0_Bd.h:105-107 | edge i joins in[i] and out[i] |
| BdGraph.PairsEndpoints | evo0_Bd.h:94-98 | a node is an edge endpoint as often as it occurs among the tokens |
| BdGraph.Tally | evo0_Bd.h:94-98 | `++degrees[node]` over a list adds each node's number of occurrences |
| BdGraph.Degrees | evo0_Bd.h:89-98 | a node's degree is the number of times it occurs among the tokens |
| BdGraph.Neighbours | evo0_Bd.h:105-112 | one neighbour list per node of the population |
| BdGraph.BuildIsEdgeEnds | evo0_Bd.h:105-112 | the lists built edge by edge equal the reference lists: edge (a, b) adds b to a's list and then a to b's list |
| BdGraph.NeighboursInEdgeOrder | evo0_Bd.h:105-112 | each node's list holds its neighbours in edge order, one entry per edge end at the node, so its length is the node's number of occurrences among the tokens |
| BdGraph.FillNode | evo0_Bd.h:105-112 | the fill as written, seen from one node: `temp[v]` ends at the node's endpoint count, and its array keeps its allocated length |
| BdGraph.FillAsWritten | evo0_Bd.h:100-112 | the fill as written keeps one array of `degrees[v]` slots per node |
| BdGraph.FillAsWrittenNoSelfLoop | evo0_Bd.h:105-112 | without self-loops the fill as written stores each node's neighbours in edge order in the leading slots |
| BdGraph.AllSlotsWrittenWithoutSelfLoops | evo0_Bd.h:100-112 | when degrees are endpoint counts and no edge is a self-loop, every slot is written, with exactly the node's neighbours |
| BdGraph.SelfLoopLeavesSlotUnwritten | evo0_Bd.h:105-112 | for the file "0 0" node 0 gets degree 2, but the fill as written writes slot 0 twice and never writes slot 1 |
| BdGraph.SelfLoopListedTwice | evo0_Bd.h:105-112 | the corrected fill lists node 0 twice for the file "0 0", one entry per endpoint |
| BdGraph.Construct | evo0_Bd.h:64-118 | the constructor fails exactly when the file holds an odd number of integers. Otherwise popsize is the largest id plus one, there is one degree and one list per node, and each degree is the node's number of occurrences |
| BdGraph.ConstructWellFormed | evo0_Bd.h:81-112 | a constructed graph has lists whose lengths equal the degrees, holds only node ids below popsize, and is symmetric with multiplicity |
| BdGraph.ConstructAgreesWithoutSelfLoops | evo0_Bd.h:100-112 | on a file without self-loops the fill as written produces exactly the constructed lists |
| BirthDeath.Permute | evo0_Bd.h:22-32 | permute exchanges the nodes at two indices and keeps `ntoi` the inverse of `iton`; no other index changes, and equal indices change nothing |
| BirthDeath.TypesFromIndex | evo0_Bd.h:148-164 | under the partition invariant a node is a mutant exactly when its index is at least the wild-type count |
| BirthDeath.Init | evo0_Bd.h:148-164 | a trial starts with identity permutations and popsize-1 wild types. Exactly the drawn node is a mutant, and it sits at the last index |
| BirthDeath.OnlyOne | evo0_Bd.h:154-163 | marking one node in an all-zero array makes exactly one mutant |
| BirthDeath.DeathNode | evo0_Bd.h:190-191 | the replaced node is a neighbour of the parent and a valid node |
| BirthDeath.Step | evo0_Bd.h:170-218 | a pass is undefined exactly when the parent has no neighbours |
| BirthDeath.StepKeepsPartition | evo0_Bd.h:170-218 | a pass keeps the partition invariant and adds one to t. The dead node takes the parent's type and no other node changes type. A same-type pair changes only t, and otherwise the mutant count moves by one towards the parent's type |
| BirthDeath.MutantDies | evo0_Bd.h:196-201 | a wild-type parent replacing a mutant keeps the partition invariant |
| BirthDeath.WildDies | evo0_Bd.h:202-207 | a mutant parent replacing a wild type keeps the partition invariant |
| BirthDeath.EvolveEnds | evo0_Bd.h:166-220 | a finished loop keeps the invariant and has stopped because one type holds every node or t reached max_gen * popsize, with t advanced once per pass |
| BirthDeath.Evolve | evo0_Bd.h:167-220 | a finished loop keeps the partition invariant, has stopped (fixation or the step limit) and advanced t by at most one per pass; a loop whose condition is already false returns its state unchanged |
| BirthDeath.RunTrial | evo0_Bd.h:148-220 | a trial from the single-mutant start ends with the partition invariant and ends in fixation (pop1 is 0 or popsize) unless t reached max_gen * popsize |
| BirthDeath.FixedIsUniform | evo0_Bd.h:167 | when one population count is popsize, every node has the same type |
| BirthDeath.EvolveFixation | evo0_Bd.h:166-224 | a trial that ends before the step limit ends in fixation: the mutant count is 0 or popsize and all nodes share one type |
| BirthDeath.NewSimulator | evo0_Bd.h:64-118 | the constructor fails exactly on an odd number of integers; otherwise the result arrays have `trials` entries and the graph is well formed and non-empty |
| BirthDeath.SimulateOnce | evo0_Bd.h:133-229 | one trial writes its final mutant count and step count at run_idx and advances run_idx; no other entry changes |
| BirthDeath.SimulateTrials | evo0_Bd.h:232-242 | run_idx restarts at 0 and entry i records trial i. Entries beyond the trials keep their values, and a failure comes from some trial that could not finish |
| Grids.CellOf | generate_grids.py:11 | node i*w+j is the cell in row i and column j |
| Grids.RowInRange | generate_grids.py:9-11 | every node of the grid lies in a row below the height and a column below the width |
| Grids.CellNeighbours | generate_grids.py:12-25 | a cell gets at most four neighbours |
| Grids.GridAdj | generate_grids.py:5-29 | one list per node 0 .. h*w-1, each with at most four entries |
| Grids.CellInGrid | generate_grids.py:11 | each cell of an h x w grid is a node of it |
| Grids.CellNeighboursAdjacent | generate_grids.py:14-25 | every listed neighbour is a grid cell at Manhattan distance one |
| Grids.AdjacentCellListed | generate_grids.py:14-25 | every cell at Manhattan distance one is listed |
| Grids.CellNeighboursNoDup | generate_grids.py:14-25 | no neighbour is listed twice |
| Grids.GridNeighbours | generate_grids.py:5-29 | each node's list holds exactly its adjacent cells, without repeats |
| Grids.GridSymmetric | generate_grids.py:5-29 | the grid adjacency is symmetric, has no self-loops, and has degree at most four |
| Grids.Sorted | generate_grids.py:42 | `tuple(sorted((a, b)))` is the pair in ascending order |
| Grids.NodePairs | generate_grids.py:41-42 | one normalised pair per entry of a node's list |
| Grids.DedupProps | generate_grids.py:37-45 | keeping first occurrences leaves no repeats and the same elements |
| Grids.DictToList | generate_grids.py:32-47 | the two loops with the `seen` set produce exactly the pairs in first-occurrence order without repeats |
| Grids.AddNodePairs | generate_grids.py:41-45 | the inner loop extends the de-duplicated list by one node's pairs and keeps `seen` equal to the listed pairs |
| Grids.FlattenHas | generate_grids.py:40-42 | every visited (node, neighbour) pair appears normalised in the flattened list |
| Grids.FlattenFrom | generate_grids.py:40-42 | every flattened pair comes from some node's list |
| Grids.GenerateGrid | generate_grids.py:50-53 | generate_grid lists each grid edge exactly once as (smaller, larger) and nothing else |
| Grids.EdgeListMembers | generate_grids.py:32-47 | for a symmetric adjacency, a pair is listed exactly when it is an edge with its smaller end first |
| Grids.GridEdgeAt | generate_grids.py:50-53 | a pair is listed by generate_grid exactly when it is a grid edge in ascending order |
| Grids.RemoveFirst | generate_tree.py:24 | `list.remove` drops exactly one occurrence of a present value, and an absent value changes nothing |
| Grids.RemoveFirstElems | generate_tree.py:24 | on a list without repeats, `list.remove` leaves exactly the other elements, still without repeats |
| Grids.RemoveEdge | generate_tree.py:22-27 | remove_edge touches only the lists of node and node+1 |
| Grids.RemoveFromEffect | generate_tree.py:23-26 | on lists without repeats, one guarded `list.remove` deletes exactly that value from that list and keeps every list without repeats |
| Grids.RemoveEdgeEffect | generate_tree.py:22-27 | on lists without repeats, remove_edge deletes exactly the pair {node, node+1} in both directions |
| Grids.RemoveEdgeIdempotent | generate_tree.py:22-27 | removing the same edge twice is the same as removing it once |
| Grids.RemoveEdgeSymmetric | generate_tree.py:22-27 | remove_edge keeps the adjacency symmetric |
| Grids.GridSimpleSymmetric | generate_tree.py:5-20 | the grid's lists are without repeats and the adjacency is symmetric |
| Grids.Inside | generate_tree.py:52 | the levels with each position list restricted to positions strictly inside the width |
| Grids.Filter | generate_tree.py:52 | keeps exactly the positions strictly between 0 and the width |
| Grids.CutsNeedWidth | generate_tree.py:52-57 | with positions strictly inside the width, cuts exist only in grids at least two columns wide |
| Grids.RemoveAll | generate_tree.py:54-57 | removing the cuts in turn keeps one list per node |
| Grids.RemoveAllEffect | generate_tree.py:54-57 | removing the cuts in turn deletes exactly the pairs {c, c+1} with c a cut node, and keeps the lists simple and symmetric |
| Grids.TreeDict | generate_tree.py:40-57 | the tree dict has one list per node |
| Grids.TreeSimpleSymmetric | generate_tree.py:40-57 | the tree's lists stay without repeats and symmetric, and lose exactly the cut pairs |
| Grids.CutGridAdjacency | generate_tree.py:22-27 | after removing the pairs of any cut list from the grid, two nodes are adjacent exactly when they are grid-adjacent and not a cut pair |
| Grids.TreeAdjacency | generate_tree.py:40-57 | with the positions kept inside the width, two nodes are adjacent in the tree exactly when they are adjacent in the grid and are not a cut pair |
| Grids.TreeAdjacencyAsWritten | generate_tree.py:40-57 | as written, two nodes are adjacent in the tree exactly when they are adjacent in the grid and are not a pair cut by some position |
| Grids.RowEndsNotAdjacent | generate_tree.py:52-56 | in a grid at least two columns wide the last cell of a row and the first of the next are not adjacent, so a cut at position 0 or w removes nothing |
| Grids.RowCutsAgree | generate_tree.py:54-56 | for a grid pair, the row cuts as written and with positions inside the width agree when every position lies in [0, w] |
| Grids.CutNodesAsWritten | generate_tree.py:46-57 | the remove_edge nodes of all levels in loop order; CutNodesAgree ties them to the inside-width cuts |
| Grids.RowCuts | generate_tree.py:54-56 | the cut nodes of rows start .. end-1, row by row; RowCutsLength counts them and RowCutsAgree compares them with the inside-width cuts |
| Grids.RowCutsLength | generate_tree.py:54-56 | rows start .. end-1 contribute one cut per position per row, (end - start) times the number of positions in all |
| Grids.RowCut | generate_tree.py:55-56 | the cut nodes of one row are row × width + (j - 1) for each position j, in order |
| Grids.TreeDictAsWritten | generate_tree.py:40-57 | one list per node; TreeAdjacencyAsWritten states its adjacency |
| Grids.CutNodesAgree | generate_tree.py:46-57 | the same over all levels |
| Grids.TreeAsWrittenAgrees | generate_tree.py:40-57 | on a grid at least two columns wide with positions in [0, w], the tree as written has the same neighbour sets as the tree with positions inside the width |
| Grids.CutNodesNeedWidth | generate_tree.py:52-57 | every intended cut lies in a grid at least two columns wide |
| Grids.TreeKeepsVertical | generate_tree.py:52-57 | with cut positions inside the width, the tree keeps every vertical edge in both lists |
| Grids.GenerateTree | generate_tree.py:40-59 | with the positions kept inside the width, generate_tree lists each tree edge exactly once as (smaller, larger): the grid edges that are not cut pairs |
| Grids.GenerateTreeAsWritten | generate_tree.py:40-59 | as written, generate_tree lists each grid edge that no position cuts exactly once as (smaller, larger); on a grid at least two columns wide with positions in [0, w] (all that linspace yields) these are exactly the edges of GenerateTree |
| Grids.CutGridEdgeAt | generate_tree.py:29-38 | the edge list of the grid minus any cut list holds a pair exactly when it is a grid edge, in ascending order, that is not cut |
| Grids.TreeEdgeAt | generate_tree.py:40-59 | with the positions kept inside the width, a pair is listed by generate_tree exactly when it is a grid edge, in ascending order, that is not a cut pair |
| Grids.CutAtZeroRemovesVerticalEdge | generate_tree.py:52-57 | as written, a one-column, two-row grid whose second level has the position 0 loses its only vertical edge |
| Grids.CutAtZeroKeptInside | generate_tree.py:52-57 | with the positions kept inside the width, the same input keeps the vertical edge |
| Fingers.NodeIdInverse | fingers.py:36-37 | node_id is one-to-one on the grid: row and column come back by division and remainder |
| Fingers.Vertical | fingers.py:40-44 | there are (rows-1)*cols vertical edges |
| Fingers.RowEdges | fingers.py:54-58 | a row has cols-1 horizontal edges |
| Fingers.Horizontal | fingers.py:54-58 | the first k rows have k*(cols-1) horizontal edges |
| Fingers.VerticalMembers | fingers.py:40-44 | the vertical list holds exactly the pairs joining a node of the first rows-1 rows to the node below it |
| Fingers.HorizontalMembers | fingers.py:54-58 | the horizontal list of the first k rows holds exactly the pairs joining a node of those rows, not in the last column, to its right neighbour |
| Fingers.RowEdgesMembers | fingers.py:54-58 | row r's list holds exactly the horizontal edges leaving row r |
| Fingers.HorizontalSplit | fingers.py:54-58 | the horizontal edges of k rows are those of k-1 rows plus row k-1's |
| Fingers.Generations | fingers.py:46-65 | one graph per generation 1 .. rows |
| Fingers.GenerationEdges | fingers.py:46-61 | generation k's edges are exactly the vertical edges and the horizontal edges of rows 0 .. k-1 |
| Fingers.Generation | fingers.py:47-61 | generation k has every node and the vertical edges plus the horizontal edges of rows 0 .. k-1; GenerationEdges and GenerationsShape state its membership and shape |
| Fingers.GenerationsShape | fingers.py:46-61 | every generation has all rows*cols nodes, every edge joins two of them, and every vertical edge is present |
| Fingers.HorizontalEndpoint | fingers.py:54-58 | the right end of a horizontal edge lies in the grid |
| Fingers.GenerationsGrow | fingers.py:46-61 | each generation contains the previous one's edges, and generation k+1 adds exactly the horizontal edges of row k |

## Left out

- Random number generation: the Mersenne Twister, `std::uniform_int_distribution`, `uniform_real_distribution`, `std::random_device` and the seeding from `time(NULL)` or the seed option are not modelled.
  - Each draw is an argument instead: an index in the range the source draws from, or a real in [0,1).
  - `randomIndex` is therefore the index argument of `Lattice.RandomPoint`, and its uniformity is stated by `Lattice.RandomPointOneDrawEach`.
- Finite random streams: a trial's draws are a finite sequence, so a trial may run out of draws before the lattice is full. The model reports `DrawsExhausted` then. The source's generator never runs out.
- Floating point: every double is an exact real. The rounding of the match-probability sum, of the running-mean updates and of `mutrate * (n - N) / N` is not modelled.
  - The division by zero on the empty lattice is modelled by its IEEE outcome: ±infinity, and nothing for a rate of 0.
- Evaluation order: `Stats.MatchProb` sums the squared frequencies in first-occurrence order, while `std::map` visits the colours in ascending order. With exact reals the sum does not depend on the order.
- Fitness in evo0_Bd.h: `fitness_t`, the fitness-weighted choice of the birth index (lines 171-188) and the parameters s2, a1 and a2 are floating-point arithmetic. Each pass takes its birth index as an argument, together with the uniform death draw.
- The weighted sampler of spatialsoft2d.cpp (`weights`, `addToEnd`, `initialize_weights`, `randomFromWeights`) is filled but never read by the colonization loop. It is not modelled.
- The stochastic deme models, `Rg`, `num_occurs`, `sumsq` and the unused constructor arguments of `latticeLongRangeSim` (dimension, decay, final size, colouring flag) are not part of this model.
- I/O:
  - Opening and reading the files is not modelled. The edge list is given as its lines and the Simulator's input as its integers.
  - Writing the summary file, `Simulator::save`, the Simulator's output file, option parsing and `print` are left out.
  - An unreadable file (the `runtime_error` of `initialize_network`) is not modelled.
- The Python graph libraries are not modelled:
  - A networkx graph is a node set plus an edge set (`Fingers.Graph`).
  - `save_edge_list_txt` and all plotting are left out.
  - numpy's `linspace` is not computed. The level rows and cut positions of generate_tree are given as `Grids.Level` values, the positions being numpy's integer linspace of the width.
- Integer widths: node ids, colours, `lastcolor`, `t` and the population counts are unbounded integers. The 32-bit range is modelled only where the source's behaviour depends on it: a `>> int` whose value does not fit fails the read.
- The number of trials: main runs 100000 trials. Here the number of trials is the number of random streams given.
- Driver.RunOn: uses the corrected non-starter test `mutrate <= 0`, where main tests only `mutrate == 0` (spatialsoft2d.cpp:230). A negative rate, which main lets through into a copy on the empty lattice, is rejected here; `Driver.NegativeRatePassesWrittenTest` states the written test and the Findings table gives the input.
- Driver.RunMain: main reloads the edge list and repeats the no-gap and non-starter checks inside every trial. On the same input they give the same answer each time, so the model performs them once before the first trial. Its non-starter check is the corrected one described for Driver.RunOn.
  - The assert of the no-gap check aborts the program (unless NDEBUG is set). The model reports `GapInGraph` instead.
- Pool.Insert: the source's `pos != -1` test always holds for an unoccupied site under the pool invariant, so its false branch is not modelled.
- Insertion times: the `times` list of `latticeLongRangeSim` is kept, but main never passes a time, so every entry is the default 0.
- BirthDeath.NewSimulator: the constructor leaves `run_idx` uninitialised, and only `simulate(trials, ...)` sets it to 0. The model starts it at 0. `SimulateOnce` requires run_idx to be below the number of trials, because the source writes past the arrays otherwise.
- BirthDeath.Step: a birth node without neighbours makes the source read slot 0 of an empty array. The model returns `None` there, and `Evolve` reports `NoNeighbour`. The birth index itself is in range by precondition.
- BdGraph.FillAsWritten is modelled node by node (`BdGraph.FillNode`): each node's slots as written, without the interleaving of writes to different nodes' arrays. A negative id in the input is excluded by precondition, since the source would index `degrees` with it.
- Network.Edges: its contract states only that each line contributes at most one edge. The loaded graph's shape is stated by `Network.BuildSymmetric`, `Network.BuildDegrees`, `Network.BuildTotalLength` and `Network.LoadedGraphWellFormed`.
- Network.ParseLine: its contract states the skipped lines and the int range of an accepted pair. The values of the pair are stated through `Network.ReadInt` (each read's value is the signed value of its digits), `Network.ParseLineText` (a line written as two decimal ints reads back as those ints) and `Network.TrailingTextIgnored`.
- Stream states of `std::istringstream` beyond a failed extraction (locale, hexadecimal or octal bases) are not modelled. A number is optional white space, an optional sign and decimal digits.

## Findings

| source | as written | input that shows it | evidently intended | confidence | as-written member | corrected member |
|---|---|---|---|---|---|---|
| spatialsoft2d.cpp:230-233 | only a rate of exactly 0 is rejected as a non-starter | any mutrate < 0, e.g. -0.5, on a graph with n >= 1 nodes: on the empty lattice the mutation test compares a draw with -infinity and fails, so the copy branch calls `randomIndex` with N = 0, drawing from the empty range [0, -1] | every non-positive rate is rejected, since none of them can start a clone | not executed; high | Driver.NegativeRatePassesWrittenTest | Driver.CorrectedTestStartsWithMutation |
| evo0_Bd.h:105-112 | a self-loop line "u u" writes `edgelist[u][temp[u]]` twice and then advances `temp[u]` by two | the file "0 0": node 0 has degree 2, slot 0 is written twice and slot 1 is never written | each endpoint fills its own slot, so node 0 lists itself twice | not executed; high | BdGraph.SelfLoopLeavesSlotUnwritten | BdGraph.SelfLoopListedTwice |
| generate_tree.py:52-57 | the cut positions `linspace(0, width, 2**level + 1, dtype=int)[1:-1]` are used unchecked, and position 0 cuts node `i*width - 1` | generate_tree(2, 2, 1): level 1 gets positions [0], and row 1 cuts node 0, removing the vertical edge 0-1 | cut only at positions strictly between 0 and the width ("exclude 0 and width"), keeping every vertical edge | not executed; medium | Grids.CutAtZeroRemovesVerticalEdge | Grids.TreeKeepsVertical |
