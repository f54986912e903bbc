# Foobar Challenge solutions in Dafny

This project models eight of the Foobar Challenge puzzle solutions (Python 2)
and proves what each one computes.

The largest is the trainer-pairing engine of "Distract the Trainers":
- a compatibility predicate (Euclid's gcd, then a power-of-two test);
- a builder for the tournament graph;
- a destructive minimum-degree greedy matcher;
- a validating entry point.

The other seven are self-contained:
- the Atbash decoder of "Lance and Janice";
- the knight-distance breadth-first search of "Don't Get Volunteered";
- the post-order tree parent lookup of "Ion Flux Relabeling";
- the closed-form XOR checksum of "Queue To Do";
- the memoised distinct-part partition count of "The Grandest Staircase";
- the pellet reduction of "Fuel Injection Perfection";
- the Floyd–Warshall relaxation and permutation search of "Running with Bunnies".

Layout, one module per file:
- `Common` (`common.dfy`): `Option` (Python's `None`) and sequence predicates.
- `Bits` (`bits.dfy`): Python's `&` and `^` on unbounded naturals, with the algebra the proofs use.
- `Compatibility`, `Graphs`, `TournamentGraph`, `GreedyMatcher`, `Trainers`: Distract the Trainers.
- `LanceAndJanice`, `DontGetVolunteered`, `IonFluxRelabeling`, `QueueToDo`, `GrandestStaircase`, `FuelInjection`, `RunningWithBunnies`: one module per solution.

Each operation gets an independent partner, and lemmas connect the two. Examples:
- the XOR pattern table is proved equal to a fold of XOR over the range;
- the staircase recurrence is proved to count an explicit enumeration of staircases, which is sound, complete and free of duplicates;
- the breadth-first labels are proved to be knight distances, with a walk of that many moves and no shorter one;
- the bitwise pellet test is proved equal to a rule on the remainder mod 4;
- the greedy matcher's pairs are proved equal to a recursive definition of the minimum-degree heuristic, and to be a maximal matching of the tournament graph;
- the Floyd–Warshall entries are proved to be times of real walks in the input, each at most the time of every walk without repeated stops; a diagonal entry is negative exactly when the input has a closed walk of negative time, and otherwise every entry is the shortest walk time.

Python 2 details are modelled explicitly:
- `/` on integers is floor division (the square → row/column split, the pellet halving).
- Index `-1`, the column subscript of the route's last hop, denotes the last entry of that row (the bulkhead column).
- Dictionary keys are iterated in ascending order, which is their insertion order in the trainers graph. So `min` picks the lowest key among the nodes tied for minimum degree.
- A Python `None` result is `Option.None`.

One point where the trainers entry point's docstring (Level_4/7_DistractTheTrainers/solution.py:153-160, which promises `None` whenever a noted precondition is violated) and its code differ: the code answers `2` for two equal counts *before* checking the 2^30 − 1 bound. The model follows the code, so `[x, x]` with a huge `x` gives `2`, not "no result" (`Trainers.Solution`).

## Model

| member | source | states |
|---|---|---|
| LanceAndJanice.DecodeChar | Level_1/1_LanceAndJanice/solution.py:23-34 | a character is a lower-case letter exactly when its decoding is; the letter at offset i from 'a' becomes the one at offset 25 - i; every other character is unchanged |
| LanceAndJanice.DecodeCharMirrorsAlphabet | Level_1/1_LanceAndJanice/solution.py:23-30 | against the alphabet written out, the i-th letter decodes to the (25 - i)-th (a↔z, b↔y, …) |
| LanceAndJanice.DecodeCharInvolution | Level_1/1_LanceAndJanice/solution.py:29-34 | decoding a character twice gives it back |
| LanceAndJanice.Decipher | Level_1/1_LanceAndJanice/solution.py:27-37 | the output has the input's length and each output character depends only on the input character at the same position |
| LanceAndJanice.DecipherInvolution | Level_1/1_LanceAndJanice/solution.py:27-37 | deciphering a whole message twice gives it back, so the cipher is its own encryption |
| LanceAndJanice.DecipherKeepsBytes | Level_1/1_LanceAndJanice/solution.py:27-37 | deciphering a byte string gives a byte string, since letters map to letters and every other character is kept |
| LanceAndJanice.DecipherKeepsNonLetters | Level_1/1_LanceAndJanice/solution.py:31-34 | a message without lower-case letters (punctuation, capitals) comes back unchanged |
| LanceAndJanice.Solution | Level_1/1_LanceAndJanice/solution.py:11-37 | the message is a byte string (every character below 256); the empty message and messages over 1000000 bytes give ""; any other message gives its decoding, a byte string that enciphers back to the input |
| LanceAndJanice.EncryptionWordExample | Level_1/1_LanceAndJanice/solution.py:63-68 | "vmxibkgrlm" deciphers to "encryption" |
| LanceAndJanice.AllCapsExample | Level_1/1_LanceAndJanice/solution.py:84-89 | an all-capitals message is left alone |
| DontGetVolunteered.ToPos | Level_2/2_DontGetVolunteered/solution.py:36-39 | a square number 0..63 splits by floor division into a row and column on the board |
| DontGetVolunteered.IndexRoundTrip | Level_2/2_DontGetVolunteered/solution.py:36-42 | square number → (row, column) → square number is the identity, and so is the reverse direction on the board |
| DontGetVolunteered.IndexInjective | Level_2/2_DontGetVolunteered/solution.py:36-42 | different squares have different places in the board table |
| DontGetVolunteered.KnightMovesAreSteps | Level_2/2_DontGetVolunteered/solution.py:45-50 | every entry of the move table is an L-shaped knight move |
| DontGetVolunteered.StepInTable | Level_2/2_DontGetVolunteered/solution.py:45-50 | every L-shaped knight move is an entry of the move table |
| DontGetVolunteered.UnlabelledDecreases | Level_2/2_DontGetVolunteered/solution.py:67-69 | labelling an unlabelled square lowers the number of unlabelled squares by one, which bounds the search |
| DontGetVolunteered.Solution | Level_2/2_DontGetVolunteered/solution.py:18-77 | 0 when either square is outside 0..63; otherwise the label of dest is the knight distance: a walk of that many moves exists and none is shorter; None only when no walk exists; src = dest gives 0 |
| DontGetVolunteered.StartSearching | Level_2/2_DontGetVolunteered/solution.py:41-53 | the board with only the source labelled 0 and the queue holding the source satisfy the search invariant |
| DontGetVolunteered.Expand | Level_2/2_DontGetVolunteered/solution.py:57-72 | expanding the popped square keeps the invariant and either labels a new square or leaves board and queue unchanged |
| DontGetVolunteered.ExpandStep | Level_2/2_DontGetVolunteered/solution.py:61-72 | labelling an unvisited on-board target with the current label + 1 and enqueuing it keeps the invariant of the move loop |
| DontGetVolunteered.ExpandSkip | Level_2/2_DontGetVolunteered/solution.py:63-67 | a move off the board or onto a labelled square changes nothing and keeps the invariant |
| DontGetVolunteered.StepDiscovered | Level_2/2_DontGetVolunteered/solution.py:67-69 | after a new label, every labelled square but the source still records a discoverer one knight move away whose label is one lower |
| DontGetVolunteered.StepQueue | Level_2/2_DontGetVolunteered/solution.py:69-72 | appending the new square keeps the queue's labels non-decreasing |
| DontGetVolunteered.ExpandDone | Level_2/2_DontGetVolunteered/solution.py:60-72 | after all eight moves every on-board neighbour of the popped square is labelled at most one more than it |
| DontGetVolunteered.SearchComplete | Level_2/2_DontGetVolunteered/solution.py:55-57 | when the queue is empty, every on-board knight neighbour of a labelled square is labelled at most one more than it |
| DontGetVolunteered.WalkTo | Level_2/2_DontGetVolunteered/solution.py:67-69 | following discoverers gives a walk from the source to a labelled square with exactly its label's number of moves |
| DontGetVolunteered.LabelsBoundWalks | Level_2/2_DontGetVolunteered/solution.py:55-75 | every walk from the source ends on a labelled square whose label is at most the walk's length, so labels are minimal |
| DontGetVolunteered.WalkColours | Level_2/2_DontGetVolunteered/solution.py:45-50 | each knight move changes square colour, so a walk of m moves ends on the start colour exactly when m is even |
| DontGetVolunteered.OneMoveExample | Level_2/2_DontGetVolunteered/solution.py:90-96 | from 19 to 36 is one move |
| DontGetVolunteered.ThreeMovesExample | Level_2/2_DontGetVolunteered/solution.py:82-88 | from 0 to 1 is three moves |
| IonFluxRelabeling.SubtreeParent | Level_2/3_IonFluxRelabeling/solution.py:20-39 | inside a post-order subtree, the parent of a label below the subtree's root is above the label and no higher than the root |
| IonFluxRelabeling.RootChildren | Level_2/3_IonFluxRelabeling/solution.py:24-32 | both children of a subtree root, the label just below it and the root of the left half, have the root as parent |
| IonFluxRelabeling.ParentDistance | Level_2/3_IonFluxRelabeling/solution.py:27-32 | a parent is one above a right child or a power of two above a left child |
| IonFluxRelabeling.MiddleIsLeftRoot | Level_2/3_IonFluxRelabeling/solution.py:24-27 | the bisection's middle is the root of the left subtree |
| IonFluxRelabeling.Parent | Level_2/3_IonFluxRelabeling/solution.py:4-39 | the bisection loop gives -1 for the root, None for labels below 1, and otherwise the post-order parent, strictly above the node and at most the root |
| IonFluxRelabeling.CollectContents | Level_2/3_IonFluxRelabeling/solution.py:76-90 | the collected parents have no duplicates and at most one entry per query; every converter that passes the filter has its parent in the list, and every entry is such a parent |
| IonFluxRelabeling.Solution | Level_2/3_IonFluxRelabeling/solution.py:42-96 | [-1] for a height outside 1..30 or too many or too few converters; otherwise the collected parents, or [-1] when none; the answer always has 1 to 10000 distinct entries |
| IonFluxRelabeling.HeightThreeParents | Level_2/3_IonFluxRelabeling/solution.py:101-107 | in the tree of height 3 the parents of 7, 3, 5 and 1 are -1, 7, 6 and 3 |
| QueueToDo.XorOfSequence | Level_3/4_QueueToDo/solution.py:4-18 | the four-entry pattern gives the XOR of every id from first to last |
| QueueToDo.XorOfSequenceIsRangeXor | Level_3/4_QueueToDo/solution.py:13-18 | by induction on the length of the range: the pattern picked by the parity of first and (last - first) mod 4 equals the XOR fold of the range |
| QueueToDo.EvenPatternStep | Level_3/4_QueueToDo/solution.py:13-14 | for an even first id, extending the range by one id XORs that id into the pattern's value |
| QueueToDo.OddPatternStep | Level_3/4_QueueToDo/solution.py:15-16 | for an odd first id, extending the range by one id XORs that id into the pattern's value |
| QueueToDo.Solution | Level_3/4_QueueToDo/solution.py:34-48 | None exactly when start or length is negative or start + length² exceeds 2000000000; otherwise the XOR over the rows, each row holding its first length - row ids; a line of length 0 gives 0 |
| QueueToDo.XorOfSequenceExamples | Level_3/4_QueueToDo/solution.py:181-191 | the pattern gives 17, 16, 23 and 48 on the four worked ranges |
| Bits.XorAssociative | Level_3/4_QueueToDo/solution.py:40-46 | XOR on naturals is associative |
| Bits.XorCommutative | Level_3/4_QueueToDo/solution.py:16 | XOR on naturals is commutative |
| GrandestStaircase.StairsCount | Level_3/5_TheGrandestStaircase/solution.py:20-26 | the recurrence's value is the number of staircases in the explicit enumeration |
| GrandestStaircase.StairsSound | Level_3/5_TheGrandestStaircase/solution.py:20-26 | every enumerated staircase has strictly ascending steps of at least the given height and uses exactly the given bricks |
| GrandestStaircase.StairsComplete | Level_3/5_TheGrandestStaircase/solution.py:20-26 | every such staircase is enumerated |
| GrandestStaircase.StairsDistinct | Level_3/5_TheGrandestStaircase/solution.py:25-26 | no staircase is enumerated twice, so the two branches of the recurrence never overlap |
| GrandestStaircase.NonEmptyStairs | Level_3/5_TheGrandestStaircase/solution.py:20-21 | only the empty staircase, enumerated exactly when no bricks are left, has no step |
| GrandestStaircase.TwoStepStairs | Level_3/5_TheGrandestStaircase/solution.py:51 | the single step holding every brick is the one enumerated staircase with fewer than two steps, which is what the final "- 1" removes |
| GrandestStaircase.EmptyTable | Level_3/5_TheGrandestStaircase/solution.py:48 | the table is a square grid of zeros of the requested size |
| GrandestStaircase.StaircaseCombinations | Level_3/5_TheGrandestStaircase/solution.py:4-28 | the memoised recursion returns the recurrence's value; every access stays inside the table; a non-zero entry always holds the recurrence's value |
| GrandestStaircase.Store | Level_3/5_TheGrandestStaircase/solution.py:25 | storing the recurrence's value keeps every non-zero entry correct |
| GrandestStaircase.Solution | Level_3/5_TheGrandestStaircase/solution.py:31-53 | 0 above 200 bricks (the chained comparison refuses nothing else); otherwise the number of staircases of at least two steps using all n bricks |
| GrandestStaircase.SmallBudgets | Level_3/5_TheGrandestStaircase/solution.py:65-77 | 2, 3 and 4 bricks give 0, 1 and 1 staircases |
| GrandestStaircase.FiveAndSixBricks | Level_3/5_TheGrandestStaircase/solution.py:79-91 | 5 and 6 bricks give 2 and 3 staircases |
| FuelInjection.Choose | Level_3/6_FuelInjectionPerfection/solution.py:19-34 | the step divides exactly when the count is even |
| FuelInjection.ChooseByResidue | Level_3/6_FuelInjectionPerfection/solution.py:27 | the bitwise test agrees with a rule on the remainder: remove from 3 and from counts one above a multiple of four, add to the other odd counts |
| FuelInjection.Next | Level_3/6_FuelInjectionPerfection/solution.py:17-36 | every step from a count of at least 2 lands on a positive count and lowers a measure, so the loop ends for every positive start |
| FuelInjection.PathIsTrace | Level_3/6_FuelInjectionPerfection/solution.py:13-39 | the path starts at n and ends at 1, has one more entry than there are operations, and each entry follows from the previous one by the chosen operation |
| FuelInjection.TraceUnique | Level_3/6_FuelInjectionPerfection/solution.py:17-36 | any such trace from n is the one the loop produces |
| FuelInjection.ReduceToOne | Level_3/6_FuelInjectionPerfection/solution.py:4-39 | the loop returns a trace from n to 1 and the number of its operations; it divides exactly at even counts and never adds to 3 |
| FuelInjection.DropLeadingSpace | Level_3/6_FuelInjectionPerfection/solution.py:55 | stripping leading whitespace gives a suffix that is empty or starts with a non-space character |
| FuelInjection.DropTrailingSpace | Level_3/6_FuelInjectionPerfection/solution.py:55 | stripping trailing whitespace gives a prefix that is empty or ends with a non-space character |
| FuelInjection.DropLeadingOf | Level_3/6_FuelInjectionPerfection/solution.py:55 | whitespace followed by a string that does not start with whitespace strips back to that string |
| FuelInjection.DropTrailingOf | Level_3/6_FuelInjectionPerfection/solution.py:55 | a string that does not end with whitespace, followed by whitespace, strips back to that string |
| FuelInjection.DropSpaceAround | Level_3/6_FuelInjectionPerfection/solution.py:55 | a string with no whitespace at either end, wrapped in whitespace, is trimmed back to itself |
| FuelInjection.ParseDigits | Level_3/6_FuelInjectionPerfection/solution.py:55 | a non-empty run of decimal digits parses to its decimal value |
| FuelInjection.TrimNothing | Level_3/6_FuelInjectionPerfection/solution.py:55 | a string with no whitespace at either end is its own trimmed form |
| FuelInjection.ParseUnsigned | Level_3/6_FuelInjectionPerfection/solution.py:55 | whitespace, then digits, then whitespace parses to the digits' value |
| FuelInjection.ParseSigned | Level_3/6_FuelInjectionPerfection/solution.py:55 | whitespace, a `+` or `-`, whitespace, digits, whitespace parses to the digits' value, negated exactly for `-` |
| FuelInjection.ParseSpace | Level_3/6_FuelInjectionPerfection/solution.py:55-57 | a string of whitespace only, the empty string included, does not parse, so the answer is 0 |
| FuelInjection.ParseWord | Level_3/6_FuelInjectionPerfection/solution.py:55-57 | a string that starts and ends with a lower-case letter does not parse |
| FuelInjection.NonPositiveNeverReachesOne | Level_3/6_FuelInjectionPerfection/solution.py:17-34 | from a count of zero or below, every count the loop's steps produce is still at most zero, so the loop never reaches one |
| FuelInjection.Solution | Level_3/6_FuelInjectionPerfection/solution.py:42-66 | for None or a byte string on which the loop terminates (not a negative numeral): 0 for None, for more than 309 characters, for a string `int()` rejects and for a numeral of zero; otherwise the number of operations of the reduction |
| FuelInjection.SmallPaths | Level_3/6_FuelInjectionPerfection/solution.py:155-191 | 15 goes 15, 16, 8, 4, 2, 1 by add then four divides; 4 goes 4, 2, 1 by two divides |
| FuelInjection.ParseExamples | Level_3/6_FuelInjectionPerfection/solution.py:138-143 | "15" and "0" parse; "eleventy-six" and "" do not |
| FuelInjection.ParseSpacingExamples | Level_3/6_FuelInjectionPerfection/solution.py:55 | " 15" parses to 15, as `int()` allows surrounding whitespace; "1_5" does not parse |
| FuelInjection.ParseSignExamples | Level_3/6_FuelInjectionPerfection/solution.py:55 | "+15" parses to 15 and "- 1" to -1 |
| Compatibility.Gcd | Level_4/7_DistractTheTrainers/solution.py:20-45 | when either argument is non-zero, the remainder loop's result divides both arguments |
| Compatibility.GcdGreatest | Level_4/7_DistractTheTrainers/solution.py:42-45 | every common divisor of the arguments divides the result |
| Compatibility.GcdSymmetric | Level_4/7_DistractTheTrainers/solution.py:42-45 | swapping the arguments does not change the result |
| Compatibility.PowerOfTwoTest | Level_4/7_DistractTheTrainers/solution.py:12-17 | n & (n - 1) == 0 with n ≠ 0 holds exactly for the powers of two |
| Compatibility.IsPowerOfTwo | Level_4/7_DistractTheTrainers/solution.py:4-17 | the test is true exactly for powers of two, so 0 is not one |
| Compatibility.InfiniteLoop | Level_4/7_DistractTheTrainers/solution.py:48-62 | for positive counts, a pair loops exactly when (a + b) / gcd(a, b) is not a power of two |
| Compatibility.InfiniteLoopSymmetric | Level_4/7_DistractTheTrainers/solution.py:57-62 | the predicate does not depend on the order of the pair |
| Compatibility.EqualCountsStop | Level_4/7_DistractTheTrainers/solution.py:94-98 | trainers with equal counts never loop |
| Graphs.RemoveFirstRemovesOne | Level_4/7_DistractTheTrainers/solution.py:127-131 | deleting the first occurrence of a present node removes exactly one copy and keeps the rest of the list |
| Graphs.RemoveFirstOfDistinct | Level_4/7_DistractTheTrainers/solution.py:133-138 | on a list without duplicates, deleting the first occurrence removes the node entirely |
| TournamentGraph.NeighboursBelowMembers | Level_4/7_DistractTheTrainers/solution.py:74-78 | the first m columns of a row contribute exactly the other trainers below m that loop with it |
| TournamentGraph.NeighboursBelowAscending | Level_4/7_DistractTheTrainers/solution.py:74-78 | each adjacency list is strictly ascending |
| TournamentGraph.TournamentEdges | Level_4/7_DistractTheTrainers/solution.py:72-80 | every trainer is a key, and j is in trainer k's list exactly when j is another trainer and the pair loops |
| TournamentGraph.TournamentSimple | Level_4/7_DistractTheTrainers/solution.py:72-80 | the graph has keys 0..n-1, is symmetric, has no self-loops and no repeated neighbours |
| TournamentGraph.TournamentSymmetric | Level_4/7_DistractTheTrainers/solution.py:76-78 | each edge is recorded in both directions and never from a trainer to itself |
| TournamentGraph.CreateTournament | Level_4/7_DistractTheTrainers/solution.py:65-80 | the nested loops build exactly the tournament graph |
| TournamentGraph.FillRow | Level_4/7_DistractTheTrainers/solution.py:75-78 | one pass of the inner loop completes row i and the reverse entries of its pairs |
| TournamentGraph.AddEdge | Level_4/7_DistractTheTrainers/solution.py:77-78 | appending an edge adds j to i's list and i to j's list and changes nothing else |
| TournamentGraph.FillDone | Level_4/7_DistractTheTrainers/solution.py:74-80 | after every row is filled, the map is the tournament graph |
| TournamentGraph.SmallPairExamples | Level_4/7_DistractTheTrainers/solution.py:271-293 | 1 and 7 bananas stop, as in the test table; 1 and 4 loop |
| GreedyMatcher.MinDegreeNode | Level_4/7_DistractTheTrainers/solution.py:116 | the pivot is a node of fewest neighbours, and the lowest-keyed one among those tied |
| GreedyMatcher.ChoosePartner | Level_4/7_DistractTheTrainers/solution.py:121-125 | the partner is a neighbour of fewest neighbours, the first such in list order |
| GreedyMatcher.DetachNode | Level_4/7_DistractTheTrainers/solution.py:133-138 | each neighbour of the node loses the node from its list; all other lists and the key set stay the same |
| GreedyMatcher.DistractTheTrainers | Level_4/7_DistractTheTrainers/solution.py:90-147 | the pairs are exactly those of the recursive greedy reference (GreedyPairs) on the whole graph; the count is twice the number of pairs; the pairs are disjoint edges of the tournament (a matching); no edge joins two unmatched trainers (maximal); the count is at most the number of trainers |
| GreedyMatcher.Round | Level_4/7_DistractTheTrainers/solution.py:114-145 | one iteration performs exactly one step of the reference: the live set becomes NextLive and the pairs grow by StepPairs; it keeps the remaining graph equal to the original restricted to the live nodes, keeps the pairs a matching of removed nodes, and shrinks the graph |
| GreedyMatcher.PairOff | Level_4/7_DistractTheTrainers/solution.py:120-142 | the chosen neighbour is the reference's partner of the pivot; pairing removes exactly those two nodes and extends the matching with that edge |
| GreedyMatcher.DropIsolated | Level_4/7_DistractTheTrainers/solution.py:118-119 | deleting an isolated pivot is one reference step that adds no pair, and keeps both invariants |
| GreedyMatcher.PairPivot | Level_4/7_DistractTheTrainers/solution.py:120-142 | pairing a pivot that has neighbours is one reference step that adds the pair (pivot, partner), and keeps both invariants |
| GreedyMatcher.LowestFewestExists | Level_4/7_DistractTheTrainers/solution.py:116 | every non-empty set of live nodes has a lowest node of fewest live neighbours |
| GreedyMatcher.Pivot | Level_4/7_DistractTheTrainers/solution.py:116 | the reference pivot is a live node of fewest live neighbours, lower than every other node of that degree |
| GreedyMatcher.PivotUnique | Level_4/7_DistractTheTrainers/solution.py:116 | that property picks out exactly one node |
| GreedyMatcher.FewestAt | Level_4/7_DistractTheTrainers/solution.py:121-125 | the reference partner position holds a neighbour of fewest live neighbours, with every earlier entry strictly more |
| GreedyMatcher.FewestUnique | Level_4/7_DistractTheTrainers/solution.py:121-125 | that property picks out exactly one position |
| GreedyMatcher.Partner | Level_4/7_DistractTheTrainers/solution.py:118-125 | the reference partner is absent exactly when the pivot has no live neighbour, and otherwise is a live neighbour |
| GreedyMatcher.NextLive | Level_4/7_DistractTheTrainers/solution.py:118-142 | one reference step removes the pivot, and its partner if any, so the live set strictly shrinks |
| GreedyMatcher.StepPairs | Level_4/7_DistractTheTrainers/solution.py:120-142 | one reference step adds at most one pair |
| GreedyMatcher.InducedDegree | Level_4/7_DistractTheTrainers/solution.py:116 | in the remaining graph a node's list length is its number of live neighbours in the original |
| GreedyMatcher.MinDegreeIsPivot | Level_4/7_DistractTheTrainers/solution.py:116 | the node `min` picks by list length is the reference pivot |
| GreedyMatcher.ChosenIsPartner | Level_4/7_DistractTheTrainers/solution.py:121-125 | the neighbour the partner loop picks is the reference partner |
| GreedyMatcher.IsolatedReference | Level_4/7_DistractTheTrainers/solution.py:118-119 | for an isolated pivot the reference step removes just the pivot and adds no pair |
| GreedyMatcher.PairReference | Level_4/7_DistractTheTrainers/solution.py:120-142 | for a pivot with a partner the reference step removes both and adds their pair |
| GreedyMatcher.GreedyAdvance | Level_4/7_DistractTheTrainers/solution.py:114-145 | after one step, the pairs so far followed by the reference's pairs on the rest are unchanged, so the loop invariant is kept |
| GreedyMatcher.GreedyUnfold | Level_4/7_DistractTheTrainers/solution.py:114-145 | with more than one live node, the reference's pairs are one step's pairs followed by the reference on the rest |
| GreedyMatcher.GreedyDone | Level_4/7_DistractTheTrainers/solution.py:114 | with at most one live node the reference adds no pairs, so the loop's pairs are the reference's |
| GreedyMatcher.EdgelessNoPairs | Level_4/7_DistractTheTrainers/solution.py:114-145 | on a graph without edges the reference pairs nobody |
| GreedyMatcher.IsolatedStep | Level_4/7_DistractTheTrainers/solution.py:118-119 | deleting an isolated pivot keeps both invariants and shrinks the graph |
| GreedyMatcher.AfterChoose | Level_4/7_DistractTheTrainers/solution.py:123-131 | after the pivot is detached, every other list is the original list restricted to the live nodes other than the pivot |
| GreedyMatcher.PairInduced | Level_4/7_DistractTheTrainers/solution.py:133-141 | after both detach passes and both deletions, the graph is the original restricted to the remaining nodes |
| GreedyMatcher.MaximalAtEnd | Level_4/7_DistractTheTrainers/solution.py:114 | when at most one node remains, no edge of the original joins two unmatched nodes |
| Trainers.ExceedsLimit | Level_4/7_DistractTheTrainers/solution.py:174-179 | true exactly when some count exceeds 2^30 - 1 |
| Trainers.Solution | Level_4/7_DistractTheTrainers/solution.py:150-187 | None exactly for fewer than 1 or more than 100 trainers, or an over-limit count outside the two-equal-counts case; two equal counts give 2; otherwise n minus twice the number of pairs the greedy reference picks in the tournament, a maximal matching, so between 0 and n |
| Trainers.EqualPairUnmatched | Level_4/7_DistractTheTrainers/solution.py:169-170 | two equal counts admit no pair at all: every adjacency list of their tournament is empty, so the shortcut answer 2 is what matching gives |
| Trainers.SingleTrainer | Level_4/7_DistractTheTrainers/solution.py:114 | a single trainer admits no pair |
| RunningWithBunnies.JoinCost | Level_4/8_RunningWithBunnies/solution.py:21-22 | joining two walks at a shared node costs the sum of their times |
| RunningWithBunnies.Relax | Level_4/8_RunningWithBunnies/solution.py:21-22 | entry (i, j) becomes the smaller of itself and the time through k, only when that is strictly smaller, and nothing else changes |
| RunningWithBunnies.RelaxRow | Level_4/8_RunningWithBunnies/solution.py:18-22 | one row pass keeps the shape, raises no entry, changes only the square part, and keeps every entry the time of a walk in the input; afterwards every entry of the row is at most the time of each walk with no repeated stop whose inner stops are all below k + 1 |
| RunningWithBunnies.RelaxRound | Level_4/8_RunningWithBunnies/solution.py:16-22 | one round through node k keeps the shape, raises no entry, and keeps every entry the time of a walk in the input; if before it no entry exceeded any walk without repeated stops whose inner stops are below k, afterwards none exceeds any such walk whose inner stops are below k + 1 |
| RunningWithBunnies.DirectWalksWitness | Level_4/8_RunningWithBunnies/solution.py:14-16 | every entry of the input is the time of the one-step walk |
| RunningWithBunnies.AllPairsShortestPaths | Level_4/8_RunningWithBunnies/solution.py:5-22 | the relaxed matrix has the input's shape; no entry is larger; entries outside the n × n square are untouched; every entry is the time of some walk in the input and at most the time of every walk without repeated stops; some diagonal entry is negative exactly when the input has a closed walk of negative time; when it has none, every square entry is the shortest time over all walks |
| RunningWithBunnies.DirectBound | Level_4/8_RunningWithBunnies/solution.py:14-16 | before any round, every entry bounds the one walk without inner stops between its ends |
| RunningWithBunnies.StepBound | Level_4/8_RunningWithBunnies/solution.py:21-22 | a value no larger than the entry and the time through k bounds every walk without repeated stops whose inner stops are below k + 1 |
| RunningWithBunnies.SplitAt | Level_4/8_RunningWithBunnies/solution.py:21-22 | a walk without repeated stops through k splits at k into two such walks whose inner stops are below k, and its time is the sum of theirs |
| RunningWithBunnies.SimpleHead | Level_4/8_RunningWithBunnies/solution.py:21-22 | a prefix of a walk without repeated stops has none |
| RunningWithBunnies.SimpleTail | Level_4/8_RunningWithBunnies/solution.py:21-22 | a suffix of a walk without repeated stops has none |
| RunningWithBunnies.JoinAt | Level_4/8_RunningWithBunnies/solution.py:21-22 | a walk's time is the time up to a stop plus the time from that stop on |
| RunningWithBunnies.BoundedMono | Level_4/8_RunningWithBunnies/solution.py:21-22 | a bound on walk times stays a bound for any smaller value |
| RunningWithBunnies.CutLoop | Level_4/8_RunningWithBunnies/solution.py:59-66 | cutting a closed walk out of a walk leaves a shorter walk between the same ends, and the time splits between the two |
| RunningWithBunnies.CutLoopCost | Level_4/8_RunningWithBunnies/solution.py:59-66 | the time of a walk is the time with a closed part cut out plus the time of that part |
| RunningWithBunnies.SuffixSplit | Level_4/8_RunningWithBunnies/solution.py:21-22 | from one stop on, a walk's time is the time to a later stop plus the time from that stop on |
| RunningWithBunnies.SkipJoin | Level_4/8_RunningWithBunnies/solution.py:21-22 | skipping between two equal stops costs the time up to the first plus the time from the second on |
| RunningWithBunnies.NoNegativeDiagonalBoundsWalks | Level_4/8_RunningWithBunnies/solution.py:59-66 | with no negative diagonal entry, each relaxed entry is at most the time of every walk, repeated stops included |
| RunningWithBunnies.NegativeDiagonalIsCycle | Level_4/8_RunningWithBunnies/solution.py:59-66 | a relaxed diagonal entry is negative exactly when a closed walk of negative time exists; otherwise entries are shortest times |
| RunningWithBunnies.Range | Level_4/8_RunningWithBunnies/solution.py:65 | range(lo, hi) lists lo, lo + 1, … up to hi - 1 and is empty when hi ≤ lo |
| RunningWithBunnies.PyIndex | Level_4/8_RunningWithBunnies/solution.py:76 | a Python index between -len and len - 1 denotes a valid position; -1 is the last |
| RunningWithBunnies.PathPairs | Level_4/8_RunningWithBunnies/solution.py:25-38 | the route has one pair more than there are bunnies, each pair being two consecutive stops of 0, the bunnies, -1 |
| RunningWithBunnies.PathChains | Level_4/8_RunningWithBunnies/solution.py:32-36 | the route starts at 0, ends at -1, and each pair starts where the previous one ended |
| RunningWithBunnies.PathPairsValid | Level_4/8_RunningWithBunnies/solution.py:75-76 | every pair of a route through existing bunnies indexes the matrix |
| RunningWithBunnies.RouteTotal | Level_4/8_RunningWithBunnies/solution.py:71-76 | the accumulation loop gives the route's total time |
| RunningWithBunnies.PermutationsSound | Level_4/8_RunningWithBunnies/solution.py:70 | every generated permutation has r distinct entries of the pool |
| RunningWithBunnies.PermutationsComplete | Level_4/8_RunningWithBunnies/solution.py:70 | every arrangement of distinct pool entries is generated |
| RunningWithBunnies.PermutationsTooLong | Level_4/8_RunningWithBunnies/solution.py:70 | asking for more entries than the pool holds generates nothing |
| RunningWithBunnies.PermutationsExample | Level_4/8_RunningWithBunnies/solution.py:70 | the pairs from [1, 2, 3] come in itertools order: lexicographic by position in the pool |
| RunningWithBunnies.PathExample | Level_4/8_RunningWithBunnies/solution.py:195-200 | the route through 1, 3, 2 is (0,1), (1,3), (3,2), (2,-1) |
| RunningWithBunnies.PoolContents | Level_4/8_RunningWithBunnies/solution.py:70 | the pool holds 1..count once each |
| RunningWithBunnies.IdsContents | Level_4/8_RunningWithBunnies/solution.py:79 | the reported ids are ascending and are exactly the route's bunnies minus one |
| RunningWithBunnies.IdsLength | Level_4/8_RunningWithBunnies/solution.py:79 | a route without repeats reports as many ids as it visits bunnies |
| RunningWithBunnies.FindNegativeDiagonal | Level_4/8_RunningWithBunnies/solution.py:63-66 | true exactly when some diagonal entry is negative |
| RunningWithBunnies.ScanSize | Level_4/8_RunningWithBunnies/solution.py:70-80 | reports the first arrangement of one size whose route fits the limit, or that none fits |
| RunningWithBunnies.FirstFitRescued | Level_4/8_RunningWithBunnies/solution.py:68-80 | the first fitting arrangement of the largest fitting size gives an answer that meets the rescue promise |
| RunningWithBunnies.Search | Level_4/8_RunningWithBunnies/solution.py:68-82 | the answer is ascending ids of existing bunnies, from the first fitting arrangement of its size; no route through more bunnies fits; [] when nothing fits |
| RunningWithBunnies.RescueFrom | Level_4/8_RunningWithBunnies/solution.py:59-82 | a negative diagonal rescues every bunny; fewer than two rows rescue none; otherwise the search's answer |
| RunningWithBunnies.Solution | Level_4/8_RunningWithBunnies/solution.py:41-82 | [] for a limit outside 0..999, whatever the matrix; otherwise the relaxed matrix has a negative diagonal entry exactly when the input has a closed walk of negative time, and then every bunny is rescued; with no such walk every relaxed entry is the shortest time between its ends, and the answer is the search's over those times |

## Left out

- Level_5/9_DodgeTheLasers: left out as a whole. Its answer depends on a 101-digit decimal square root and decimal truncation, which an exact model would replace with a different algorithm.
- `print` calls, the `unittest` classes, `all_tests` and the `__main__` blocks: output and test scaffolding.
- Python 2's `int()` on byte strings is a library call. `FuelInjection.Parse` writes out its grammar: optional surrounding whitespace (space, tab, newline, vertical tab, form feed, carriage return), an optional `+` or `-` with optional whitespace after it, and one or more ASCII digits. Anything else is a `ValueError`, answered 0. Python 2's `int()` accepts neither underscores nor a trailing `L`, so neither parses. `FuelInjection.Solution` takes a byte string (`Common.Bytes`) or `None`; `unicode` arguments, whose `int()` also accepts non-ASCII digits and spaces, are not modelled.
- `itertools.permutations`: a library call. It is replaced by an explicit generator in the same order (`RunningWithBunnies.Permutations`).
- The in-place mutation of the caller's lists is not modelled. The bunnies matrix and the trainers graph are mutated in place; the model returns new values (`relaxed`, the graph).
- The matcher's fused partner loop is modelled as two separate passes. The source chooses the partner and deletes the pivot from the neighbours' lists in one loop; the model chooses the partner (`GreedyMatcher.ChoosePartner`), then detaches the pivot (`GreedyMatcher.DetachNode`). Both read the same degrees, because the fused loop only measures lists it has not yet changed.
- The dead `' '` branch of the Atbash loop is not modelled: a string is never in an integer range.
- Worked examples whose evaluation is too costly for the verifier, each a concrete instance of a general lemma above:
  - the Queue To Do checksums (0, 3) → 2, (17, 4) → 14 and (35, 5) → 57, the length-1000 and length-20000 lines, and the chained row XORs;
  - the list-level ion-flux answers for heights 3 and 5;
  - 15 → 26 and 200 → 487067745 staircases;
  - the 157-pellet path and operations, the 137-step and 309-digit inputs;
  - the knight tests other than 19 → 36 and 0 → 1;
  - the Floyd–Warshall test matrices and the rescue tests;
  - the tournament graph, matcher and solution tests for concrete trainer lists.
- GreedyMatcher.DistractTheTrainers: the contract proves a maximal matching, not a maximum one, because the minimum-degree heuristic does not promise optimality.
- FuelInjection.ReduceToOne: the contract does not claim the operation count is the minimum, because the loop's choice is only proved to equal the remainder rule.
- RunningWithBunnies.Search: the contract does not claim the rescued set has the lowest ids among sets of its size. The search returns the first fitting permutation, which need not give them.
- RunningWithBunnies.AllPairsShortestPaths: when some closed walk takes negative time, the contract bounds each entry only by the walks without repeated stops and says it is the time of a real walk. It claims no shortest time, because walks around such a loop get arbitrarily short.
- RunningWithBunnies.Solution: when the time limit is accepted (0..999), it requires every row to be at least as long as the number of rows. A shorter row makes the source's column access raise an `IndexError` once the limit is accepted; longer rows are modelled. A refused limit needs nothing of the matrix.
- IonFluxRelabeling.Solution: it requires no converter strictly between 2^h - 1 and 2^(h+1), because the source's `parent` loops forever on such labels.
- IonFluxRelabeling.Parent: it requires a label of at most 2^h - 1, for the same reason.
- Trainers.Solution: it requires positive banana counts. The source does not check them, and two zero counts divide by zero in the gcd ratio.
- GrandestStaircase.Solution: it requires n ≥ 0. For a negative n the source's table has no row 1, so its first lookup raises an `IndexError`.
- FuelInjection.Solution: it requires that the argument is not a negative numeral of at most 309 characters. On a count of zero or below the source's loop never reaches one (`FuelInjection.NonPositiveNeverReachesOne`), so the call never returns and there is no answer to state.
- LanceAndJanice.Solution: the argument is a Python 2 byte string (`Common.Bytes`). A `unicode` argument is not modelled: its `len` counts code points rather than bytes, and `str()` at line 37 raises `UnicodeEncodeError` for non-ASCII characters.
- FuelInjection.Solution: integers passed in place of a string are not modelled (the source's `len` would raise `TypeError` and answer 0). The argument is either `None` or a string.
