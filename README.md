# Kattis solutions, modelled and verified in Dafny

This project models the algorithmic cores of a collection of single-file C++ solutions to
Kattis problems. Each solution reads one problem instance, runs one classical algorithm
and prints a result. Every solution below has its own Dafny module, in a file of the same
name. Each module models the solution's functions in the source's own form: loops become
methods with invariants, and pure code becomes functions. Each module also proves what
the algorithm promises.

- **SuffixSorting** (`suffix_sorting.dfy`) and **Dvaput** (`dvaput.dfy`). The suffix array
  is built by prefix doubling over the cyclic shifts of the text with a sentinel 0x1f
  appended. The first pass is a counting sort by character. Each later pass shifts the
  order, counting-sorts it stably by class (**CountingSort**, `counting_sort.dfy`) and
  renumbers the classes. The result is proved to be a permutation of the offsets whose
  suffixes are strictly increasing. Dvaput then builds the LCP array with Kasai's
  algorithm and takes its maximum. That maximum is proved to be the length of the longest
  substring occurring at two different offsets. **Lexicographic** (`lexicographic.dfy`)
  defines std::string's order and the common prefix length.
- **StringMatching**: the KMP failure table and the search that reports every occurrence.
- **UnionFind** and **MinimumSpanningTree**: disjoint sets with path compression and union
  by size, and Kruskal's algorithm over the same structure.
- **FenwickTree**: point update and prefix sum over a binary indexed tree.
- **PrimeSieve**, **ModularArithmetic**, **ChineseRemainder**, **RationalArithmetic** and
  **HappyPrime**, with shared integer facts in **NumberTheory**. These cover:
  - the sieve of Eratosthenes;
  - modular arithmetic with the extended Euclidean inverse;
  - the two-modulus Chinese remainder solution;
  - normalised fractions;
  - happy primes.
- **MaxFlow** and **MinCut**: Edmonds-Karp augmenting paths over a residual matrix, and the
  cut read off from the vertices still reachable from the source.
- **AllPairsPath** and **Arbitrage**: Floyd-Warshall with negative-cycle marking, and the
  currency-exchange verdict built on it.
- **ShortestPath1**, **ShortestPath2**, **ShortestPath3** and **ShortestPath3Cycles**:
  - O(N^2) Dijkstra;
  - Dijkstra over periodic time-table edges;
  - Bellman-Ford with -INF propagation.
- **EulerianPath**: the degree check and Hierholzer's algorithm.
- **Graphs**, **WheresMyInternet**, **Gold** and **HidingPlaces**. These are queue-based
  breadth-first searches:
  - reachability;
  - safe squares on a map with traps;
  - knight distances on a chess board.
- **LongestIncSeq**, **Knapsack** and **UxuhulVoting**. These are dynamic programmes:
  - patience sorting with back links;
  - the 0/1 knapsack table with backtracking;
  - backward induction over three-bit votes.
- **IntervalCover**, **MessagesOuterSpace**, **EvilStraw** and **ChoppingWood**. These are
  greedy and string rules:
  - the greedy interval cover;
  - interval scheduling over word occurrences;
  - palindromisation by adjacent swaps;
  - Prüfer-style leaf decoding.

Where a solution copies code from another one, the copy is modelled once and reused. The
copies are the union-find in MinimumSpanningTree, the search and augmentation in MinCut,
APSP in Arbitrage, exteuclid in ChineseRemainder, and the suffix sort in Dvaput.

Where the comments of the source and its code disagree, the model follows the code:
- MinCut/mincut.cpp:115 says the reachability search runs from the sink, but it runs from
  s (MinCut/mincut.cpp:133).
- The doubling loop of suffixArray runs while 2^h < N and does not stop early once all
  classes are distinct (SuffixSorting/suffixsorting.cpp:77).

## Model

| member | source | states |
|---|---|---|
| HappyPrime.DigitSquareSum | HappyPrime/happyprime.cpp:17-22 | summing the squares of the decimal digits of std::to_string(m) gives one step of the happy iteration |
| HappyPrime.DecimalSquareSum | HappyPrime/happyprime.cpp:17-22 | the digit-square sum over the decimal text of m equals the arithmetic step on m |
| HappyPrime.StepSmall | HappyPrime/happyprime.cpp:17-22 | below 1000 one step gives at most 243 |
| HappyPrime.StepLarge | HappyPrime/happyprime.cpp:17-22 | from 1000 upward one step strictly decreases the value |
| HappyPrime.StepBound | HappyPrime/happyprime.cpp:15-30 | a step from a non-negative value stays below 1000 or decreases, so the iteration is bounded |
| HappyPrime.IterateShift | HappyPrime/happyprime.cpp:26-28 | once the iteration repeats a value it repeats everything after it |
| HappyPrime.IteratePeriodic | HappyPrime/happyprime.cpp:26-28 | after a repeat every later value is one already in the recorded trace |
| HappyPrime.NoOneAfterRepeat | HappyPrime/happyprime.cpp:23-28 | a repeat seen before any step yields 1 means no later step yields 1 |
| HappyPrime.TraceExtend | HappyPrime/happyprime.cpp:16 | pushing m onto prev keeps prev the list of all values visited so far |
| HappyPrime.HappyAdvance | HappyPrime/happyprime.cpp:15-29 | a pass that neither yields 1 nor repeats keeps the loop state |
| HappyPrime.MeasureDrops | HappyPrime/happyprime.cpp:15-30 | a pass that does not return lowers a bounded measure, so the loop ends for every start |
| HappyPrime.IsHappyPrime | HappyPrime/happyprime.cpp:11-31 | returns true exactly when the iteration of the digit-square step from m reaches 1 |
| HappyPrime.IsPrime | HappyPrime/happyprime.cpp:33-41 | false for 1 and 2, otherwise true iff no i in [2, m) divides m; for m >= 3 exactly primality |
| HappyPrime.IsPrimeRejectsTwo | HappyPrime/happyprime.cpp:34-35 | 2 is prime but the test as written rejects it |
| HappyPrime.IsPrimeCorrected | HappyPrime/happyprime.cpp:33-41 | the intended test: true exactly for the primes |
| HappyPrime.TwoIsNotHappy | HappyPrime/happyprime.cpp:49-50 | 2 is not happy: its iteration enters the cycle 4, 16, 37, 58, 89, 145, 42, 20 |
| HappyPrime.TwoTrace | HappyPrime/happyprime.cpp:15-29 | the first nine steps from 2 are 4, 16, 37, 58, 89, 145, 42, 20, 4 |
| HappyPrime.Verdict | HappyPrime/happyprime.cpp:48-51 | YES exactly when both tests pass, which for every m >= 1 is "m is a happy prime" |
| NumberTheory.CppRem | ModularArithmetic/modulararithmetic.cpp:26 | C++'s `%`: smaller in magnitude than the divisor, the Euclidean remainder for a non-negative dividend, the dividend's sign, and congruent to the dividend |
| ModularArithmetic.ExtEuclid | ModularArithmetic/modulararithmetic.cpp:54-70 | returns 1 when n == 1 or the loop never runs; for n > 1 and y coprime to n, returns r in [0, n) with r·y ≡ 1 (mod n) |
| ModularArithmetic.EuclidDivisor | ModularArithmetic/modulararithmetic.cpp:60-63 | inside the loop the divisor n is never 0, given the coprimality guard |
| ModularArithmetic.EuclidStep | ModularArithmetic/modulararithmetic.cpp:60-68 | one pass keeps each remainder congruent to its coefficient times y and the coefficients bounded |
| ModularArithmetic.ExitState | ModularArithmetic/modulararithmetic.cpp:60-69 | when the loop stops, b shifted into [0, n) is the inverse of y |
| ModularArithmetic.InverseInRange | ModularArithmetic/modulararithmetic.cpp:69 | adding n to a negative coefficient b with abs(b) < n lands in [0, n) and keeps b·y ≡ 1 |
| ModularArithmetic.StepInvariant | ModularArithmetic/modulararithmetic.cpp:61-67 | the coefficients alternate in sign and their weighted sum with the remainders stays n, so abs(a) < n |
| ModularArithmetic.WitnessStep | ModularArithmetic/modulararithmetic.cpp:61-67 | the step keeps remainder ≡ coefficient·y (mod n) |
| ModularArithmetic.ModularOp.Add | ModularArithmetic/modulararithmetic.cpp:25-27 | congruent to x + y, and in [0, n) for non-negative operands |
| ModularArithmetic.ModularOp.Sub | ModularArithmetic/modulararithmetic.cpp:29-34 | congruent to x - y, and in [0, n) when both operands are in [0, n) |
| ModularArithmetic.ModularOp.Mul | ModularArithmetic/modulararithmetic.cpp:47-49 | congruent to x·y, and in [0, n) for non-negative operands |
| ModularArithmetic.ModularOp.Div | ModularArithmetic/modulararithmetic.cpp:37-44 | -1 exactly when gcd(y, n) ≠ 1; otherwise, for non-negative operands, r in [0, n) with r·y ≡ x (mod n) |
| ChineseRemainder.Solve | ChineseRemainder/chineseremainder.cpp:46-54 | for coprime n, m >= 1: K == n·m, x ≡ a (mod n) and x ≡ b (mod m), and 0 <= x < K for non-negative a, b |
| ChineseRemainder.Cofactors | ChineseRemainder/chineseremainder.cpp:47-49 | M1 == K / n is m and M2 == K / m is n |
| ChineseRemainder.Combination | ChineseRemainder/chineseremainder.cpp:50-52 | with y1, y2 the two inverses, (a·y1·M1 + b·y2·M2) % K solves both congruences |
| ChineseRemainder.SolutionCongruent | ChineseRemainder/chineseremainder.cpp:52 | that remainder is congruent to a modulo n (used for both moduli) |
| ChineseRemainder.SolutionUnique | ChineseRemainder/chineseremainder.cpp:10-14 | any two solutions of the pair of congruences agree modulo n·m |
| ChineseRemainder.SolutionUniqueInRange | ChineseRemainder/chineseremainder.cpp:10-14 | so the solution in [0, n·m) is the only one there |
| RationalArithmetic.Zero | RationalArithmetic/rationalarithmetic.cpp:23 | the default constructor gives 0/0 |
| RationalArithmetic.Make | RationalArithmetic/rationalarithmetic.cpp:24-33 | den >= 0; for y ≠ 0 the fraction is normalised with value x/y, and 0/y gives 0/1; for y == 0 den is 0 and num is 0 or ±1 |
| RationalArithmetic.MakeFacts | RationalArithmetic/rationalarithmetic.cpp:25-32 | the constructor's steps (gcd, fallback 1, truncating division, sign to the numerator) yield those facts |
| RationalArithmetic.CoprimeQuotients | RationalArithmetic/rationalarithmetic.cpp:25-29 | dividing x and y by their gcd leaves coprime quotients |
| RationalArithmetic.SignedCross | RationalArithmetic/rationalarithmetic.cpp:28-32 | moving the sign of the denominator to the numerator keeps the cross product |
| RationalArithmetic.CrossValue | RationalArithmetic/rationalarithmetic.cpp:24-33 | fractions with equal cross products have equal values |
| RationalArithmetic.Add | RationalArithmetic/rationalarithmetic.cpp:35-38 | on operands with non-zero denominators, a normalised fraction whose value is the sum |
| RationalArithmetic.Sub | RationalArithmetic/rationalarithmetic.cpp:40-43 | on operands with non-zero denominators, a normalised fraction whose value is the difference |
| RationalArithmetic.Mul | RationalArithmetic/rationalarithmetic.cpp:49-51 | on operands with non-zero denominators, a normalised fraction whose value is the product |
| RationalArithmetic.Div | RationalArithmetic/rationalarithmetic.cpp:45-47 | a normalised fraction whose value is the quotient when the divisor is non-zero; a zero divisor gives den == 0 |
| RationalArithmetic.AddValue | RationalArithmetic/rationalarithmetic.cpp:36-37 | the cross-multiplication formula for + has the value of the real sum |
| RationalArithmetic.SubValue | RationalArithmetic/rationalarithmetic.cpp:41-42 | the formula for - has the value of the real difference |
| RationalArithmetic.MulValue | RationalArithmetic/rationalarithmetic.cpp:50 | the formula for * has the value of the real product |
| RationalArithmetic.DivValue | RationalArithmetic/rationalarithmetic.cpp:46 | the formula for / has the value of the real quotient |
| RationalArithmetic.EqualIsValueEquality | RationalArithmetic/rationalarithmetic.cpp:70-76 | on normalised operands the field-wise == holds iff the values are equal, and != iff they differ |
| RationalArithmetic.SameValueCross | RationalArithmetic/rationalarithmetic.cpp:70-72 | equal values with positive denominators have equal cross products |
| RationalArithmetic.NormalisedUnique | RationalArithmetic/rationalarithmetic.cpp:70-72 | two normalised fractions with equal cross products have the same fields |
| PrimeSieve.Primes.constructor | PrimeSieve/primesieve.cpp:22-30 | after construction the table has n + 1 entries and entry k is true iff k is prime |
| PrimeSieve.Primes.Count | PrimeSieve/primesieve.cpp:32-34 | count() is the number of primes in [0, n] |
| PrimeSieve.Primes.Lookup | PrimeSieve/primesieve.cpp:36-38 | operator[](i) is 1 iff i is prime, else 0 |
| PrimeSieve.Sieve | PrimeSieve/primesieve.cpp:23-29 | the constructor's loops return a fresh table of n + 1 entries, entry k true iff k is prime |
| PrimeSieve.ClearMultiples | PrimeSieve/primesieve.cpp:26-28 | the inner loop for i clears exactly the multiples i·i + t·i, so afterwards the marks are "no divisor in [2, i]" |
| PrimeSieve.CountPrimes | PrimeSieve/primesieve.cpp:33 | counting the true entries of a correct table gives the number of primes |
| PrimeSieve.MultipleShape | PrimeSieve/primesieve.cpp:27 | every j the inner loop visits is a multiple of i, and the loop skips no multiple |
| PrimeSieve.MultipleCovered | PrimeSieve/primesieve.cpp:27 | when the inner loop stops, every multiple of i from i·i up to n has been cleared |
| PrimeSieve.SmallDivisorStep | PrimeSieve/primesieve.cpp:25-28 | admitting divisor i extends "a divisor below i" by the multiples of i from i·i on |
| PrimeSieve.CompositeSkipped | PrimeSieve/primesieve.cpp:26 | skipping an already-cleared i changes no mark |
| PrimeSieve.SieveComplete | PrimeSieve/primesieve.cpp:25 | stopping at i·i > n suffices: for k < i·i, no divisor below i iff k is prime |
| PrimeSieve.CompositeSmallDivisor | PrimeSieve/primesieve.cpp:25 | a composite k < i·i has a divisor below i |
| PrimeSieve.SmallDivisorComposite | PrimeSieve/primesieve.cpp:26-28 | a cleared entry is never a prime |
| PrimeSieve.SmallerFactor | PrimeSieve/primesieve.cpp:25 | of two complementary factors of k, the smaller one's square is at most k |
| UxuhulVoting.OneBitNeighbours | UxuhulVoting/uxuhulvoting.cpp:12-21 | onebit[s] lists, in increasing order, exactly the three states that differ from s in one bit |
| UxuhulVoting.VotesSpellBits | UxuhulVoting/uxuhulvoting.cpp:23-32 | votes[s] spells the bits of s most significant first, Y for 1 and N for 0 |
| UxuhulVoting.Preference | UxuhulVoting/uxuhulvoting.cpp:35-45 | the running-minimum loop returns the value of the scan specification Prefer |
| UxuhulVoting.PreferFromIsFirstMinimum | UxuhulVoting/uxuhulvoting.cpp:36-44 | the scan returns the first candidate of smallest rank when some rank is below the start value 10, and the start answer 0 otherwise |
| UxuhulVoting.PreferInRange | UxuhulVoting/uxuhulvoting.cpp:35-45 | over candidate states, the answer is a state in [0, 8) |
| UxuhulVoting.Candidates | UxuhulVoting/uxuhulvoting.cpp:59-62 | the three final outcomes reachable by priest p's flips, each a state |
| UxuhulVoting.Outcome | UxuhulVoting/uxuhulvoting.cpp:49-65 | the final state when priest p votes next in state s, a state in [0, 8) |
| UxuhulVoting.OutcomeIsBestResponse | UxuhulVoting/uxuhulvoting.cpp:53-65 | when priest p's ranks are below 10, the tabulated outcome is reachable by one of their flips and no flip reaches an outcome they rank better |
| UxuhulVoting.Tabulation | UxuhulVoting/uxuhulvoting.cpp:47-66 | after the two loops DP[p][s] is the backward-induction outcome for every priest p and state s |
| UxuhulVoting.Answer | UxuhulVoting/uxuhulvoting.cpp:80-81 | the printed answer is the three-letter vote string of DP[0][0] |
| StringMatching.EndsSlices | StringMatching/stringmatching.cpp:21-24 | the character-by-character agreement Ends(t, i, p, k) holds iff t[i-k..i] == p[..k] |
| StringMatching.EndsIsBorder | StringMatching/stringmatching.cpp:21-24 | for k < n, Ends(p, n, p, k) says exactly that p[..k] is a proper border of p[..n] |
| StringMatching.FailureTableBounds | StringMatching/stringmatching.cpp:26-35 | every entry of a failure table lies in [0, i], and lps[0] == 0 |
| StringMatching.EndsTrans | StringMatching/stringmatching.cpp:32-33 | a border of the matched prefix is itself matched, so the fallback j = lps[j-1] keeps a match |
| StringMatching.EndsNested | StringMatching/stringmatching.cpp:32-33 | of two matched prefixes the shorter is a border of the longer |
| StringMatching.AdvanceMatch | StringMatching/stringmatching.cpp:55-56 | after a matching character, j + 1 is the longest matched prefix |
| StringMatching.AdvanceMismatch | StringMatching/stringmatching.cpp:64-65 | after a mismatch with nothing matched, no prefix ends at the next position |
| StringMatching.Fallback | StringMatching/stringmatching.cpp:62-63 | falling back to the longest border after a mismatch loses no candidate match |
| StringMatching.FullMatch | StringMatching/stringmatching.cpp:57-59 | after a full match, falling back to lps[j-1] loses no candidate, so overlapping matches are found |
| StringMatching.TableMatch | StringMatching/stringmatching.cpp:29-30 | lps[i++] = ++j keeps the table loop's state |
| StringMatching.TableFall | StringMatching/stringmatching.cpp:32-33 | j = lps[j-1] strictly lowers j and keeps the table loop's state |
| StringMatching.TableSkip | StringMatching/stringmatching.cpp:34-35 | lps[i++] = 0 with j == 0 keeps the table loop's state |
| StringMatching.LPS | StringMatching/stringmatching.cpp:25-39 | returns a table as long as the pattern whose entry i is the length of the longest proper prefix of pattern[0..i] that is also its suffix |
| StringMatching.AllMatchesMembers | StringMatching/stringmatching.cpp:9-19 | the reference list holds exactly the positions q where text[q..q+the pattern length) equals the pattern |
| StringMatching.AllMatchesIncreasing | StringMatching/stringmatching.cpp:9-19 | the reference list is strictly increasing |
| StringMatching.MatchStep | StringMatching/stringmatching.cpp:55-60 | a matching character keeps the search state; on a full match the position i - the pattern length is pushed and j falls back |
| StringMatching.FallStep | StringMatching/stringmatching.cpp:62-63 | a mismatch with j > 0 strictly lowers j and keeps the search state |
| StringMatching.SkipStep | StringMatching/stringmatching.cpp:64-65 | a mismatch with j == 0 advances i and keeps the search state |
| StringMatching.SearchDone | StringMatching/stringmatching.cpp:54-69 | when the text is exhausted, pos holds exactly the occurrences, in increasing order |
| StringMatching.Find | StringMatching/stringmatching.cpp:48-70 | returns exactly the positions where the pattern occurs in the text, strictly increasing, overlaps included; an empty pattern matches nowhere |
| UnionFind.RootOf | UnionFind/unionfind.cpp:42-47 | following parent links from x reaches a root r with parents[r] == r, strictly higher in the ranking unless x is a root |
| UnionFind.Compress | UnionFind/unionfind.cpp:46 | pointing x straight at its root keeps the forest well-founded and changes no element's root |
| UnionFind.CompressRoot | UnionFind/unionfind.cpp:46 | the same, for one element y |
| UnionFind.LinkRoot | UnionFind/unionfind.cpp:61-65 | putting root b under root a moves exactly the elements of b's set to root a, and all others keep their roots |
| UnionFind.RootOfParent | UnionFind/unionfind.cpp:46 | following one parent link does not change the root |
| UnionFind.DisjointSets.Root | UnionFind/unionfind.cpp:42-47 | the root of x's set is a node that is its own parent |
| UnionFind.DisjointSets.constructor | UnionFind/unionfind.cpp:84-86 | parents(n) with iota and size(n, 1): n singleton sets, each element its own root |
| UnionFind.DisjointSets.FindParent | UnionFind/unionfind.cpp:42-47 | returns a's root; a now points at it, each parent entry is unchanged or the element's root, and no element's root or the number of sets changes |
| UnionFind.DisjointSets.UnionSets | UnionFind/unionfind.cpp:55-69 | afterwards a and b share a root; if they were apart, the root of the set with fewer elements (a's on a tie) goes under the other, exactly the two sets merge, the surviving set's element count is the sum of the two, and the recorded size of every root stays the number of elements in its set; if joined already, nothing observable changes |
| UnionFind.DisjointSets.Link | UnionFind/unionfind.cpp:60-67 | root b goes under root a: b's set moves to a, size[a] grows by size[b], a's set now holds the elements of both, other sizes stay, one set fewer |
| UnionFind.SameMembers | UnionFind/unionfind.cpp:42-47 | two parent vectors with the same roots give every root the same set of elements |
| UnionFind.LinkedMembers | UnionFind/unionfind.cpp:61-65 | after root b goes under root a, a's elements are those of both sets, their counts add, and every other root keeps its elements |
| UnionFind.LinkFacts | UnionFind/unionfind.cpp:60-67 | linking b under a with size[a] += size[b] keeps the forest ranked, sends exactly b's elements to root a, removes b from the roots and keeps every recorded size equal to its set's element count |
| UnionFind.DisjointSets.Same | UnionFind/unionfind.cpp:71-73 | true iff a and b had the same root; compression changes no root |
| UnionFind.AllRoots | UnionFind/unionfind.cpp:84-86 | with every element its own parent, there are exactly as many sets as elements |
| UnionFind.RootInRoots | UnionFind/unionfind.cpp:42-47 | the root of every element is one of the roots |
| UnionFind.SingleSet | UnionFind/unionfind.cpp:71-73 | when all elements share a root there is exactly one set |
| UnionFind.SeveralSets | UnionFind/unionfind.cpp:71-73 | two elements with different roots mean at least two sets |
| MinimumSpanningTree.Ordered | MinimumSpanningTree/minspantree.cpp:83-86 | the emitted pair has the smaller endpoint first and the same two endpoints |
| MinimumSpanningTree.Pairs | MinimumSpanningTree/minspantree.cpp:83-86 | the emitted list has one ordered pair per taken edge, in order |
| MinimumSpanningTree.ScanAdvance | MinimumSpanningTree/minspantree.cpp:79-89 | one edge of the scan: taking it appends the edge, its ordered pair and its weight; passing it over changes nothing |
| MinimumSpanningTree.Scan | MinimumSpanningTree/minspantree.cpp:72-89 | after the scan, the taken edges are the flagged sorted edges, each joins two different vertices, cost grew by their weights, taken edges plus remaining sets number n, the taken edges form a forest, two vertices share a root exactly when taken edges link them, and every sorted edge lies inside one set |
| MinimumSpanningTree.Begin | MinimumSpanningTree/minspantree.cpp:72-74 | parents(n) with iota and size(n, 1): nothing taken, every vertex its own set, and that is the partition of no edges |
| MinimumSpanningTree.Consider | MinimumSpanningTree/minspantree.cpp:79-89 | one pass of the loop keeps the scan state, one edge further |
| MinimumSpanningTree.Join | MinimumSpanningTree/minspantree.cpp:81-87 | union_sets on an edge between two sets, with its pair and weight recorded, keeps the scan state one edge further |
| MinimumSpanningTree.LinkedSelf | MinimumSpanningTree/minspantree.cpp:64-66 | every vertex is linked to itself |
| MinimumSpanningTree.LinkedEdge | MinimumSpanningTree/minspantree.cpp:64-66 | an edge links its endpoints both ways |
| MinimumSpanningTree.LinkedJoin | MinimumSpanningTree/minspantree.cpp:64-66 | linking is transitive |
| MinimumSpanningTree.LinkedMore | MinimumSpanningTree/minspantree.cpp:64-66 | more edges link at least the same pairs |
| MinimumSpanningTree.WalkLabel | MinimumSpanningTree/minspantree.cpp:79-89 | labels respected by every edge are constant along a walk |
| MinimumSpanningTree.LinkedLabel | MinimumSpanningTree/minspantree.cpp:79-89 | so linked vertices carry the same label |
| MinimumSpanningTree.TakePartition | MinimumSpanningTree/minspantree.cpp:81-82 | adding an edge between two classes and merging their labels gives the partition of the longer edge list |
| MinimumSpanningTree.AcyclicSnoc | MinimumSpanningTree/minspantree.cpp:81-82 | an edge between two unlinked vertices keeps the taken edges a forest |
| MinimumSpanningTree.RespectsSnoc | MinimumSpanningTree/minspantree.cpp:81-82 | after a merge that keeps equal labels equal and joins the edge's endpoints, the edge lies inside one class too |
| MinimumSpanningTree.ScanTake | MinimumSpanningTree/minspantree.cpp:81-87 | taking an edge whose endpoints have different roots keeps the forest, the partition and the scanned edges inside classes |
| MinimumSpanningTree.ScanPass | MinimumSpanningTree/minspantree.cpp:81 | passing over an edge whose endpoints share a root keeps the scanned edges inside classes |
| MinimumSpanningTree.NoEdges | MinimumSpanningTree/minspantree.cpp:72-74 | with every vertex its own label, the labels are the partition of no edges |
| MinimumSpanningTree.SameLabels | MinimumSpanningTree/minspantree.cpp:81 | same(), which only compresses paths, changes no label |
| MinimumSpanningTree.Relabel | MinimumSpanningTree/minspantree.cpp:82 | union_sets relabels exactly the two merged classes |
| MinimumSpanningTree.AllLinked | MinimumSpanningTree/minspantree.cpp:91-99 | with one set left, the taken edges link every two vertices |
| MinimumSpanningTree.SomeUnlinked | MinimumSpanningTree/minspantree.cpp:91-97 | with several sets left, some vertex is not linked to vertex 0 by the input edges at all |
| MinimumSpanningTree.AllJoined | MinimumSpanningTree/minspantree.cpp:93-97 | the final loop answers true iff there is at most one vertex or exactly one set, and changes no set |
| MinimumSpanningTree.CheckSame | MinimumSpanningTree/minspantree.cpp:94 | one test same(parents[i], parents[i-1]): on success one more vertex has vertex 0's root, on failure there are at least two sets |
| MinimumSpanningTree.JoinStep | MinimumSpanningTree/minspantree.cpp:93-97 | the same on the parent vectors before and after the test's path compression |
| MinimumSpanningTree.OneRootForAll | MinimumSpanningTree/minspantree.cpp:93-97 | when every vertex has vertex 0's root there is exactly one set |
| MinimumSpanningTree.Mst | MinimumSpanningTree/minspantree.cpp:68-100 | on a weight-sorted permutation of the edges: cost grows by the weights of the taken edges, at most n - 1 are taken, none is a loop, they form a forest, and the result is their ordered pairs when n - 1 are taken, and these then link every two vertices; otherwise it is empty, and then the input edges leave some vertex unlinked to vertex 0 |
| MinimumSpanningTree.SortedEndpoints | MinimumSpanningTree/minspantree.cpp:69 | sorting keeps every endpoint inside [0, n) |
| FenwickTree.LowBit | FenwickTree/Fenwick.cpp:44-59 | k & -k of an unsigned k >= 1 is in [1, k] |
| FenwickTree.LowBitClimb | FenwickTree/Fenwick.cpp:44 | climbing to k + lowbit(k) never raises the lower end of the range a node covers |
| FenwickTree.LowBitBetween | FenwickTree/Fenwick.cpp:44 | between k and k + lowbit(k), the lowest set bit of k + d is that of d |
| FenwickTree.RangeSumSplit | FenwickTree/Fenwick.cpp:48-53 | a range sum is the difference of two prefix sums |
| FenwickTree.RangeSumUpdate | FenwickTree/Fenwick.cpp:33-38 | adding v to a[i] adds v to exactly the range sums that contain i |
| FenwickTree.PrefixAfterUpdate | FenwickTree/Fenwick.cpp:33-53 | after update(i, v), sum(j) grows by v exactly when j > i, and no other sum changes |
| FenwickTree.UpdateStart | FenwickTree/Fenwick.cpp:40 | starting at node i + 1, every node below holds the same sum before and after the change |
| FenwickTree.UpdateStep | FenwickTree/Fenwick.cpp:43-44 | one pass adds val at node index and climbs by the lowest set bit, keeping the update loop's state |
| FenwickTree.ClimbCovers | FenwickTree/Fenwick.cpp:44 | the node reached by climbing from a node covering a[i] covers a[i] too |
| FenwickTree.NodeStep | FenwickTree/Fenwick.cpp:43-44 | the same pass for one node k: node k holds its range sum of the old or the new array |
| FenwickTree.Fenwick.constructor | FenwickTree/Fenwick.cpp:30 | Fenwick(N) holds N zero entries: the logical array is N - 1 zeros, BITree[0] being the dummy |
| FenwickTree.Fenwick.Update | FenwickTree/Fenwick.cpp:39-46 | update(index, val) adds val to a[index] and nothing else, leaving the by-reference index at or past the end (with the guard corrected to index < size) |
| FenwickTree.Fenwick.Sum | FenwickTree/Fenwick.cpp:54-62 | sum(index) returns a[0] + ... + a[index - 1] (0 for index 0) and leaves the by-reference index at 0 |
| FenwickTree.ZeroRange | FenwickTree/Fenwick.cpp:30 | every range of a zero array sums to 0 |
| FenwickTree.UpdatePathAsWritten | FenwickTree/Fenwick.cpp:42-45 | with the guard as written, the nodes update visits lie in [index, size], the last one possibly past the end |
| FenwickTree.UpdatePath | FenwickTree/Fenwick.cpp:42-45 | with the guard index < size, the nodes visited lie in [index, size) |
| FenwickTree.UpdateOverrun | FenwickTree/Fenwick.cpp:42-43 | update(0) on a tree of two entries visits nodes 1 and 2 as written, writing BITree[2] one past the end; with the corrected guard only node 1 |
| MessagesOuterSpace.AgreeSlices | MessagesOuterSpace/messages.cpp:14 | the character-by-character comparison at i agrees with slice equality text[i..i+k] == word[..k] |
| MessagesOuterSpace.OccursAtSlice | MessagesOuterSpace/messages.cpp:14 | an occurrence at i is exactly text[i..i+the word length] == word |
| MessagesOuterSpace.Find | MessagesOuterSpace/messages.cpp:14-17 | std::string::find(word, pos) returns npos (-1) or a position at or after pos where word occurs |
| MessagesOuterSpace.FindFirst | MessagesOuterSpace/messages.cpp:14-17 | find misses no occurrence: it returns one at or before every occurrence from pos on |
| MessagesOuterSpace.FindAt | MessagesOuterSpace/messages.cpp:17 | at an occurrence, find returns that position |
| MessagesOuterSpace.OccurrencesSpec | MessagesOuterSpace/messages.cpp:14-18 | the intervals recorded for one word from pos on are exactly [a, a+the word length-1] for each occurrence a >= pos, overlaps included, with increasing starts |
| MessagesOuterSpace.OccurrenceMember | MessagesOuterSpace/messages.cpp:14-18 | (a, b) is recorded iff word occurs at a >= pos and b is its last position |
| MessagesOuterSpace.OccurrenceSound | MessagesOuterSpace/messages.cpp:14-18 | every recorded interval spans an occurrence |
| MessagesOuterSpace.OccurrenceComplete | MessagesOuterSpace/messages.cpp:14-18 | every occurrence from pos on is recorded |
| MessagesOuterSpace.OccurrencesIncrease | MessagesOuterSpace/messages.cpp:15-18 | the recorded intervals of one word start at strictly increasing positions |
| MessagesOuterSpace.OccurrencesFrom | MessagesOuterSpace/messages.cpp:14-17 | recording from pos and recording from the occurrence find returns give the same list |
| MessagesOuterSpace.OccurrencesAt | MessagesOuterSpace/messages.cpp:16-17 | at an occurrence i, the list starts with i's interval and continues from i + 1 |
| MessagesOuterSpace.RecordStep | MessagesOuterSpace/messages.cpp:16-17 | one pass of the inner loop keeps "recorded so far plus what remains is the whole list" |
| MessagesOuterSpace.AllIntervalsSpec | MessagesOuterSpace/messages.cpp:13-19 | wordIntervals holds (a, b) exactly when some word of the dictionary occurs at a and ends at b |
| MessagesOuterSpace.AllIntervalsAt | MessagesOuterSpace/messages.cpp:13-19 | the same for one interval, by induction on the dictionary |
| MessagesOuterSpace.WordIntervals | MessagesOuterSpace/messages.cpp:12-19 | the collection loops build the specified list of all occurrence intervals |
| MessagesOuterSpace.WordOccurrences | MessagesOuterSpace/messages.cpp:14-18 | the inner loop builds the specified list for one word |
| MessagesOuterSpace.ChainIncreases | MessagesOuterSpace/messages.cpp:29-36 | the positions of a chain of non-overlapping intervals increase |
| MessagesOuterSpace.ChainBounded | MessagesOuterSpace/messages.cpp:29-36 | a chain has no more members than there are intervals |
| MessagesOuterSpace.ChainTail | MessagesOuterSpace/messages.cpp:32 | dropping the first member of a chain leaves a chain whose first interval starts after the dropped one ends |
| MessagesOuterSpace.ChainCons | MessagesOuterSpace/messages.cpp:32 | an interval ending before a chain's first start extends the chain |
| MessagesOuterSpace.PicksChain | MessagesOuterSpace/messages.cpp:31-36 | the intervals the greedy loop counts form a chain: each starts after the last counted end |
| MessagesOuterSpace.StaysAhead | MessagesOuterSpace/messages.cpp:25-36 | on intervals sorted by right end, no chain starting after e is longer than the greedy picks |
| MessagesOuterSpace.GreedyIsLongestChain | MessagesOuterSpace/messages.cpp:25-36 | the greedy picks are a chain and no chain is longer |
| MessagesOuterSpace.DisjointIsChain | MessagesOuterSpace/messages.cpp:29-36 | pairwise disjoint intervals of positive length, in sorted order, form a chain |
| MessagesOuterSpace.CountDisjoint | MessagesOuterSpace/messages.cpp:29-38 | the counting loop returns the size of the greedy chain |
| MessagesOuterSpace.NrSubstrings | MessagesOuterSpace/messages.cpp:11-39 | returns 0 iff no word occurs; otherwise the counted intervals are pairwise non-overlapping and no non-overlapping choice of occurrences is larger |
| MessagesOuterSpace.SomeOccurrence | MessagesOuterSpace/messages.cpp:21-22 | any occurrence leaves wordIntervals non-empty |
| EvilStraw.CountLetters | EvilStraw/evilstraw.cpp:84-87 | the counting loop builds the map from each letter of s to its number of occurrences |
| EvilStraw.CountsAppend | EvilStraw/evilstraw.cpp:86 | characters[c]++ on one more letter adds one to c's count, starting from 0 |
| EvilStraw.PalindromeExists | EvilStraw/evilstraw.cpp:16-27 | true iff no two keys of the map have odd counts, whatever order the map is walked in |
| EvilStraw.OneOddCounts | EvilStraw/evilstraw.cpp:84-89 | on the counted map, that test holds iff at most one letter of s occurs an odd number of times |
| EvilStraw.PalindromeOneOdd | EvilStraw/evilstraw.cpp:89-92 | the letters of any palindrome have at most one odd count, so "Impossible" is right |
| EvilStraw.PeelPair | EvilStraw/evilstraw.cpp:89-92 | peeling the two equal ends off a palindrome keeps every parity |
| EvilStraw.InnerPalindrome | EvilStraw/evilstraw.cpp:89-92 | the inside of a palindrome is a palindrome |
| EvilStraw.MirroredPalindrome | EvilStraw/evilstraw.cpp:66-74 | a string whose left half mirrors its right half is a palindrome |
| EvilStraw.FindMatch | EvilStraw/evilstraw.cpp:29-42 | from the right: the greatest i in (start, len-1-start] with str[i] == c, else -1; from the left: the least i in [start, len-start) with str[i] == c, else -1 |
| EvilStraw.MovedFacts | EvilStraw/evilstraw.cpp:44-53 | moving the letter at `from` to `to` keeps the letters outside the two positions, shifts the ones between by one, and puts the moved letter at `to` |
| EvilStraw.MovedStep | EvilStraw/evilstraw.cpp:47-49 | one adjacent transposition carries the moved letter one place further |
| EvilStraw.SwapStep | EvilStraw/evilstraw.cpp:46-51 | one pass of swap's loop keeps its state: letter carried to index, counter one higher, letters permuted |
| EvilStraw.Swap | EvilStraw/evilstraw.cpp:44-53 | moves str[index] to goal by adjacent transpositions, shifts the letters between by one place, keeps the letter multiset, and returns abs(goal - index), which is the length of a trace of adjacent exchanges that turns the old string into the new one |
| EvilStraw.ApplySnoc | EvilStraw/evilstraw.cpp:46-51 | a trace with one more exchange is the old trace followed by that exchange |
| EvilStraw.ApplyConcat | EvilStraw/evilstraw.cpp:54-75 | the counts added up by the callers of swap: two traces made one after the other are one trace, their concatenation |
| EvilStraw.ApplyPermutes | EvilStraw/evilstraw.cpp:46-51 | a trace of adjacent exchanges only rearranges the letters |
| EvilStraw.ExchangeAdjacent | EvilStraw/evilstraw.cpp:47-49 | the exchange of str[index] and str[index + step] is the adjacent swap at the lower of the two positions, which lies inside the string |
| EvilStraw.SwapTrace | EvilStraw/evilstraw.cpp:46-51 | so each pass of swap's loop adds exactly one exchange to the trace |
| EvilStraw.Chain | EvilStraw/evilstraw.cpp:54-75 | a trace of a string followed by a trace of its result is a trace of the string, still made of adjacent exchanges |
| EvilStraw.BlockKept | EvilStraw/evilstraw.cpp:44-53 | a permutation that keeps the letters outside a block keeps the block's letters |
| EvilStraw.PairRemoved | EvilStraw/evilstraw.cpp:71-72 | after one letter is matched at both ends of the block, the inside holds the block's letters less that pair, with the same parities |
| EvilStraw.PairRemovedCard | EvilStraw/evilstraw.cpp:71-72 | so the number of odd letters of the block does not change |
| EvilStraw.RemovePair | EvilStraw/evilstraw.cpp:71-72 | removing two copies of one letter changes no letter's parity |
| EvilStraw.AddOneOdd | EvilStraw/evilstraw.cpp:68-70 | adding one letter flips whether that letter is odd and leaves the others |
| EvilStraw.AddOne | EvilStraw/evilstraw.cpp:68-70 | adding one letter changes the parity of the number of odd letters |
| EvilStraw.OddParity | EvilStraw/evilstraw.cpp:56 | a word's length and its number of odd letters have the same parity, so the reverse pass runs on an odd-length block |
| EvilStraw.ReadyForReverse | EvilStraw/evilstraw.cpp:67-70 | when str[i] has no partner in the right part, it is the block's only odd letter and occurs once there |
| EvilStraw.ReadyRight | EvilStraw/evilstraw.cpp:57 | in such a block the right end is another letter present at least twice |
| EvilStraw.ForwardMirror | EvilStraw/evilstraw.cpp:71-72 | moving the partner of str[i] to len-1-i matches one more pair and keeps the outer ones |
| EvilStraw.ForwardBlock | EvilStraw/evilstraw.cpp:71-72 | the same move keeps at most one odd letter in the remaining block |
| EvilStraw.ForwardStep | EvilStraw/evilstraw.cpp:66-73 | after pass i of palindromeSwaps, str[len-1-i] == str[i] and the loop state holds for i + 1 |
| EvilStraw.ForwardPass | EvilStraw/evilstraw.cpp:71-72 | the swap of the found partner establishes the loop state for i + 1, and its count is the length of a trace of adjacent exchanges from the old string to the new one |
| EvilStraw.Delegate | EvilStraw/evilstraw.cpp:68-70 | when str[i] has no partner, the reverse pass leaves a palindrome of the same letters, and the count it returns is the length of a trace from the old string to it |
| EvilStraw.Delegated | EvilStraw/evilstraw.cpp:68-70 | when the reverse pass took over at i, the whole string ends a palindrome |
| EvilStraw.ReverseMatch | EvilStraw/evilstraw.cpp:57 | in a ready block, the first match of the right end from the left lies strictly inside |
| EvilStraw.ReverseInner | EvilStraw/evilstraw.cpp:57-59 | moving that match to the left end matches the pair and leaves the inside ready |
| EvilStraw.ReverseStep | EvilStraw/evilstraw.cpp:56-60 | one pass of palindromeSwapsReverse keeps its loop state |
| EvilStraw.ReverseDone | EvilStraw/evilstraw.cpp:56 | when the loop stops at the middle, every pair of the block is matched |
| EvilStraw.ReversePass | EvilStraw/evilstraw.cpp:57-59 | one pass of the reverse loop at i establishes the state for i - 1, and its count is the length of a trace of adjacent exchanges from the old string to the new one |
| EvilStraw.PalindromeSwapsReverse | EvilStraw/evilstraw.cpp:54-62 | on a ready block, only permutes the letters, keeps the letters outside the block, matches every pair of the block, and returns the number of adjacent exchanges in a trace that turns the old string into the new one |
| EvilStraw.PalindromeSwaps | EvilStraw/evilstraw.cpp:64-75 | when at most one letter has an odd count, only permutes the letters, leaves a palindrome, and returns the number of adjacent exchanges in a trace that turns the old string into it |
| EvilStraw.Solve | EvilStraw/evilstraw.cpp:81-93 | "Impossible" exactly when more than one letter has an odd count; otherwise a palindrome made of the same letters and a count equal to the number of adjacent exchanges in a trace that turns s into that palindrome |
| IntervalCover.LinksCover | IntervalCover/interval.cpp:34-38 | a chain of picks, each starting within the reach of the one before, covers every point from primary.A to the last pick's right end |
| IntervalCover.PickedCovers | IntervalCover/interval.cpp:9-21 | a successful answer is a cover: its intervals hold every point of the primary interval |
| IntervalCover.CoveredPermutation | IntervalCover/interval.cpp:42 | covering depends only on which intervals there are, not on their order, so sorting changes nothing |
| IntervalCover.CoveredBack | IntervalCover/interval.cpp:42 | not covered by the sorted intervals means not covered by the given ones |
| IntervalCover.ScanStep | IntervalCover/interval.cpp:49-59 | an interval starting at or before `start` that reaches further is a new pick or overwrites result[count]; otherwise nothing is recorded |
| IntervalCover.RoundStep | IntervalCover/interval.cpp:61-67 | closing a round that does not stop the scan: start becomes end and count grows by one |
| IntervalCover.Stuck | IntervalCover/interval.cpp:65-74 | stopping at an interval that starts past the reach, before primary.B, means the primary interval is not covered |
| IntervalCover.Exhausted | IntervalCover/interval.cpp:48-74 | running out of intervals before reaching primary.B means it is not covered |
| IntervalCover.Reached | IntervalCover/interval.cpp:72-76 | when the reach is at least primary.B, the recorded picks cover the primary interval |
| IntervalCover.Cover | IntervalCover/interval.cpp:39-77 | for A <= B: {-1} exactly when the intervals do not cover [A, B]; otherwise the original indices of a chain of intervals that covers it, each reaching strictly further than the one before |
| LongestIncSeq.Values | LongestIncSeq/longestincseq.cpp:22-24 | the values of the elements, position by position |
| LongestIncSeq.Ids | LongestIncSeq/longestincseq.cpp:22-24 | the input indices of the elements, position by position |
| LongestIncSeq.Binary | LongestIncSeq/longestincseq.cpp:29-40 | on ascending tails whose last is at least key, returns the least index in (l, r] whose tail value is at least key |
| LongestIncSeq.LisStart | LongestIncSeq/longestincseq.cpp:54-57 | the first element alone is a run of length 1 and the only tail |
| LongestIncSeq.PositionBound | LongestIncSeq/longestincseq.cpp:60 | strictly increasing positions from 0: the last is at least the count before it |
| LongestIncSeq.Place | LongestIncSeq/longestincseq.cpp:61-72 | putting element i at the slot above the smaller tail and not above the next keeps the tails ascending, smallest per length and linked |
| LongestIncSeq.PlaceLinks | LongestIncSeq/longestincseq.cpp:65-71 | element i links to the tail before its slot, an earlier element with a smaller value ending a run one shorter |
| LongestIncSeq.PlaceRun | LongestIncSeq/longestincseq.cpp:61-72 | after placing element i, every increasing subsequence ending by i is at most as long as the tails and ends no lower than the tail of its length |
| LongestIncSeq.Skip | LongestIncSeq/longestincseq.cpp:61-72 | an element equal to the first or the last tail, which none of the three branches take, leaves the state valid |
| LongestIncSeq.WalkStep | LongestIncSeq/longestincseq.cpp:77-84 | following a prev link leads to an earlier element with a smaller value, on a run one shorter |
| LongestIncSeq.WalkDone | LongestIncSeq/longestincseq.cpp:77-86 | a walk that ends at a null link has length size and, reversed, is strictly increasing |
| LongestIncSeq.Reverse | LongestIncSeq/longestincseq.cpp:86 | std::reverse: the same entries, last first |
| LongestIncSeq.ReverseReverse | LongestIncSeq/longestincseq.cpp:86 | reversing twice gives back the original |
| LongestIncSeq.Consider | LongestIncSeq/longestincseq.cpp:60-73 | one pass of the loop keeps the tails ascending, smallest per length, and the links sound |
| LongestIncSeq.TopFacts | LongestIncSeq/longestincseq.cpp:61-68 | the first and last tails the loop reads are earlier elements, and their values are the elements' values |
| LongestIncSeq.TailsAscending | LongestIncSeq/longestincseq.cpp:28-69 | the tails, read through the arrays, ascend, which binary requires |
| LongestIncSeq.LisDone | LongestIncSeq/longestincseq.cpp:73-76 | after the loop the links are sound, the walk can start at the last tail, and no increasing subsequence is longer than size |
| LongestIncSeq.LongestBound | LongestIncSeq/longestincseq.cpp:73-76 | at the end every increasing subsequence is at most size long |
| LongestIncSeq.Backtrack | LongestIncSeq/longestincseq.cpp:75-87 | the read-back yields size positions of a strictly increasing subsequence, with their input indices |
| LongestIncSeq.Lis | LongestIncSeq/longestincseq.cpp:52-88 | returns the input indices of a strictly increasing subsequence no shorter than any other; values and indices stay, only prev links change, each to an earlier smaller element |
| Knapsack.BestBound | Knapsack/knapsack.cpp:10-21 | no selection of the first i items weighing at most j is worth more than the intended recurrence's value |
| Knapsack.BestAchieved | Knapsack/knapsack.cpp:10-21 | the intended recurrence's value is reached by some selection of the first i items weighing at most j |
| Knapsack.BestOptimal | Knapsack/knapsack.cpp:10-21 | the corrected recurrence (column 0 filled too) gives the greatest value of any selection that fits C, and a selection achieving it exists |
| Knapsack.TableIsBest | Knapsack/knapsack.cpp:42-59 | when every item weighs at least 1, the recurrence knapsack fills equals the intended one |
| Knapsack.ZeroWeightShortfall | Knapsack/knapsack.cpp:43-50 | with an item of weight 0, the table as filled (column 0 never visited) stays below the best value: 5 against 8 on a two-item input |
| Knapsack.NewCell | Knapsack/knapsack.cpp:44-56 | a cell written from the finished row above holds the recurrence's value and a link to the cell it extends, or no link exactly when its value is 0 |
| Knapsack.DoneFrame | Knapsack/knapsack.cpp:41-59 | a finished cell stays finished when neither it nor the row above it changes |
| Knapsack.FillStep | Knapsack/knapsack.cpp:43-57 | writing cell (i, j) keeps every earlier cell finished and every later cell blank, one cell further on |
| Knapsack.NextRow | Knapsack/knapsack.cpp:42-43 | a finished row moves the loops to column 1 of the next row |
| Knapsack.Fill | Knapsack/knapsack.cpp:41-59 | every cell of the table is as the loops write it and holds the recurrence's value, linked to the cell it extends |
| Knapsack.SumsAppend | Knapsack/knapsack.cpp:60-71 | taking one more item adds its value and its weight |
| Knapsack.WalkStep | Knapsack/knapsack.cpp:62-71 | following a link keeps the collected items distinct and their weight and value in step with the cell reached |
| Knapsack.Backtrack | Knapsack/knapsack.cpp:60-72 | the walk from DP[n][C] yields the indices of distinct items that fit C and are worth DP[n][C]; empty exactly when that value is 0 |
| Knapsack.Solve | Knapsack/knapsack.cpp:40-73 | knapsack returns the indices of a fitting selection worth the table's value, empty exactly when it is 0, and optimal whenever every item weighs at least 1 |
| ChoppingWood.TallyStep | ChoppingWood/choppingwood.cpp:18-23 | reading v[i] raises its degree by one unless it is the last entry |
| ChoppingWood.TallyDone | ChoppingWood/choppingwood.cpp:16-23 | after all N entries each degree is 1 plus the occurrences of the vertex in v[0..N-2] |
| ChoppingWood.InitialDegrees | ChoppingWood/choppingwood.cpp:16-23 | degree[w] is 1 plus the number of times w occurs among all entries but the last |
| ChoppingWood.InitialLeaves | ChoppingWood/choppingwood.cpp:26-31 | the heap holds each vertex of 1..N+1 whose degree is 1, exactly once |
| ChoppingWood.PendingSplit | ChoppingWood/choppingwood.cpp:34-44 | the counted entries split at cut i into those consumed and those still pending |
| ChoppingWood.PendingNext | ChoppingWood/choppingwood.cpp:41 | consuming v[i] takes one occurrence of it out of the pending entries |
| ChoppingWood.DegreeOne | ChoppingWood/choppingwood.cpp:38-42 | before cut i a vertex has degree 1 exactly when it is not cut and nothing pending hangs from it |
| ChoppingWood.Vertices | ChoppingWood/choppingwood.cpp:27 | the vertices 1..n, n of them |
| ChoppingWood.ElemsCard | ChoppingWood/choppingwood.cpp:36 | a sequence has at least as many entries as distinct values |
| ChoppingWood.LeafExists | ChoppingWood/choppingwood.cpp:35 | the heap is never empty at top(): before cut i < N at least two leaves are left |
| ChoppingWood.CandidatesDiff | ChoppingWood/choppingwood.cpp:38-42 | the leaves are the vertices not cut, less those some pending cut hangs from |
| ChoppingWood.DiffCard | ChoppingWood/choppingwood.cpp:35 | removing a subset removes its size |
| ChoppingWood.UnionCard | ChoppingWood/choppingwood.cpp:35 | what is left of a after removing b has at least size a less size b |
| ChoppingWood.SetMin | ChoppingWood/choppingwood.cpp:26 | a nonempty set of vertices has a smallest element |
| ChoppingWood.HeapMin | ChoppingWood/choppingwood.cpp:35 | a nonempty min-heap has a top no larger than any element |
| ChoppingWood.CutFacts | ChoppingWood/choppingwood.cpp:35-42 | before a cut the heap is nonempty, its elements are uncut leaves of degree 1, and the parent v[i] of a non-final cut is uncut with degree at least 2 |
| ChoppingWood.OrderStep | ChoppingWood/choppingwood.cpp:35-36 | cutting the smallest leaf extends an order that follows the leaf rule |
| ChoppingWood.DegreeStep | ChoppingWood/choppingwood.cpp:38-41 | the two decrements of a cut match the degree formula one cut further on |
| ChoppingWood.HeapStep | ChoppingWood/choppingwood.cpp:37-43 | after a cut that is not the last, the heap again holds exactly the leaves, once each |
| ChoppingWood.HeapAt | ChoppingWood/choppingwood.cpp:37-43 | the same, at one vertex w |
| ChoppingWood.Cut | ChoppingWood/choppingwood.cpp:35-43 | one pass of the loop cuts the smallest leaf and keeps degrees, heap and cut order in step with the leaf rule |
| ChoppingWood.CutRest | ChoppingWood/choppingwood.cpp:36-43 | the state after the three steps of a cut is the state one cut further on |
| ChoppingWood.LastCut | ChoppingWood/choppingwood.cpp:34-44 | after the last cut nothing is pending |
| ChoppingWood.AllZero | ChoppingWood/choppingwood.cpp:46-51 | the final check passes exactly when every degree in 1..N+1 is 0 |
| ChoppingWood.Verdict | ChoppingWood/choppingwood.cpp:46-51 | after the N cuts all degrees are 0 exactly when N > 0 and v[N-1] is the one vertex not cut |
| ChoppingWood.FinalDegrees | ChoppingWood/choppingwood.cpp:46-47 | after all N cuts, each vertex has lost 1 for being cut and 1 for being v[N-1] |
| ChoppingWood.OneLeft | ChoppingWood/choppingwood.cpp:46-47 | with N of the N+1 vertices cut, the one not cut is the only vertex left |
| ChoppingWood.MissingTwo | ChoppingWood/choppingwood.cpp:46-47 | a set of vertices in 1..N+1 missing two of them has at most N-1 elements |
| ChoppingWood.Decode | ChoppingWood/choppingwood.cpp:16-55 | the N cuts each take the smallest leaf, and the output is "Error" exactly when N is 0 or v[N-1] is itself among the cut leaves, else the cut order |
| Graphs.ReachableSelf | WheresMyInternet/wheresmyinternet.cpp:16-17 | the start vertex is reachable from itself |
| Graphs.ReachableStep | WheresMyInternet/wheresmyinternet.cpp:23-27 | a walk to v extends to any neighbour of v |
| Graphs.ClosedReachable | WheresMyInternet/wheresmyinternet.cpp:19-29 | a marking closed under the adjacency lists that holds s holds every vertex reachable from s |
| Graphs.UnmarkedMark | WheresMyInternet/wheresmyinternet.cpp:24-25 | setting one unset mark leaves one fewer unset, which bounds the search |
| Graphs.UnvisitedMark | HidingPlaces/hidingplaces.cpp:40-41 | the same for a matrix of marks |
| Graphs.Begin | WheresMyInternet/wheresmyinternet.cpp:14-17 | the search begins with the start alone queued and marked |
| Graphs.UnmarkedNone | WheresMyInternet/wheresmyinternet.cpp:14 | a fresh marking has every entry unset |
| Graphs.SomeUnmarked | WheresMyInternet/wheresmyinternet.cpp:24 | a marking with an unset entry left has an index that is not marked |
| Graphs.NoneUnmarked | WheresMyInternet/wheresmyinternet.cpp:24 | a marking with no unset entry has every entry marked |
| Graphs.Push | WheresMyInternet/wheresmyinternet.cpp:24-27 | marking and queueing an unmarked neighbour keeps every mark a reachable vertex queued once, and keeps the queue the tail of the visit order |
| Graphs.Expand | WheresMyInternet/wheresmyinternet.cpp:20-28 | once all neighbours of the front vertex are marked, it counts as expanded |
| Graphs.Explored | WheresMyInternet/wheresmyinternet.cpp:19-29 | when the queue is empty the marks are exactly the vertices reachable from the start |
| WheresMyInternet.Unreachable | WheresMyInternet/wheresmyinternet.cpp:13-36 | bfs2 returns, ascending, exactly the houses in 1..n that the start cannot reach; each reachable house is queued exactly once |
| WheresMyInternet.StartReported | WheresMyInternet/wheresmyinternet.cpp:31-34 | the start house is never reported |
| WheresMyInternet.ConnectedVerdict | WheresMyInternet/wheresmyinternet.cpp:48-51 | "Connected" is printed exactly when every house 1..n is reachable from house 1 |
| MaxFlow.Keep | MaxFlow/maxflow.cpp:50-51 | the neighbours in a list whose residual is nonzero, and only they |
| MaxFlow.Residual | MaxFlow/maxflow.cpp:49-51 | the residual graph: an edge v->w exactly when w is listed for v and cap[v][w] is nonzero |
| MaxFlow.ScanMarked | MaxFlow/maxflow.cpp:50-52 | marking the i-th neighbour of cur extends the scanned prefix by one |
| MaxFlow.Discover | MaxFlow/maxflow.cpp:51-54 | marking and queueing a residual neighbour keeps the search state, with its parent set to cur |
| MaxFlow.Skip | MaxFlow/maxflow.cpp:51 | a neighbour already marked or without residual capacity is passed over |
| MaxFlow.Linked | MaxFlow/maxflow.cpp:54 | the parent links stay residual edges back towards start when a vertex is queued |
| MaxFlow.Scanned | MaxFlow/maxflow.cpp:50-58 | after the last neighbour of cur, every residual neighbour of cur is marked |
| MaxFlow.Found | MaxFlow/maxflow.cpp:55-56 | queueing the goal ends the search with the goal marked |
| MaxFlow.Exhausted | MaxFlow/maxflow.cpp:45-59 | a search that empties the queue has marked everything reachable through residual edges |
| MaxFlow.Search | MaxFlow/maxflow.cpp:39-59 | the search marks the goal or shows it unreachable, and the parent links lead back along residual edges from every marked vertex to start |
| MaxFlow.BackStart | MaxFlow/maxflow.cpp:62-64 | the read-back starts at goal with an empty path and min_cap INF |
| MaxFlow.BackStep | MaxFlow/maxflow.cpp:67-72 | one step puts i in front of the path, folds cap[parent[i]][i] into min_cap and moves to i's parent, closer to start |
| MaxFlow.BackDone | MaxFlow/maxflow.cpp:67-74 | the read-back ends with an empty path exactly when goal is start or unreachable, otherwise with an augmenting path and its smallest residual |
| MaxFlow.Bfs | MaxFlow/maxflow.cpp:38-75 | bfs returns an empty path exactly when goal is start or no residual walk reaches it, otherwise a simple residual path from start to goal; min_cap is the smallest residual on it, INF when empty |
| MaxFlow.MinCapBelow | MaxFlow/maxflow.cpp:69-71 | min_cap is at most every residual along the path |
| MaxFlow.MinCapAttained | MaxFlow/maxflow.cpp:69-71 | and, when below INF, equals one of them |
| MaxFlow.MinCapPositive | MaxFlow/maxflow.cpp:51-71 | along residual edges min_cap is at least 1 |
| MaxFlow.OnPathNext | MaxFlow/maxflow.cpp:91-95 | on a path without repeated vertices each next edge is new, and so is its reverse |
| MaxFlow.OnPathOneWay | MaxFlow/maxflow.cpp:91-95 | no edge of such a path is the reverse of another |
| MaxFlow.PushStep | MaxFlow/maxflow.cpp:92-94 | one step of the update lowers cur->v by f and raises v->cur by f, everything else unchanged |
| MaxFlow.Augment | MaxFlow/maxflow.cpp:89-95 | the update loop pushes f along every edge of s followed by the path, and changes nothing else |
| MaxFlow.RowSumUpdate | MaxFlow/maxflow.cpp:92-93 | changing one entry of a row changes its total by the same amount |
| MaxFlow.RowSumNonNegative | MaxFlow/maxflow.cpp:92-93 | a row without negative entries has a nonnegative total |
| MaxFlow.PushedConserves | MaxFlow/maxflow.cpp:92-93 | pushing along a path keeps cap[u][w] + cap[w][u] for every pair |
| MaxFlow.PushedNonNegative | MaxFlow/maxflow.cpp:85-92 | pushing min_cap leaves no residual negative |
| MaxFlow.PushedSource | MaxFlow/maxflow.cpp:89-95 | the total residual out of s drops by exactly f |
| MaxFlow.Augmented | MaxFlow/maxflow.cpp:85-95 | one augmentation keeps residuals nonnegative and pair sums, and moves at least one unit out of s |
| MaxFlow.MaxFlow | MaxFlow/maxflow.cpp:83-98 | on return no residual walk leads from s to t, residuals are nonnegative, every pair sum is kept, and each round moved at least one unit out of s, so the loop ends |
| MinCut.SweepPush | MinCut/mincut.cpp:95-99 | marking and queueing a residual neighbour of cur keeps the search state |
| MinCut.SweepSkip | MinCut/mincut.cpp:96 | a marked neighbour, or one without residual capacity, is passed over |
| MinCut.Swept | MinCut/mincut.cpp:95-100 | after all of cur's neighbours, cur counts as expanded in the residual graph |
| MinCut.Reach | MinCut/mincut.cpp:85-111 | bfs2 returns, ascending, exactly the vertices reachable from start through edges of nonzero residual capacity |
| MinCut.StartInside | MinCut/mincut.cpp:89-108 | the start is always on its own side |
| MinCut.Saturated | MinCut/mincut.cpp:113-116 | every listed edge from the side reachable from s to a vertex outside it has residual capacity 0 |
| MinCut.Cut | MinCut/mincut.cpp:117-134 | min_cut returns, ascending, the vertices reachable from s after maximum flow; s is among them, t is not when s != t, and the residuals end nonnegative with every pair's sum kept |
| Gold.InnerSquare | Gold/gold.cpp:27-33 | on a map walled all round, the four neighbours of a square that is not a wall lie on the map |
| Gold.FoundStep | Gold/gold.cpp:32-35 | a walk to a square with no trap next to it extends to each neighbour that is not a wall |
| Gold.AddChildren | Gold/gold.cpp:25-36 | if any neighbour is a trap nothing is queued, otherwise all four neighbours are queued in order, none of them a trap |
| Gold.Visit | Gold/gold.cpp:52 | the flags with one more square marked visited, and nothing else changed |
| Gold.GoldRowMark | Gold/gold.cpp:48-49 | visiting one more square of a row adds one exactly when it holds gold |
| Gold.Mark | Gold/gold.cpp:48-52 | visiting one more square adds one to the gold count exactly when it holds gold |
| Gold.FreshRow | Gold/gold.cpp:20 | a row with nothing visited counts no gold |
| Gold.Fresh | Gold/gold.cpp:20-42 | a fresh map counts no gold |
| Gold.Begin | Gold/gold.cpp:39-42 | the search begins with start queued, nothing visited and no gold |
| Gold.SkipStep | Gold/gold.cpp:46-47 | a popped square that is a wall or already visited is passed over |
| Gold.VisitKeeps | Gold/gold.cpp:48-52 | visiting a reachable square keeps every visited square reachable, counts its gold, and leaves one square fewer unvisited |
| Gold.VisitQueues | Gold/gold.cpp:51 | the squares queued from a popped square are reachable or walls |
| Gold.VisitCovers | Gold/gold.cpp:51-52 | after a square is visited, its non-wall neighbours are visited or queued whenever it is safe |
| Gold.VisitStep | Gold/gold.cpp:44-52 | one pass of the loop on a new square keeps the search state with one square fewer unvisited |
| Gold.Finished | Gold/gold.cpp:43-54 | when the queue is empty the visited squares are exactly those reachable from start |
| Gold.Bfs | Gold/gold.cpp:38-55 | bfs returns the number of gold squares reachable safely from start, each counted once; the visited flags end set on exactly the reachable squares |
| HidingPlaces.KnightMoves | HidingPlaces/hidingplaces.cpp:17-18 | each of the eight moves is a knight's move: one step of 1 and one of 2 |
| HidingPlaces.Put | HidingPlaces/hidingplaces.cpp:64-65 | writing one square of an 8x8 matrix changes that square and no other |
| HidingPlaces.WithinStep | HidingPlaces/hidingplaces.cpp:57-66 | a walk of d moves to c extends by one move to any square a move away |
| HidingPlaces.Begin | HidingPlaces/hidingplaces.cpp:40-46 | the search begins with the start alone marked and queued |
| HidingPlaces.Pop | HidingPlaces/hidingplaces.cpp:50-54 | popping the front square, one of the nearest queued, begins its expansion |
| HidingPlaces.DiscoverReached | HidingPlaces/hidingplaces.cpp:62-65 | marking a square one move from cur and giving it cur's distance plus one keeps every marked square reached in its distance |
| HidingPlaces.DiscoverDistances | HidingPlaces/hidingplaces.cpp:64-65 | the same step keeps every unmarked square's entry and every marked square's distance |
| HidingPlaces.MarkOne | HidingPlaces/hidingplaces.cpp:64 | marking one unmarked square leaves one fewer unmarked |
| HidingPlaces.Unassigned | HidingPlaces/hidingplaces.cpp:64-65 | an unmarked square's entry is still its original one |
| HidingPlaces.WithinKept | HidingPlaces/hidingplaces.cpp:64-65 | marking a square with a distance it is reached in keeps every marked square reached in its distance |
| HidingPlaces.QueuedOnce | HidingPlaces/hidingplaces.cpp:62-64 | queueing only unmarked squares queues every square at most once |
| HidingPlaces.DiscoverLevels | HidingPlaces/hidingplaces.cpp:63-65 | the queue stays in order of distance, within one of cur's, and the expanded squares stay settled |
| HidingPlaces.Discover | HidingPlaces/hidingplaces.cpp:59-66 | handling a valid move of cur marks, queues and sets the distance of that square and keeps the search state |
| HidingPlaces.Pass | HidingPlaces/hidingplaces.cpp:29-62 | a move off the board or onto a marked square is passed over |
| HidingPlaces.Expanded | HidingPlaces/hidingplaces.cpp:57-67 | once all eight moves are handled, cur is expanded |
| HidingPlaces.Finished | HidingPlaces/hidingplaces.cpp:48-68 | with the queue empty, every knight walk from the start ends at a marked square whose distance is at most the walk's length |
| HidingPlaces.Concluded | HidingPlaces/hidingplaces.cpp:48-68 | with the queue empty, exactly the reachable squares are marked and queued, each once, with its least move count |
| HidingPlaces.Bfs | HidingPlaces/hidingplaces.cpp:39-69 | every square the knight can reach gets its least move count added to the start's entry, which is kept; unreachable squares keep their entries |
| HidingPlaces.CellsStep | HidingPlaces/hidingplaces.cpp:96-97 | the next square in row-major order is (i, j) |
| HidingPlaces.CellsOrdered | HidingPlaces/hidingplaces.cpp:96-97 | the first n squares of the scan are on the board in increasing row-major order |
| HidingPlaces.TopBound | HidingPlaces/hidingplaces.cpp:95-100 | the scan's maximum bounds every entry, is at least 0, and is attained unless it is 0 |
| HidingPlaces.LevelMembers | HidingPlaces/hidingplaces.cpp:98-104 | the list at the maximum holds exactly the scanned squares at that entry |
| HidingPlaces.LevelOrdered | HidingPlaces/hidingplaces.cpp:96-104 | and lists them in increasing row-major order |
| HidingPlaces.LevelAbove | HidingPlaces/hidingplaces.cpp:98-101 | no square is at a level above the maximum |
| HidingPlaces.Scan | HidingPlaces/hidingplaces.cpp:94-106 | maxDist is the largest entry of the grid, or 0, and hidingPlaces the squares with that entry in row-major order; a larger entry clears the list, an equal one is appended |
| HidingPlaces.Column | HidingPlaces/hidingplaces.cpp:72-89 | colmap gives a column 0..7, and 0 for a character that is not a file |
| HidingPlaces.ParseName | HidingPlaces/hidingplaces.cpp:71-79 | naming a square and parsing the name gives the square back |
| HidingPlaces.NameParse | HidingPlaces/hidingplaces.cpp:71-79 | parsing a well-formed name and naming the square gives the name back |
| HidingPlaces.Farthest | HidingPlaces/hidingplaces.cpp:94-106 | maxDist bounds every entry and is attained, and the places are exactly the squares at maxDist, in row-major order |
| HidingPlaces.Query | HidingPlaces/hidingplaces.cpp:86-111 | one test case: the start gets 0, every reachable square its least move count, and the output is the farthest distance and the squares at it, in row-major order, named in chess notation |
| AllPairsPath.BestStep | AllPairsPath/allpairspath.cpp:40-42 | one phase of the recurrence never raises an entry, and brings it to at most the sum through k when both halves exist |
| AllPairsPath.SliceSlice | AllPairsPath/allpairspath.cpp:27-31 | a slice of a slice is a slice |
| AllPairsPath.WalkSlice | AllPairsPath/allpairspath.cpp:27-31 | a part of a walk is a walk |
| AllPairsPath.JoinWalk | AllPairsPath/allpairspath.cpp:42 | a walk ending at k joined to one starting at k is a walk |
| AllPairsPath.WeightJoin | AllPairsPath/allpairspath.cpp:42 | and its weight is the sum of the two weights |
| AllPairsPath.WeightSplit | AllPairsPath/allpairspath.cpp:42 | splitting a walk at a vertex splits its weight |
| AllPairsPath.Rejoin | AllPairsPath/allpairspath.cpp:42 | the two halves of a split walk join back to it |
| AllPairsPath.ReachJoin | AllPairsPath/allpairspath.cpp:53 | reachability is transitive |
| AllPairsPath.PathReach | AllPairsPath/allpairspath.cpp:53 | a walk of some weight makes its end reachable |
| AllPairsPath.ReachSelf | AllPairsPath/allpairspath.cpp:53 | each vertex reaches itself |
| AllPairsPath.Through | AllPairsPath/allpairspath.cpp:47-48 | a negative closed walk through m makes every pair joined through m unbounded |
| AllPairsPath.BestBound | AllPairsPath/allpairspath.cpp:36-46 | a simple path whose inner vertices are below k, and whose partial sums fit the integer range, weighs at least the recurrence after k phases |
| AllPairsPath.SplitParts | AllPairsPath/allpairspath.cpp:42 | the halves of a simple path split at its visit to v are simple, fit, and have inner vertices below v |
| AllPairsPath.Segment | AllPairsPath/allpairspath.cpp:42 | a proper part of such a path ending at v is a simple fitting path with inner vertices below v |
| AllPairsPath.PartOfPart | AllPairsPath/allpairspath.cpp:42 | a part of a part of a path is a part of the path |
| AllPairsPath.Start | AllPairsPath/allpairspath.cpp:33 | the copy of adj is sound, at most adj, and the recurrence at phase 0 |
| AllPairsPath.JoinPaths | AllPairsPath/allpairspath.cpp:42 | an entry relaxed through k is the weight of the joined walk |
| AllPairsPath.Relax | AllPairsPath/allpairspath.cpp:40-43 | one step of the first pass keeps every finite entry a walk's weight, every entry at most the input's, and the phase in progress |
| AllPairsPath.RelaxSound | AllPairsPath/allpairspath.cpp:40-43 | one step keeps every finite entry a walk's weight and none above the input's |
| AllPairsPath.Assign | AllPairsPath/allpairspath.cpp:42 | lowering an entry to a walk's weight keeps the matrix sound |
| AllPairsPath.RelaxBound | AllPairsPath/allpairspath.cpp:40-43 | one step brings entry (i, j) to at most the recurrence at phase k + 1 |
| AllPairsPath.NextRow | AllPairsPath/allpairspath.cpp:37-38 | a finished row starts the next |
| AllPairsPath.RoundBegins | AllPairsPath/allpairspath.cpp:36-37 | a phase begins with nothing processed |
| AllPairsPath.RoundEnds | AllPairsPath/allpairspath.cpp:36-46 | after a finished phase every entry is still the weight of a walk and at most the input weight, and is at most the recurrence at k + 1 |
| AllPairsPath.Relaxation | AllPairsPath/allpairspath.cpp:33-46 | after the first pass every finite entry is a walk's weight, none is above the input's, and each is at most the full recurrence |
| AllPairsPath.Finite | AllPairsPath/allpairspath.cpp:53 | an entry below INF during the second pass joins its ends by a walk |
| AllPairsPath.Justified | AllPairsPath/allpairspath.cpp:53-54 | a pair set to -INF through k is unbounded: a negative closed walk lies on a walk between its ends |
| AllPairsPath.Mark | AllPairsPath/allpairspath.cpp:53-55 | one step of the second pass keeps every entry justified and marks the pairs guarded so far |
| AllPairsPath.MarkKeeps | AllPairsPath/allpairspath.cpp:53-55 | each entry stays its first-pass value or a justified -INF |
| AllPairsPath.MarkSpreads | AllPairsPath/allpairspath.cpp:53-55 | one step keeps the marks made so far and makes the one guarded at (k, i, j) |
| AllPairsPath.Spread | AllPairsPath/allpairspath.cpp:54 | setting (i, j) to -INF keeps earlier marks and makes this one |
| AllPairsPath.NegativeCycles | AllPairsPath/allpairspath.cpp:49-58 | the second pass sets exactly the pairs its guard catches to -INF, each justified, and keeps every other first-pass entry |
| AllPairsPath.APSP | AllPairsPath/allpairspath.cpp:32-61 | APSP is the first pass followed by the second, with the guarantees of both |
| AllPairsPath.Optimal | AllPairsPath/allpairspath.cpp:27-31 | after the first pass every entry is at most the weight of every simple path between its ends whose partial sums fit |
| AllPairsPath.Joined | AllPairsPath/allpairspath.cpp:39-40 | after the first pass the ends of every simple fitting path have an entry below INF |
| AllPairsPath.NoNegativeCycle | AllPairsPath/allpairspath.cpp:47-58 | with no negative closed walk the second pass changes nothing |
| AllPairsPath.CycleMarks | AllPairsPath/allpairspath.cpp:47-58 | a simple negative cycle through k marks -INF every pair that reaches k and is reached from k along simple fitting paths |
| Arbitrage.Build | Arbitrage/arbitrage.cpp:51-75 | the matrix is INF everywhere, 1 on the diagonal, and for each pair the weight of its last rate, later rates overwriting earlier ones |
| Arbitrage.Verdict | Arbitrage/arbitrage.cpp:79-86 | the verdict as written: Arbitrage at the first i < R with adj[i][i] < 0 on the input matrix, a read past the matrix if i reaches C first, else Ok |
| Arbitrage.NeverArbitrage | Arbitrage/arbitrage.cpp:54-84 | with nonnegative rate weights the verdict as written never reports arbitrage, whatever the rates |
| Arbitrage.EntryNonNegative | Arbitrage/arbitrage.cpp:54-74 | with nonnegative weights every diagonal entry of the built matrix is nonnegative |
| Arbitrage.ReadsPast | Arbitrage/arbitrage.cpp:79-80 | with more rates than currencies the loop reads adj[C][C], outside the matrix |
| Arbitrage.Detect | Arbitrage/arbitrage.cpp:77-86 | the intended verdict on APSP's result: arbitrage exactly when some currency's diagonal entry is negative |
| Arbitrage.DetectSound | Arbitrage/arbitrage.cpp:77-86 | a negative diagonal entry after APSP means some currency lies on a negative closed walk |
| Arbitrage.DetectComplete | Arbitrage/arbitrage.cpp:77-86 | a simple negative cycle whose partial sums fit makes its first currency's diagonal entry negative |
| Arbitrage.Discarded | Arbitrage/arbitrage.cpp:77-86 | on two currencies with exchanges of weight -1 each way, the verdict as written says Ok while APSP's result has a negative diagonal entry |
| Arbitrage.Edge | Arbitrage/arbitrage.cpp:74 | a one-edge walk weighs its entry |
| Arbitrage.TwoCycle | Arbitrage/arbitrage.cpp:74 | with exchanges 0 -> 1 and 1 -> 0 of weight -1, the cycle 0 -> 1 -> 0 is simple, fits and weighs -2 |
| Arbitrage.TwoCycleFits | Arbitrage/arbitrage.cpp:74 | every part of that cycle weighs -1 or -2, so its partial sums fit |
| ShortestPath1.PathSelf | ShortestPath1/shortestpath1.cpp:39 | the start is reached by the walk of no edges, of weight 0 |
| ShortestPath1.PathStep | ShortestPath1/shortestpath1.cpp:51-53 | a walk to v followed by an edge of v is a walk to its target, heavier by the edge's weight |
| ShortestPath1.Prefix | ShortestPath1/shortestpath1.cpp:28-35 | the first edges of a walk are a walk |
| ShortestPath1.Choose | ShortestPath1/shortestpath1.cpp:42-49 | choosing an unvisited vertex of least, finite distance starts its scan |
| ShortestPath1.KeepEdge | ShortestPath1/shortestpath1.cpp:52 | an edge that does not lower its target's distance is passed over |
| ShortestPath1.LowerEdge | ShortestPath1/shortestpath1.cpp:52-55 | lowering the target's distance to d[v] plus the weight, with predecessor v, keeps the scan's state |
| ShortestPath1.LoweredShape | ShortestPath1/shortestpath1.cpp:53-54 | the lowered distance stays between 0 and INF, and the start keeps 0 |
| ShortestPath1.Improve | ShortestPath1/shortestpath1.cpp:53 | lowering a distance to the weight of a walk keeps every finite distance a walk's weight |
| ShortestPath1.Reparent | ShortestPath1/shortestpath1.cpp:53-54 | the lowered vertex's predecessor is v, the vertex of the last edge of a walk of that weight |
| ShortestPath1.Lowered | ShortestPath1/shortestpath1.cpp:53 | lowering an unvisited distance, to no less than v's, keeps visited vertices nearest and their edges relaxed |
| ShortestPath1.LoweredScan | ShortestPath1/shortestpath1.cpp:51-56 | and keeps v least among the unvisited, with one more edge relaxed |
| ShortestPath1.Visit | ShortestPath1/shortestpath1.cpp:58 | marking v visited once its edges are relaxed ends the round |
| ShortestPath1.Frontier | ShortestPath1/shortestpath1.cpp:41-59 | along any walk from start some vertex, its end or an unvisited one, has distance at most the walk's weight |
| ShortestPath1.Lightest | ShortestPath1/shortestpath1.cpp:48-49 | when the least unvisited distance is INF, every walk lighter than INF weighs at least its end's distance |
| ShortestPath1.Nearest | ShortestPath1/shortestpath1.cpp:42-46 | the selection gives the first unvisited vertex of least distance |
| ShortestPath1.Finish | ShortestPath1/shortestpath1.cpp:41-61 | at the end the distances are the least walk weights, each reached vertex's predecessor ends such a walk, and unreached ones keep predecessor 0 |
| ShortestPath1.ShortestPath | ShortestPath1/shortestpath1.cpp:36-62 | d[start] is 0, every finite distance is the weight of a walk and at most that of every walk lighter than INF, and p[x] is the last vertex before x on such a walk (0 when unreached) |
| ShortestPath2.Remainder | ShortestPath2/shortestpath2.cpp:65 | (P k + s) % P is s for s in [0, P) |
| ShortestPath2.NextDeparture | ShortestPath2/shortestpath2.cpp:61-67 | the wait is nonnegative exactly when some departure is at t or later, and then it reaches the next departure, with none in between |
| ShortestPath2.Fifo | ShortestPath2/shortestpath2.cpp:61-68 | an edge that can be taken at t' can be taken at any earlier t, arriving no later |
| ShortestPath2.ReachedSelf | ShortestPath2/shortestpath2.cpp:21 | a vertex with an initial time is reached at it |
| ShortestPath2.ReachedStep | ShortestPath2/shortestpath2.cpp:68-70 | a journey to v followed by an edge departing later is a journey to its destination, arriving at the edge's arrival |
| ShortestPath2.Prefix | ShortestPath2/shortestpath2.cpp:38-45 | the first edges of a journey are a journey |
| ShortestPath2.Choose | ShortestPath2/shortestpath2.cpp:51-58 | choosing an unvisited vertex of least, finite time starts its scan |
| ShortestPath2.KeepEdge | ShortestPath2/shortestpath2.cpp:68 | an edge that cannot bring its destination forward is passed over |
| ShortestPath2.LowerEdge | ShortestPath2/shortestpath2.cpp:68-71 | bringing the destination forward to the arrival, with predecessor v, keeps the scan's state |
| ShortestPath2.Improve | ShortestPath2/shortestpath2.cpp:69 | bringing a vertex forward to a journey's arrival keeps every finite time justified |
| ShortestPath2.LoweredShape | ShortestPath2/shortestpath2.cpp:69-70 | every time stays no later than the initial one |
| ShortestPath2.Reparent | ShortestPath2/shortestpath2.cpp:69-70 | the vertex brought forward gets predecessor v, through an edge of v it can take |
| ShortestPath2.Lowered | ShortestPath2/shortestpath2.cpp:69 | bringing an unvisited vertex forward, to no earlier than v's time, keeps the visited vertices earliest and their edges relaxed |
| ShortestPath2.LoweredScan | ShortestPath2/shortestpath2.cpp:60-72 | and keeps v least among the unvisited, with one more edge relaxed |
| ShortestPath2.Visit | ShortestPath2/shortestpath2.cpp:73 | marking v visited once its edges are relaxed ends the round |
| ShortestPath2.Later | ShortestPath2/shortestpath2.cpp:68 | waiting and travelling never go back in time |
| ShortestPath2.Frontier | ShortestPath2/shortestpath2.cpp:50-74 | along any legal journey some vertex, its end or an unvisited one, has a time at most the journey's arrival |
| ShortestPath2.Finish | ShortestPath2/shortestpath2.cpp:50-75 | at the end the times are the earliest arrivals, each vertex brought forward has a predecessor it is reached from, and the others keep predecessor 0 |
| ShortestPath2.ShortestPath | ShortestPath2/shortestpath2.cpp:46-76 | times end no later than the initial ones, each finite time is a legal journey's arrival and no legal journey arrives earlier; each vertex brought forward is reached through an edge of p[x], the others keep p[x] = 0 |
| ShortestPath3.Relax | ShortestPath3/shortestpath3.cpp:43-47 | the phase-one update of one edge keeps n distances and n predecessors; ShortestPath3.RelaxSound states what it means |
| ShortestPath3.Mark | ShortestPath3/shortestpath3.cpp:56-60 | the phase-two update of one edge keeps n distances and n predecessors; ShortestPath3.MarkSound states what it means |
| ShortestPath3.Step | ShortestPath3/shortestpath3.cpp:43-60 | one edge of a pass of either phase keeps the sizes |
| ShortestPath3.Sweep | ShortestPath3/shortestpath3.cpp:42-61 | a pass over the edges in order keeps the sizes |
| ShortestPath3.Passes | ShortestPath3/shortestpath3.cpp:40-64 | up to i passes, stopping after one that changes nothing, keep the sizes |
| ShortestPath3.Zeros | ShortestPath3/shortestpath3.cpp:38 | std::vector<int32_t> p(n): n predecessors, each 0 |
| ShortestPath3.PhaseOne | ShortestPath3/shortestpath3.cpp:38-51 | phase one from d0 with every predecessor 0 keeps the sizes |
| ShortestPath3.BellmanFord | ShortestPath3/shortestpath3.cpp:37-66 | phase one, then phase two unless phase one ended without change, keeps the sizes |
| ShortestPath3.Start | ShortestPath3/shortestpath3.cpp:16-17 | each vertex with an initial distance is a source reached by the walk of no edges |
| ShortestPath3.ExtendReach | ShortestPath3/shortestpath3.cpp:43-44 | a walk to e.u followed by e is a walk to e.v |
| ShortestPath3.ExtendUpper | ShortestPath3/shortestpath3.cpp:43-44 | and its weight is at most e.u's bound plus e.w |
| ShortestPath3.RelaxSound | ShortestPath3/shortestpath3.cpp:43-47 | one relaxation keeps distances in [-INF, INF], never raises one, and keeps each finite one at least some walk's weight from a source |
| ShortestPath3.MarkSound | ShortestPath3/shortestpath3.cpp:56-60 | one marking keeps distances in range, never raises one, and keeps every vertex below INF reached from a source |
| ShortestPath3.SweepSound | ShortestPath3/shortestpath3.cpp:42-61 | a pass keeps the range and the justification and never raises a distance |
| ShortestPath3.PassesSound | ShortestPath3/shortestpath3.cpp:40-64 | so do any number of passes |
| ShortestPath3.Justified | ShortestPath3/shortestpath3.cpp:37-66 | both phases keep every distance in [-INF, INF] and no higher than it started; every vertex below INF is reached from a source, and every distance above -INF is at least a walk's weight from a source plus its initial distance |
| ShortestPath3.Unchanged | ShortestPath3/shortestpath3.cpp:49-63 | a pass that changes nothing leaves the state as it was, and no edge fires there |
| ShortestPath3.PassesFixed | ShortestPath3/shortestpath3.cpp:49-50 | passes that end without change end where no edge can relax |
| ShortestPath3.FixedBound | ShortestPath3/shortestpath3.cpp:30-36 | where no edge can relax, no walk from a source ends below its end's distance, given its prefixes stay below INF |
| ShortestPath3.Settled | ShortestPath3/shortestpath3.cpp:49-50 | when phase one settles, the result is phase one's, and every walk from a source weighs at least its end's distance: the distances are the least weights |
| ShortestPath3.Pass | ShortestPath3/shortestpath3.cpp:41-61 | the inner loop updates d and p in place exactly as Sweep describes, and changed says whether any edge fired |
| ShortestPath3.Relaxation | ShortestPath3/shortestpath3.cpp:38-51 | the first loop computes PhaseOne: at most n - 1 passes, stopping after one without change |
| ShortestPath3.Marking | ShortestPath3/shortestpath3.cpp:53-64 | the second loop computes the given number of marking passes, stopping after one without change |
| ShortestPath3.ShortestPath | ShortestPath3/shortestpath3.cpp:20-66 | shortest_path computes BellmanFord with n - 1 passes of phase two, so the guarantees of Justified hold; every predecessor is 0 at a vertex that kept its initial distance, or the tail of an edge into the vertex that does not overshoot it, and an exact one when phase one settles |
| ShortestPath3.RelaxTraced | ShortestPath3/shortestpath3.cpp:43-47 | a relaxation sets p[v] to the tail of the edge it used and keeps every other predecessor's edge from overshooting |
| ShortestPath3.MarkTraced | ShortestPath3/shortestpath3.cpp:56-60 | a marking sets p[v] to the tail of the edge it used, from a vertex below INF |
| ShortestPath3.SweepTraced | ShortestPath3/shortestpath3.cpp:42-61 | a pass keeps every predecessor traced |
| ShortestPath3.PassesTraced | ShortestPath3/shortestpath3.cpp:40-64 | so do any number of passes |
| ShortestPath3.Traces | ShortestPath3/shortestpath3.cpp:20-21 | after both phases each predecessor is 0 at an untouched vertex or the tail of an edge into it from a vertex below INF; when phase one settles, that edge's weight plus the predecessor's distance is the vertex's distance, so p[v] is the penultimate vertex of a least walk |
| ShortestPath3Cycles.Join | ShortestPath3/shortestpath3.cpp:30-36 | a walk to b followed by one from b is a walk |
| ShortestPath3Cycles.Part | ShortestPath3/shortestpath3.cpp:30-36 | a part of a walk is a walk |
| ShortestPath3Cycles.Pigeonhole | ShortestPath3/shortestpath3.cpp:31-32 | among more than n vertices below n two are the same |
| ShortestPath3Cycles.Shorten | ShortestPath3/shortestpath3.cpp:31-32 | any walk can be cut to one between the same ends with fewer than n edges |
| ShortestPath3Cycles.SweepLower | ShortestPath3/shortestpath3.cpp:42-61 | a pass never raises a distance, a marking pass only sets -INF, changed stays set, and a pass without change leaves the distances alone |
| ShortestPath3Cycles.PassesLower | ShortestPath3/shortestpath3.cpp:40-64 | passes keep distances in range and never raise one |
| ShortestPath3Cycles.Initially | ShortestPath3/shortestpath3.cpp:16-17 | before any pass the walks of no edges are accounted for |
| ShortestPath3Cycles.RelaxLast | ShortestPath3/shortestpath3.cpp:43-44 | relaxing the last edge of a walk whose prefix is accounted for accounts for the walk |
| ShortestPath3Cycles.Shorter | ShortestPath3/shortestpath3.cpp:43-44 | a candidate walk without its last edge is a candidate walk |
| ShortestPath3Cycles.SweepBound | ShortestPath3/shortestpath3.cpp:42-48 | a pass from a state accounting for walks of k edges accounts for the walks of k + 1 edges whose last edge it passed |
| ShortestPath3Cycles.PassBound | ShortestPath3/shortestpath3.cpp:42-48 | a full pass moves the account from k edges to k + 1 |
| ShortestPath3Cycles.PassesBound | ShortestPath3/shortestpath3.cpp:40-51 | phase one's passes end without change or account for walks of k + i edges |
| ShortestPath3Cycles.Settles | ShortestPath3/shortestpath3.cpp:40-51 | phase one ends changed, or where no edge can still relax |
| ShortestPath3Cycles.Simple | ShortestPath3/shortestpath3.cpp:40 | a walk from the start of fewer than n edges, without overflow, is accounted for after n - 1 passes |
| ShortestPath3Cycles.PhaseOneReaches | ShortestPath3/shortestpath3.cpp:40-51 | after phase one every vertex connected to the start is below INF |
| ShortestPath3Cycles.FixedFits | ShortestPath3/shortestpath3.cpp:49-50 | where no edge can relax, a candidate walk is accounted for |
| ShortestPath3Cycles.Telescope | ShortestPath3/shortestpath3.cpp:56 | along a walk below INF some edge can still relax, or the end is at most the start plus the weight |
| ShortestPath3Cycles.Unsettled | ShortestPath3/shortestpath3.cpp:33-35 | on a negative cycle below INF some edge can still relax |
| ShortestPath3Cycles.SweepActive | ShortestPath3/shortestpath3.cpp:56-59 | a marking pass over an edge still active at its start marks the edge's target and changes |
| ShortestPath3Cycles.Spread | ShortestPath3/shortestpath3.cpp:53-64 | i marking passes from a -INF vertex mark the end of every walk of at most i edges |
| ShortestPath3Cycles.CycleFinite | ShortestPath3/shortestpath3.cpp:40-51 | every vertex of a closed walk through a vertex connected to the start is below INF after phase one |
| ShortestPath3Cycles.Onward | ShortestPath3/shortestpath3.cpp:33-35 | from any vertex of a closed walk a walk of fewer than n edges leads on to x |
| ShortestPath3Cycles.FirstMark | ShortestPath3/shortestpath3.cpp:53-61 | the first marking pass marks a vertex of the cycle, from which fewer than n edges lead to x |
| ShortestPath3Cycles.MarkFirst | ShortestPath3/shortestpath3.cpp:49-59 | an edge that can still relax after phase one makes phase one end changed and the first marking pass mark its target |
| ShortestPath3Cycles.NegativeCycleMarked | ShortestPath3/shortestpath3.cpp:33-35 | with n marking passes, every vertex reachable from a negative cycle connected to the start ends at -INF, given no simple-path sum overflows |
| ShortestPath3Cycles.MissedPass | ShortestPath3/shortestpath3.cpp:42-61 | one pass over the three-edge example is its three steps in order |
| ShortestPath3Cycles.MissedCycle | ShortestPath3/shortestpath3.cpp:53 | from start 0 a negative loop at 1 reaches 0, yet the n - 1 = 1 marking pass leaves 0 at distance 0; n = 2 passes mark it |
| ShortestPath3Cycles.ShortestPathCorrected | ShortestPath3/shortestpath3.cpp:20-66 | shortest_path with n marking passes computes BellmanFord with n rounds; without overflow, from 0 at the start and INF elsewhere, a vertex ends at -INF exactly when a negative cycle connected to the start leads to it, each finite distance is at most the weight of every walk from the start to it, and the predecessors are traced as in ShortestPath3.Traces |
| ShortestPath3Cycles.PhaseOneShort | ShortestPath3/shortestpath3.cpp:40-51 | after phase one a walk from the start of fewer than n edges weighs at least its end's distance |
| ShortestPath3Cycles.WeightAppend | ShortestPath3/shortestpath3.cpp:43 | the weight of two edge lists in a row is the sum of their weights |
| ShortestPath3Cycles.Loop | ShortestPath3/shortestpath3.cpp:33-35 | a closed part of negative weight in a walk is a negative cycle connected to the walk's start and leading to its end |
| ShortestPath3Cycles.CutWeight | ShortestPath3/shortestpath3.cpp:31-32 | removing a part of an edge list removes its weight |
| ShortestPath3Cycles.Cut | ShortestPath3/shortestpath3.cpp:31-32 | removing a closed part of a walk leaves a walk between the same ends, lighter by that part's weight |
| ShortestPath3Cycles.Lighten | ShortestPath3/shortestpath3.cpp:31-35 | a walk can be cut to one of fewer than n edges between the same ends that weighs no more, unless a negative cycle lies on the way |
| ShortestPath3Cycles.Snoc | ShortestPath3/shortestpath3.cpp:43-44 | a walk followed by an edge from its end is a walk, heavier by the edge's weight |
| ShortestPath3Cycles.ExtendDoomed | ShortestPath3/shortestpath3.cpp:56 | what a negative cycle leads to, it leads on to along any edge |
| ShortestPath3Cycles.PhaseOneWalk | ShortestPath3/shortestpath3.cpp:16-17 | from 0 at the start and INF elsewhere, every vertex below INF after phase one is the end of a walk from the start no heavier than its distance |
| ShortestPath3Cycles.PhaseOneExplained | ShortestPath3/shortestpath3.cpp:44 | without overflow, phase one's clamp to -INF happens only where a negative cycle leads |
| ShortestPath3Cycles.Escape | ShortestPath3/shortestpath3.cpp:33-35 | without overflow, an edge that can still relax after phase one leads to a vertex a negative cycle reaches |
| ShortestPath3Cycles.MarkWithin | ShortestPath3/shortestpath3.cpp:56-60 | one marking keeps every -INF vertex among the doomed ones, given that escaping edges and edges out of doomed vertices lead to doomed ones |
| ShortestPath3Cycles.SweepWithin | ShortestPath3/shortestpath3.cpp:55-61 | so does a marking pass |
| ShortestPath3Cycles.PassesWithin | ShortestPath3/shortestpath3.cpp:53-64 | and any number of them |
| ShortestPath3Cycles.MarkedFromCycle | ShortestPath3/shortestpath3.cpp:33-35 | without overflow, from 0 at the start and INF elsewhere, after any number of marking passes (n - 1 as written, or n) every -INF vertex is reached from a negative cycle connected to the start |
| ShortestPath3Cycles.MarkedIffDoomed | ShortestPath3/shortestpath3.cpp:33-35 | with n marking passes, a vertex ends at -INF if and only if a negative cycle connected to the start leads to it |
| ShortestPath3Cycles.LeastCorrected | ShortestPath3/shortestpath3.cpp:20-21 | with n marking passes, every walk from the start weighs at least its end's distance unless that end is at -INF |
| EulerianPath.PairsSize | EulerianPath/eulerianpath.cpp:108 | a walk of k >= 1 vertices uses k - 1 edges |
| EulerianPath.Reverse | EulerianPath/eulerianpath.cpp:101 | std::reverse: the same vertices, last first |
| EulerianPath.ReverseWalk | EulerianPath/eulerianpath.cpp:101 | the edges of the reversed walk are the original's, each turned round |
| EulerianPath.DiffCounts | EulerianPath/eulerianpath.cpp:43-57 | when every vertex is off by at most one, the sum of out-degree less in-degree counts the +1 vertices less the -1 vertices |
| EulerianPath.SumDiffSplit | EulerianPath/eulerianpath.cpp:138-143 | that sum is the total out-degree less the total in-degree |
| EulerianPath.CountSumSnoc | EulerianPath/eulerianpath.cpp:141-142 | one more neighbour adds one in-degree when it is a vertex |
| EulerianPath.CountSumLen | EulerianPath/eulerianpath.cpp:141-142 | a queue of vertices contributes its length to the in-degrees |
| EulerianPath.CountSumEmpty | EulerianPath/eulerianpath.cpp:141-142 | an empty queue contributes nothing |
| EulerianPath.InSumSplit | EulerianPath/eulerianpath.cpp:141-142 | the in-degree total over the first j queues adds queue j - 1 |
| EulerianPath.InSumEmpty | EulerianPath/eulerianpath.cpp:141-142 | over no queues it is 0 |
| EulerianPath.InSumTotal | EulerianPath/eulerianpath.cpp:138-143 | summed over all vertices, the in-degrees count every edge once |
| EulerianPath.Offsets | EulerianPath/eulerianpath.cpp:37-60 | when every vertex is off by at most one, as many vertices have an extra outgoing edge as an extra incoming one |
| EulerianPath.EdgesUpdate | EulerianPath/eulerianpath.cpp:64-97 | replacing one vertex's queue changes the edges by exactly the two queues' edges |
| EulerianPath.IntoUpdate | EulerianPath/eulerianpath.cpp:64-97 | and each in-degree by the difference of the two queues |
| EulerianPath.AddEdge | EulerianPath/eulerianpath.cpp:63-66 | adding bn -> an keeps the number of vertices |
| EulerianPath.PathExists | EulerianPath/eulerianpath.cpp:43-69 | ok exactly when the degree condition holds; then an and bn are the vertices with an extra outgoing and an extra incoming edge (-1 when none), both or neither exist, and bn -> an is added when they do; the graph is otherwise unchanged |
| EulerianPath.AddEdgeBalances | EulerianPath/eulerianpath.cpp:62-66 | adding bn -> an balances a graph whose only unbalanced vertices are an and bn |
| EulerianPath.AlreadyBalanced | EulerianPath/eulerianpath.cpp:52-53 | with no unbalanced vertex the graph is balanced |
| EulerianPath.Init | EulerianPath/eulerianpath.cpp:85-86 | the stack loop begins with the start alone on the stack and nothing emitted |
| EulerianPath.PopKeeps | EulerianPath/eulerianpath.cpp:91-93 | a vertex without outgoing edges on top of the stack is emitted, keeping the loop's invariant |
| EulerianPath.PopAcc | EulerianPath/eulerianpath.cpp:91-93 | emitting it keeps the account of stack, emitted and remaining edges |
| EulerianPath.PopStack | EulerianPath/eulerianpath.cpp:93 | popping the stack removes its last edge |
| EulerianPath.PopPath | EulerianPath/eulerianpath.cpp:92 | emitting a vertex adds one edge to the emitted walk's reversed edges |
| EulerianPath.PushKeeps | EulerianPath/eulerianpath.cpp:94-99 | following the first outgoing edge of the top moves it from the graph onto the stack and keeps the invariant |
| EulerianPath.PushValid | EulerianPath/eulerianpath.cpp:97-98 | dropping the front neighbour and decrementing from keeps the degree counts consistent |
| EulerianPath.PushShape | EulerianPath/eulerianpath.cpp:96 | pushing a vertex keeps the stack a sequence of vertices from the start |
| EulerianPath.PushAcc | EulerianPath/eulerianpath.cpp:95-98 | the moved edge leaves the graph and joins the stack's edges |
| EulerianPath.PushBal | EulerianPath/eulerianpath.cpp:95-98 | after the push only the stack's ends are unbalanced in the remaining graph |
| EulerianPath.PushEdges | EulerianPath/eulerianpath.cpp:95-98 | the remaining edges plus the moved one are the edges before |
| EulerianPath.Hierholzer | EulerianPath/eulerianpath.cpp:85-100 | on a balanced graph the emitted vertices form a closed walk from the start, and its edges together with those left in the graph are exactly the original edges |
| EulerianPath.PairsJoin | EulerianPath/eulerianpath.cpp:112-121 | the edges of a concatenation are those of the parts and the one where they meet |
| EulerianPath.DropLast | EulerianPath/eulerianpath.cpp:115-118 | dropping the last vertex drops the last edge |
| EulerianPath.PairsIndex | EulerianPath/eulerianpath.cpp:112-113 | an edge of a walk is at some position of it |
| EulerianPath.Rotate | EulerianPath/eulerianpath.cpp:111-122 | the walk restarted after its first bn -> an runs from an to bn over every edge of the closed walk but that one |
| EulerianPath.RotatePairs | EulerianPath/eulerianpath.cpp:114-119 | rotating the closed walk at position i drops exactly the edge at i |
| EulerianPath.RotateFirst | EulerianPath/eulerianpath.cpp:114-119 | the same at position 0 |
| EulerianPath.RotateLater | EulerianPath/eulerianpath.cpp:114-119 | the same at a later position |
| EulerianPath.SplitAt | EulerianPath/eulerianpath.cpp:114-119 | a walk's edges split at position i |
| EulerianPath.SplitHead | EulerianPath/eulerianpath.cpp:117-118 | the first edge splits off a prefix |
| EulerianPath.Closing | EulerianPath/eulerianpath.cpp:107-124 | a closed walk that uses every edge of the graph with bn -> an added, rotated, is an Eulerian path of the original graph from an to bn |
| EulerianPath.OutSnoc | EulerianPath/eulerianpath.cpp:142 | appending a neighbour adds one edge |
| EulerianPath.EulerianPathWritten | EulerianPath/eulerianpath.cpp:78-125 | without the degree condition the result is empty; with an unbalanced pair it is empty or an Eulerian path from an to bn; when all are balanced it is a closed walk from 0 using graph edges at most once, not necessarily all |
| EulerianPath.EulerianPathChecked | EulerianPath/eulerianpath.cpp:78-125 | the same with the edge count checked in the balanced case too: a nonempty result is always an Eulerian path, closed at 0 when all vertices are balanced |
| EulerianPath.Stays | EulerianPath/eulerianpath.cpp:104-105 | a walk along self-loops only stays at its first vertex |
| EulerianPath.TwoLoopsEdges | EulerianPath/eulerianpath.cpp:104-105 | the two-loop graph is as main builds it and has edges (0, 0) and (1, 1) |
| EulerianPath.NoEulerPath | EulerianPath/eulerianpath.cpp:104-105 | no walk on it uses both edges |
| EulerianPath.UncheckedBalanced | EulerianPath/eulerianpath.cpp:103-105 | on the two-loop graph every vertex is balanced and no Eulerian path exists, yet the balanced case returns a nonempty walk, printed instead of "Impossible" |
| CountingSort.CountKeys | SuffixSorting/suffixsorting.cpp:85-86 | after the counting loop, entry x of count is the number of elements whose key is x |
| CountingSort.PrefixSums | SuffixSorting/suffixsorting.cpp:87-88 | after the running-sum loop, entry x of count is the number of elements with key at most x, the end of bucket x |
| CountingSort.Distribute | SuffixSorting/suffixsorting.cpp:89-90 | the placement loop, right to left, writes each bucket's elements into its span of the output in input order |
| CountingSort.StableSort | SuffixSorting/suffixsorting.cpp:83-90 | the counting sort of a pass returns exactly Blocks: the elements of key 0 in input order, then those of key 1, and so on |
| CountingSort.BlocksLen | SuffixSorting/suffixsorting.cpp:89-90 | when every key lies below the bucket count, the sorted output has as many entries as the input |
| CountingSort.BlocksOrdered | SuffixSorting/suffixsorting.cpp:89-90 | the counting sort's output is in non-decreasing order of key |
| CountingSort.BlocksStable | SuffixSorting/suffixsorting.cpp:89-90 | the counting sort is stable: an input ordered by a second key stays ordered by it within equal first keys |
| CountingSort.BlocksPermutation | SuffixSorting/suffixsorting.cpp:89-90 | sorting a permutation of 0..n-1 gives a permutation of 0..n-1 |
| CountingSort.BlockAt | SuffixSorting/suffixsorting.cpp:87-90 | position p of the output lies in the bucket of its key, between the running sums of the keys below it and up to it |
| CountingSort.Place | SuffixSorting/suffixsorting.cpp:90 | one placement step, which decrements the counter of the element's key and writes the element below it, keeps the placement invariant |
| CountingSort.Placed | SuffixSorting/suffixsorting.cpp:89-90 | once the placement loop has passed every element, the output is Blocks |
| SuffixSorting.Codes | SuffixSorting/suffixsorting.cpp:47-52 | the key cSort sorts offset e by is the code of character e |
| SuffixSorting.Cyc | SuffixSorting/suffixsorting.cpp:55-62 | the cyclic substring of length len at offset i has length len (the object the doubling sorts) |
| SuffixSorting.CycSplit | SuffixSorting/suffixsorting.cpp:95-96 | a cyclic substring of length a + b is the one of length a at i followed by the one of length b at (i + a) mod N |
| SuffixSorting.CInputPermutation | SuffixSorting/suffixsorting.cpp:51-52 | the offsets in the order the placement loop meets them are a permutation of 0..N-1 |
| SuffixSorting.SameCount | SuffixSorting/suffixsorting.cpp:47-48 | counting the characters in text order gives the bucket sizes of the placement order |
| SuffixSorting.BucketEnds | SuffixSorting/suffixsorting.cpp:47-50 | after cSort's first two loops, entry x of count is the end of the bucket of character x |
| SuffixSorting.CStep | SuffixSorting/suffixsorting.cpp:52 | one placement step keeps the placement invariant and leaves the unwritten bottom slot of every bucket zero |
| SuffixSorting.LastSlot | SuffixSorting/suffixsorting.cpp:51-52 | offset 0, which the loop starting at 1 never writes, already sits in the zero slot where it belongs |
| SuffixSorting.CPlace | SuffixSorting/suffixsorting.cpp:51-52 | the placement loop over offsets 1..N-1 places each into its bucket and leaves the bucket bottoms zero |
| SuffixSorting.CSort | SuffixSorting/suffixsorting.cpp:46-53 | cSort over a zero order vector yields exactly the stable counting sort of all offsets by character, offset 0 included |
| SuffixSorting.CSortOrder | SuffixSorting/suffixsorting.cpp:46-53 | the order cSort leaves holds every offset once, in order of character |
| SuffixSorting.NumberStep | SuffixSorting/suffixsorting.cpp:70-99 | numbering the next entry of the order opens a new class exactly when its key differs from the previous entry's |
| SuffixSorting.NumberedRank | SuffixSorting/suffixsorting.cpp:69-100 | once the whole order is numbered, the classes lie in [0, cl), cl is at most N, and two offsets' classes compare exactly as their keys do |
| SuffixSorting.OnePair | SuffixSorting/suffixsorting.cpp:71 | cyclic substrings of length 1 compare, and are equal, exactly as their characters |
| SuffixSorting.FirstStage | SuffixSorting/suffixsorting.cpp:66-74 | the character order with its classes is the state for length 1: a permutation sorted by substring, with classes that rank the substrings |
| SuffixSorting.InitClasses | SuffixSorting/suffixsorting.cpp:69-74 | the first class loop yields the state for length 1 |
| SuffixSorting.PairKeyOrder | SuffixSorting/suffixsorting.cpp:95-97 | with second halves below n, the pair (a1, a2) precedes (b1, b2) exactly when a1 n + a2 < b1 n + b2, and equal pairs have equal numbers |
| SuffixSorting.PairSame | SuffixSorting/suffixsorting.cpp:95-97 | the comparison cur != prev of the class loop agrees with comparing pair keys |
| SuffixSorting.ShiftOrder | SuffixSorting/suffixsorting.cpp:78-82 | every entry of ordern is the entry of order moved back by 2^h, wrapped into [0, N) |
| SuffixSorting.Shifted | SuffixSorting/suffixsorting.cpp:78-82 | the shifted order is again a permutation, sorted by the class of each offset's second half |
| SuffixSorting.PairsSorted | SuffixSorting/suffixsorting.cpp:83-90 | stably sorting the shifted order by first-half class leaves it a permutation sorted by the pair of classes (radix sort) |
| SuffixSorting.DoubledPair | SuffixSorting/suffixsorting.cpp:95-97 | when classes rank the substrings of length len, pair keys rank, and decide equality of, the substrings of length 2 len |
| SuffixSorting.Doubled | SuffixSorting/suffixsorting.cpp:92-100 | classes that compare as the pair keys rank the cyclic substrings of length 2 len |
| SuffixSorting.NumberPairs | SuffixSorting/suffixsorting.cpp:92-100 | the class loop of a pass gives classes bounded by the new cl that compare exactly as the pairs of old classes |
| SuffixSorting.Round | SuffixSorting/suffixsorting.cpp:78-101 | one pass of the doubling loop carries the sorted, ranked state for length 2^h to the state for length 2^(h+1) |
| SuffixSorting.LongCyc | SuffixSorting/suffixsorting.cpp:64-77 | once the length is past the text, cyclic substrings at different text offsets differ and compare as the suffixes there, because the sentinel is lowest |
| SuffixSorting.SentinelFirst | SuffixSorting/suffixsorting.cpp:64 | the shift that starts at the sentinel comes before every other shift |
| SuffixSorting.SentinelAtFront | SuffixSorting/suffixsorting.cpp:77-103 | when the loop ends, the first entry of the order is the sentinel's offset |
| SuffixSorting.Final | SuffixSorting/suffixsorting.cpp:103-104 | after the loop, dropping the first entry leaves a permutation of the text's offsets in strictly increasing suffix order |
| SuffixSorting.SuffixArray | SuffixSorting/suffixsorting.cpp:63-105 | suffixArray returns the suffix array of the text: a permutation of 0..N-1 whose suffixes are strictly increasing |
| SuffixSorting.Suffix.constructor | SuffixSorting/suffixsorting.cpp:34-37 | the constructor keeps the text and stores its suffix array, sorted as SuffixArray promises |
| SuffixSorting.Suffix.GetSuffix | SuffixSorting/suffixsorting.cpp:39-41 | getSuffix(i) is an offset of the text whose suffix comes after the suffixes of every lower rank and before those of every higher rank |
| Dvaput.InverseOf | Dvaput/dvaput.cpp:121-123 | the first loop of LCPArray gives the inverse permutation: inverseSuf[suff[i]] == i and suff[inverseSuf[x]] == x |
| Dvaput.Ranks | Dvaput/dvaput.cpp:121-123 | in a sorted suffix array a suffix that comes before another has the lower rank |
| Dvaput.NextBefore | Dvaput/dvaput.cpp:133 | when the suffix at x comes before the suffix at y, the suffix at x is not the last one and its successor is the suffix at y or lies between them |
| Dvaput.Successor | Dvaput/dvaput.cpp:133-139 | when the suffix at i shares a first character with its successor at j, the suffix at i + 1 has a successor, which is the one at j + 1 or lies between the suffixes at i + 1 and j + 1 |
| Dvaput.KasaiStep | Dvaput/dvaput.cpp:137-139 | Kasai's argument: a common prefix of h >= 1 with the successor leaves the suffix at i + 1 at least h - 1 in common with its own successor, so k may be carried less one |
| Dvaput.Extend | Dvaput/dvaput.cpp:134-135 | the inner while loop, started from any k at most the common prefix, stops exactly at the common prefix length of the suffixes at i and j |
| Dvaput.Skip | Dvaput/dvaput.cpp:128-131 | at the offset of the last rank nothing is written and k restarts at 0 |
| Dvaput.Record | Dvaput/dvaput.cpp:137 | writing the common prefix length at the rank of i keeps every written entry correct |
| Dvaput.Carry | Dvaput/dvaput.cpp:137-139 | the carried k, the length less one or 0, is a lower bound for the next offset |
| Dvaput.LCPArray | Dvaput/dvaput.cpp:117-141 | over a sorted suffix array, entry r of the result is the common prefix length of the suffixes at ranks r and r + 1, and the last entry is 0 |
| Dvaput.InverseAsWritten | Dvaput/dvaput.cpp:118-123 | the first loop over a string of a given size reads suff at every index below the size; it reports the first index past the end of suff, or -1 |
| Dvaput.ConstructorAsWritten | Dvaput/dvaput.cpp:33-36 | as written, LCPArray gets the copy with the sentinel appended, so its first loop reads suff[N], one past the end of the suffix array |
| Dvaput.MaxElement | Dvaput/dvaput.cpp:43 | std::max_element: the first position of a largest element |
| Dvaput.RepeatedLcp | Dvaput/dvaput.cpp:42-44 | two suffixes that begin with the same l characters have a common prefix of at least l |
| Dvaput.AdjacentBound | Dvaput/dvaput.cpp:117-141 | two suffixes share at most as long a prefix as the lower-ranked of them shares with its successor |
| Dvaput.LrsComplete | Dvaput/dvaput.cpp:42-44 | no substring that occurs at two offsets is longer than the largest LCP entry |
| Dvaput.AdjacentRepeat | Dvaput/dvaput.cpp:137 | every LCP entry but the last is the length of a substring repeated at the offsets of two adjacent ranks |
| Dvaput.LrsSound | Dvaput/dvaput.cpp:42-44 | for a text of two or more characters the largest LCP entry is the length of a repeated substring |
| Dvaput.LrsBounds | Dvaput/dvaput.cpp:42-44 | the largest LCP entry is the longest repeated substring length: an upper bound on every repeat, attained when the text has two or more characters, and 0 for one character |
| Dvaput.Suffix.constructor | Dvaput/dvaput.cpp:33-36 | the corrected constructor stores the suffix array of the text and the LCP array computed over the text itself, not the copy with the sentinel |
| Dvaput.Suffix.GetSuffix | Dvaput/dvaput.cpp:38-40 | getSuffix(i) is the offset whose suffix lies above every lower rank's and below every higher rank's |
| Dvaput.Suffix.GetLRS | Dvaput/dvaput.cpp:42-44 | getLRS is the length of the longest substring occurring at two distinct offsets: every repeat is at most it, and for two or more characters some repeat attains it |
| Lexicographic.Lcp | Dvaput/dvaput.cpp:134-135 | the common prefix length: both strings agree up to it, it is within both lengths, and they differ at it unless one ends there |
| Lexicographic.LcpSymmetric | Dvaput/dvaput.cpp:134 | the common prefix length does not depend on the order of the two strings |
| Lexicographic.Total | SuffixSorting/suffixsorting.cpp:55-62 | the order the suffixes are sorted in is total: two strings are equal or one comes first |
| Lexicographic.Asymmetric | SuffixSorting/suffixsorting.cpp:55-62 | the order is strict: no string comes before itself, and two strings are never each before the other |
| Lexicographic.Transitive | SuffixSorting/suffixsorting.cpp:55-62 | the order is transitive |
| Lexicographic.PrefixLess | SuffixSorting/suffixsorting.cpp:57-58 | a proper prefix comes before the longer string, which is why the appended lowest sentinel leaves the suffix order unchanged |
| Lexicographic.Concat | SuffixSorting/suffixsorting.cpp:95-97 | two concatenations with first parts of equal length compare by the first parts, then by the second parts when the first parts are equal |
| Lexicographic.Single | SuffixSorting/suffixsorting.cpp:71 | strings of one character compare as the characters |
| Lexicographic.Sandwich | Dvaput/dvaput.cpp:111-116 | a string between a and c shares at least as long a prefix with a as c does |
| Lexicographic.TailLcp | Dvaput/dvaput.cpp:111-139 | Kasai's bound: with a first character in common, dropping it lowers the common prefix by at most one, also against any string between the tails |

## Left out

- Machine integers: int32, int64, uint16 and uint32 are unbounded `int` here, so overflow and wrap-around are not modelled. Where the code relies on sums staying below INF, preconditions or guards state the bound instead. This covers the relaxations d[u] + w, the INF sentinels, the knapsack's uint16 capacity and indices, and the 64-bit products of ModularArithmetic and RationalArithmetic.
- C++ `%` truncates toward zero and Dafny's is Euclidean. NumberTheory writes the truncating remainder out where operands can be negative.
- Every `main` and all I/O are left out. That covers cin/cout parsing and formatting, the "Impossible", "Connected" and "Error" texts, and std::to_string. Only the decision logic each main applies is modelled: the Arbitrage verdict, the HidingPlaces scan, the ChoppingWood decoding loop, the HappyPrime verdict, the EvilStraw letter count, feasibility test and swap count (EvilStraw.CountLetters, EvilStraw.OneOddCounts and EvilStraw.Solve) and the UxuhulVoting answer (UxuhulVoting.Answer).
- std::sort is not modelled. Where the source sorts, the caller passes the sorted sequence, and a precondition states that it is a permutation of the input in the comparator's order. This applies to Kruskal's edges, the interval cover, the message intervals and the LIS input order.
- Floating-point programs are not part of this model:
  - EquationSolver and EquationSolverPlus, Gauss-Jordan elimination on doubles with 1e-8 thresholds;
  - PolyMul2, a complex FFT;
  - Walkway and IslandHopping, geometric double costs;
  - PerfectPowers and Ljutnja, std::pow on doubles.
- RationalArithmetic's `<`, `>`, `<=` and `>=` compare through double division, and are left out with its stream operators.
- Arbitrage's map from currency names to indices is I/O and is left out. So is the integer division that turns an exchange rate into a weight: `Build` takes the weights.
- Complexity bounds (O(N log N), O(VE^2), O(N^2) and the like) are not functional properties and are not stated.
- Buffers: the source reuses vectors that each pass overwrites in full (`count`, `ordern`, `clasn` in suffixArray, the `visited` and `parent` vectors of each bfs). Here every pass builds a fresh sequence, so aliasing between passes is not modelled.
- Matrices and vectors that the source updates through references are taken and returned as values. These are the residual matrix of MaxFlow and MinCut, the distance grid of HidingPlaces, the visited flags of Gold, the nodes of EulerianPath, the distance vector `d` of ShortestPath1, ShortestPath2 and ShortestPath3 (shortestpath3.cpp:37), and ShortestPath3's predecessor vector `p`, which it fills in place and returns. LongestIncSeq's `rear` array is a local sequence. These updates happen in place in the source; the model does not capture that.
- Pointers (`Ele*`, `Item*`, `Node*`) are indices: a position in the element array, a (row, column) cell of the knapsack table, or the coordinates of a Gold square. nullptr is -1, or a `Null` link.
- Suffix arrays: the text is restricted to characters strictly between the sentinel 0x1f and 0x80 (`SuffixSorting.Text`), so that the sentinel is lowest and a char indexes the 256-entry count table as the source's signed char does. Other characters are undefined behaviour in the source or break its sentinel assumption.
- Dvaput's suffixArray and cSort are the same code as SuffixSorting's and are not modelled twice: Dvaput uses `SuffixSorting.SuffixArray`. ChineseRemainder's exteuclid is ModularOP's, and the model uses `ModularArithmetic.ExtEuclid`. MinCut's bfs and augmentation loop are MaxFlow's. Arbitrage's APSP is AllPairsPath's. MinimumSpanningTree's union-find is UnionFind's.
- MinimumSpanningTree.Mst: does not prove that the taken edges have the least total weight among spanning trees (the cut property behind Kruskal's algorithm). It proves that they form a forest, that they span the graph when the result is kept, and that an emptied result means the input is disconnected.
- IntervalCover.Cover: does not prove that the chosen chain is the smallest possible cover, and states nothing for a primary interval with A > B. The endpoints are exact reals, so it does not model double rounding: `start - 1` is exact in the source only for integer endpoints below 2^53 in magnitude. A fractional endpoint such as 0.1 already rounds, and for larger integers such as 2^54 `start - 1` rounds back to start. With the primary interval [2^54, 2^54] and the one interval [2^54, 2^54], the source returns no cover while the model returns [0].
- AllPairsPath.RoundEnds: states that a finished phase leaves every entry at most the recurrence at k + 1, not equal to it. Within phase k the source updates the matrix in place, so an entry may read a row or column already lowered in the same phase. With a negative cycle through k, entries fall below the recurrence.
- EvilStraw.PalindromeSwaps: does not prove that the number of swaps is the least possible. The method requires that at most one letter has an odd count, as main only calls it after palindromeExists succeeds. Without that, the reverse pass would call swap with index -1.
- EulerianPath.EulerianPathChecked: proves soundness only (a nonempty result is an Eulerian path). It does not prove that an Eulerian path, when one exists, produces a nonempty result.
- EulerianPath.EulerianPathWritten: the same gap. It does not prove that a graph with an Eulerian path gets a nonempty result, only what a returned result is.
- HidingPlaces.Query: requires the rank digit of the square's name to be '1' to '8', as the judge's input guarantees. Other input indexes outside the board in the source. The model does not prove that the knight graph is connected: squares the search cannot reach are stated to keep their 0.
- ChoppingWood.Decode: requires every entry of v to lie in 1..N+1, the vertex numbers of the judge's input. The degree vector has N + 2 slots (choppingwood.cpp:16), so a 0 is in bounds in the source: it gets a degree, is never a leaf and is skipped by the final check. The model does not follow that case. Values above N + 1 index past the vector, which is undefined behaviour in the source.
- ShortestPath1.ShortestPath and ShortestPath2.ShortestPath: require nonnegative weights and targets inside [0, n), as Dijkstra and the judge's input do.
- ShortestPath3.ShortestPath: requires initial distances within [-INF, INF] and edge targets inside [0, n). Its own contract does not say that -INF comes only from negative cycles, since module ShortestPath3Cycles defines the cycles; ShortestPath3Cycles.MarkedFromCycle proves it about BellmanFord with any number of rounds, including the n - 1 this method computes. With n - 1 rounds a finite distance need not be least when a negative cycle leads to the vertex (ShortestPath3Cycles.MissedCycle), so that is proved only for the corrected version. For predecessors it proves the edge into each lowered vertex, and exactness when phase one settles. It does not prove that following p from a vertex leads back to the start along a least walk.
- ShortestPath3Cycles.ShortestPathCorrected: the -INF and least-distance statements assume that no walk of fewer than n edges weighs INF or more in magnitude (`NoOverflow`), so the 32-bit sums stay exact. The -INF statement also assumes the caller's initial vector, 0 at the start and INF elsewhere.
- MaxFlow.MaxFlow: requires nonnegative capacities. It does not prove that the flow is maximum by the max-flow min-cut theorem. It proves no residual path from s to t remains, that capacities are conserved pairwise, and, in MinCut, that every edge leaving the reachable side is saturated.
- MinCut.Cut: does not prove that the returned side is a minimum cut, that is, that no other s-t cut has smaller capacity. It proves that the side is exactly what s reaches in the final residual graph, holds s and not t, and that every edge leaving it is saturated (MinCut.Saturated).
- MessagesOuterSpace.Find: std::string::find is modelled by comparing character by character, and the first match through `FindFirst`.

## Findings

| source | as written | input that shows it | evidently intended | confidence | as-written member | corrected member |
|---|---|---|---|---|---|---|
| HappyPrime/happyprime.cpp:34-35 | isPrime returns false for m == 2 | m = 2, which is prime; the final verdict is unaffected since 2 is not happy (HappyPrime.TwoIsNotHappy) | isPrime(2) is true | not executed | HappyPrime.IsPrimeRejectsTwo | HappyPrime.IsPrimeCorrected |
| FenwickTree/Fenwick.cpp:42 | update loops while index <= BITree.size() | update(0, v) on a tree of two entries writes BITree[2], one past the end | loop while index < BITree.size() | not executed | FenwickTree.UpdateOverrun | FenwickTree.Fenwick.Update |
| Knapsack/knapsack.cpp:43 | the inner loop starts at column j = 1, so column 0 is never filled, even for items of weight 0 | items (value 5, weight 0) and (value 3, weight 1) with C = 1: the table gives 5, the best selection is worth 8 | column 0 filled like the others | not executed | Knapsack.ZeroWeightShortfall | Knapsack.BestOptimal |
| Arbitrage/arbitrage.cpp:77-84 | the verdict reads the diagonal of the input matrix, which APSP received as a copy and never updated, for i < R rates instead of i < C currencies | a two-currency cycle of weights -1 and -1 ends "Ok"; with C = 1 and R = 2 the loop reads adj[1][1], past the one-row matrix | read APSP's result, for i < C | not executed | Arbitrage.Discarded | Arbitrage.DetectComplete |
| ShortestPath3/shortestpath3.cpp:53 | phase two stops after n - 1 passes | edges (1, 0, 2), (0, 1, 0), (1, 1, -2) from vertex 0: vertex 0 stays finite though it is reachable from the negative loop at 1 | n passes, enough to carry the mark n - 1 edges from the cycle | not executed | ShortestPath3Cycles.MissedCycle | ShortestPath3Cycles.NegativeCycleMarked |
| EulerianPath/eulerianpath.cpp:103-105 | in the balanced case the walk is returned without checking that it used every edge | loops at vertex 0 and at vertex 1: all balanced, the walk from 0 misses the loop at 1 and is printed | check the walk's length in this case too | not executed | EulerianPath.UncheckedBalanced | EulerianPath.EulerianPathChecked |
| Dvaput/dvaput.cpp:33-36 | suffixArray appends the sentinel to the constructor's copy of the string, and that longer copy is passed to LCPArray | any text, e.g. "aa": the first loop of LCPArray reads suff[2], one past the end | run LCPArray over the text itself | not executed | Dvaput.ConstructorAsWritten | Dvaput.LCPArray |
