# Verified model of five COMP 140 projects

This project is a Dafny model of the algorithmic core of five course projects. It proves properties of that model.

- **QR codes** (`qrcodes.py`) computes Reed-Solomon correction bytes.
  - Polynomials over GF(2^8) are maps from powers to coefficients.
  - The operations are adding and subtracting a term, multiplying by a term or by a polynomial, equality, degree, and the remainder of long division.
  - The message polynomial puts the data bytes above `k` zero powers.
  - The generator polynomial is `(x - 2^0)...(x - 2^(k-1))`.
  - The correction bytes are the remainder of the message divided by the generator.
- **Spot it!** (`spotit.py`) builds the cards of the game from the projective plane over `Z_mod`.
  - Two points are equivalent when their cross product is 0 modulo `mod`.
  - A point is incident to a line when their dot product is 0 modulo `mod`.
  - `generate_all_points` keeps one representative per equivalence class.
  - `create_cards` lists, for each line, the indices of the points on it.
- **The Kevin Bacon game** (`kevin_bacon.py`) has three parts:
  - a FIFO queue class;
  - a breadth-first search that records distances and parents;
  - a histogram of the distances, and the path from the parents.
- **Map search** (`map_search.py`) has three parts:
  - a queue class and a stack class;
  - a search that is breadth- or depth-first, depending on the container class it is given, and stops early at the end node;
  - a recursive depth-first search that fills a parent map.
- **Stock prediction** (`stockprediction.py`) builds an order-`n` Markov chain.
  - It maps each state (the `n` preceding bins) to the relative frequency of each bin that follows it.

The modules follow the program's structure:

- `GF256`: the field GF(2^8) with polynomial `0x11D`, which the QR standard uses.
- `Polynomials`: the polynomial class, as an immutable value.
- `ReedSolomon`: the message and generator polynomials and the correction bytes.
- `SpotIt`: equivalence and incidence.
- `SpotItDeck`: the point list and the cards.
- `Graphs`: graphs as maps from a node to its neighbour list, and walks.
- `Tally`: totals of count maps and their normalisation.
- `KevinBacon`: the queue, the search, the histogram and the path.
- `MapSearch`: the two containers, the container-parameterised search and the recursive search.
- `Markov`: the chain.

Classes whose methods update their fields are Dafny classes with a `seq` field and `modifies` clauses. These are `KevinBacon.Queue`, `MapSearch.Queue` and `MapSearch.Stack`. The searches and the chain builder are methods with loops, proved against ghost specification predicates. The polynomial operations return new polynomials in the source, so they are functions, or methods where the source loops.

## Model

| member | source | states |
|---|---|---|
| GF256.Sub | qrcodes.py:219 | subtraction of coefficients is addition (XOR) in GF(2^8) |
| GF256.MulComm | qrcodes.py:240 | coefficient multiplication is commutative |
| GF256.MulAssoc | qrcodes.py:240 | coefficient multiplication is associative |
| GF256.DistL | qrcodes.py:240 | multiplication distributes over addition on the left |
| GF256.DistR | qrcodes.py:240 | multiplication distributes over addition on the right |
| GF256.MulOneLeft | qrcodes.py:240 | 1 is a left identity |
| GF256.MulOneRight | qrcodes.py:240 | 1 is a right identity |
| GF256.MulZero | qrcodes.py:240 | 0 annihilates on both sides |
| GF256.NoZeroDivisors | qrcodes.py:240 | a product is 0 exactly when a factor is 0 |
| GF256.MulTwo | qrcodes.py:371 | multiplying by 2 is the shift-and-reduce step by 0x11D |
| GF256.PowerTwo | qrcodes.py:371 | `power(2, k)` equals the k-th element of the exponent table |
| GF256.ExpAdd | qrcodes.py:371 | 2^i * 2^j == 2^(i+j) |
| GF256.ExpCycle | qrcodes.py:371 | 2^255 == 1: 2 generates a cycle of length 255 |
| GF256.ExpOnto | qrcodes.py:26 | every non-zero byte is a power of 2 below 255 |
| GF256.InverseExists | qrcodes.py:26 | every non-zero byte has a multiplicative inverse |
| GF256.MulInv | qrcodes.py:26 | the inverse multiplies a non-zero byte to 1 on both sides |
| GF256.DivCancel | qrcodes.py:26 | for b != 0, (a / b) * b == a |
| GF256.DivZero | qrcodes.py:26 | 0 divided by anything is 0 |
| Polynomials.DivideTerms | qrcodes.py:9-32 | a division by a zero coefficient is reported as an error; otherwise the result is the single term (c1/c2) x^(p1-p2), and c1/c2 times c2 gives back c1 |
| Polynomials.Degree | qrcodes.py:143-155 | the running maximum finds the largest power with a non-zero coefficient, or 0 for the zero polynomial |
| Polynomials.DegreeUnique | qrcodes.py:143-155 | the degree is unique |
| Polynomials.LeadingCoeffZero | qrcodes.py:158-173 | the coefficient at the degree is 0 exactly when the polynomial is zero |
| Polynomials.DegreeOfSame | qrcodes.py:143-155 | polynomials with the same coefficients have the same degree |
| Polynomials.Equals | qrcodes.py:87-120 | equality is true exactly when every power has the same coefficient, so explicit zero terms do not matter |
| Polynomials.EqualsIgnoresZeroTerms | qrcodes.py:87-120 | {1: 0, 2: 5} equals {2: 5} both ways round, and {2: 5} differs from {2: 4} |
| Polynomials.AddTerm | qrcodes.py:175-198 | the power is added to the keys, its coefficient gets c added, and every other coefficient is unchanged |
| Polynomials.SubtractTerm | qrcodes.py:200-221 | the same as AddTerm, with the coefficient subtracted |
| Polynomials.SubtractTermIsAddTerm | qrcodes.py:200-221 | subtracting a term gives exactly the polynomial that adding it gives |
| Polynomials.AddTermTwice | qrcodes.py:175-198 | adding the same term twice restores the coefficients |
| Polynomials.MultiplyByTerm | qrcodes.py:223-242 | each power is shifted up by e and each coefficient multiplied by c; there are no terms below e |
| Polynomials.MultiplyByTermDegree | qrcodes.py:223-242 | a non-zero term times a non-zero polynomial raises the degree by e |
| Polynomials.SumCoeff | qrcodes.py:244-260 | each coefficient of a sum is the sum of the coefficients |
| Polynomials.SumComm | qrcodes.py:244-260 | polynomial addition is commutative |
| Polynomials.SumCancel | qrcodes.py:262-278 | adding q twice restores the coefficients: subtraction undoes addition |
| Polynomials.AddPolynomial | qrcodes.py:244-260 | adding the other polynomial's terms one at a time gives the sum |
| Polynomials.SubtractPolynomial | qrcodes.py:262-278 | the result's coefficients are the differences of the coefficients |
| Polynomials.MultiplyByPolynomial | qrcodes.py:280-296 | each coefficient of the accumulated product is the convolution of the coefficients |
| Polynomials.ProductByOne | qrcodes.py:280-296 | multiplying by {0: 1} keeps every coefficient |
| Polynomials.ProductOfMonomial | qrcodes.py:280-296 | a single term times q shifts q's coefficients and scales them |
| Polynomials.ProductByLinear | qrcodes.py:280-296 | a product with x + a is a times the polynomial plus the polynomial shifted up by one |
| Polynomials.ProductOfSum | qrcodes.py:280-296 | multiplication distributes over a polynomial sum in its left factor |
| Polynomials.ProductOfSumRight | qrcodes.py:280-296 | multiplication distributes over a polynomial sum in its right factor |
| Polynomials.ProductComm | qrcodes.py:280-296 | p * q and q * p have the same coefficients |
| Polynomials.DivisionStep | qrcodes.py:319-322 | subtracting a quotient term times the denominator keeps num == quo * den + rem |
| Polynomials.RemainderStep | qrcodes.py:319-324 | one division step clears every power at or above the remainder's degree |
| Polynomials.Remainder | qrcodes.py:298-328 | the result is a division-by-zero error exactly when the denominator is zero; otherwise the remainder is zero or of lower degree than the denominator, and num == quo * den + rem for some quotient; a numerator of lower degree is returned as it is; a polynomial divided by itself leaves a zero remainder |
| Polynomials.LowProductZero | qrcodes.py:280-296 | a product with a non-zero factor den that vanishes from Deg(den) up has a zero other factor |
| Polynomials.RemainderUnique | qrcodes.py:298-328 | two divisions of the same numerator by the same denominator with remainders of lower degree (or zero) have remainders with the same coefficients |
| Polynomials.RemainderOfSame | qrcodes.py:298-328 | dividing by a polynomial with the numerator's coefficients leaves a zero remainder |
| ReedSolomon.CreateMessage | qrcodes.py:330-351 | data[i] becomes the coefficient of x^(k+n-i-1); the powers are exactly k to k+n-1; everything below k is 0 |
| ReedSolomon.MessageDegree | qrcodes.py:330-351 | a message with a non-zero first byte has degree k+n-1 |
| ReedSolomon.MessageExample | qrcodes.py:330-351 | the data [5, 9] with two correction bytes is 5 x^3 + 9 x^2 |
| ReedSolomon.GenMonic | qrcodes.py:353-373 | the generator of degree k has x^k coefficient 1 and nothing above it |
| ReedSolomon.GeneratorCoeff | qrcodes.py:353-373 | the generator value has degree k and the generator's coefficients |
| ReedSolomon.CreateGenerator | qrcodes.py:353-373 | the loop builds the product of (x + 2^i) for i < k, which is monic of degree k; for k = 0 it is {0: 1} |
| ReedSolomon.GeneratorTwo | qrcodes.py:353-373 | with two correction bytes the generator is x^2 + 3x + 2, i.e. {2: 1, 1: 3, 0: 2} |
| ReedSolomon.ReedSolomonCorrection | qrcodes.py:375-392 | the correction polynomial has degree below k (or is zero), and the message equals some multiple of the generator plus it |
| SpotIt.EquivalentReflexive | spotit.py:12-33 | every point is equivalent to itself |
| SpotIt.EquivalentSymmetric | spotit.py:12-33 | equivalence is symmetric |
| SpotIt.EquivalentScale | spotit.py:12-33 | a point is equivalent to every multiple of it |
| SpotIt.IncidentDual | spotit.py:39-57 | a point lies on a line exactly when the line, read as a point, lies on the point, read as a line |
| SpotIt.IncidentScale | spotit.py:39-57 | a multiple of a point on a line is on the line |
| SpotItDeck.AllTriples | spotit.py:74-80 | the triple loop lists exactly the triples with entries in 0..mod-1, in lexicographic order |
| SpotItDeck.IsNew | spotit.py:83-86 | a point is new exactly when no listed point is equivalent to it |
| SpotItDeck.GenerateAllPoints | spotit.py:62-89 | the points are non-zero, in range, sorted and pairwise inequivalent, and every non-zero triple in range is equivalent to one of them; mod <= 0 gives no points |
| SpotItDeck.CreateCards | spotit.py:93-116 | there is one card per line, each in increasing order, and j is on card i exactly when points[j] is incident to lines[i] |
| KevinBacon.RemoveFirst | kevin_bacon.py:63-65 | removing one occurrence of an item takes one copy of it out of the multiset and shortens the list by one |
| KevinBacon.Queue.constructor | kevin_bacon.py:16-20 | a new queue is empty |
| KevinBacon.Queue.Len | kevin_bacon.py:22-26 | the length is the number of items |
| KevinBacon.Queue.Push | kevin_bacon.py:38-45 | the item is appended |
| KevinBacon.Queue.Pop | kevin_bacon.py:47-57 | the oldest item is removed and returned |
| KevinBacon.Queue.Clear | kevin_bacon.py:59-65 | removing every item of a copy leaves the queue empty |
| KevinBacon.QueueOrder | kevin_bacon.py:11-65 | pushing a sequence and then popping until empty gives back the same sequence |
| KevinBacon.Bfs | kevin_bacon.py:68-98 | distances and parents form a breadth-first tree from the start; each reached node is pushed once |
| KevinBacon.BfsShortest | kevin_bacon.py:68-98 | a node has a finite distance exactly when a walk reaches it; the distance is the length of a shortest walk |
| KevinBacon.CountDistances | kevin_bacon.py:115-123 | every distance is counted once per node that has it, and the counts total the number of nodes |
| KevinBacon.DistanceHistogram | kevin_bacon.py:100-123 | the histogram counts each distance of the search from node ("infinite" included), and it totals the number of nodes |
| KevinBacon.CountValues | kevin_bacon.py:121-122 | counting every value of one dict raises the histogram's total by the dict's size |
| KevinBacon.HistogramAsWritten | kevin_bacon.py:112-123 | the loop counts all values of exactly those dicts that hold the value 0 |
| KevinBacon.DistanceHistogramAsWritten | kevin_bacon.py:100-123 | the source's histogram over the search's two dicts totals the sizes of the dicts that hold 0 |
| KevinBacon.HistogramOvercounts | kevin_bacon.py:114-122 | on the graph 0 - 1 searched from 0 both dicts hold 0, so the source counts 4 values for 2 nodes |
| KevinBacon.TwoNodeTree | kevin_bacon.py:68-98 | the search from 0 on the graph 0 - 1 gives 0 distance 0 and makes 0 the parent of 1 |
| KevinBacon.FindPath | kevin_bacon.py:125-150 | the path is empty exactly when the parent chain from the end does not reach the start; otherwise it starts at the start and ends with (end, {}), each step carries the attributes of the edge to the next node, and its length matches the distances |
| Tally.TotalBump | kevin_bacon.py:122 | adding one to a count raises the total by one |
| Tally.ScaledTotal | stockprediction.py:46-49 | dividing every count by t divides the total by t |
| MapSearch.Queue.constructor | map_search.py:11-15 | a new queue is empty |
| MapSearch.Queue.Len | map_search.py:17-22 | the length is the number of items |
| MapSearch.Queue.Push | map_search.py:31-38 | the item is appended |
| MapSearch.Queue.Pop | map_search.py:40-48 | the oldest item is removed and returned |
| MapSearch.Queue.Clear | map_search.py:50-54 | the queue becomes empty |
| MapSearch.Stack.constructor | map_search.py:60-64 | a new stack is empty |
| MapSearch.Stack.Len | map_search.py:66-71 | the length is the number of items |
| MapSearch.Stack.Push | map_search.py:80-87 | the item is appended |
| MapSearch.Stack.Pop | map_search.py:89-97 | the newest item is removed and returned |
| MapSearch.Stack.Clear | map_search.py:99-103 | the stack becomes empty |
| MapSearch.QueueOrder | map_search.py:7-54 | pushing a sequence onto a queue and popping until empty gives back the same sequence |
| MapSearch.StackOrder | map_search.py:56-103 | pushing a sequence onto a stack and popping until empty gives the sequence reversed |
| MapSearch.RacPush | map_search.py:129 | pushing onto the chosen container appends to its items |
| MapSearch.RacPop | map_search.py:131 | popping removes one item: the oldest from a queue and the newest from a stack |
| MapSearch.RootedVisit | map_search.py:133-137 | giving a neighbour of a visited node that node as parent keeps every node with a parent reachable from the start |
| MapSearch.BfsDfs | map_search.py:106-139 | every parent entry is an edge of the graph, and every node with a parent is reachable from the start; found holds exactly when the end node got a parent; otherwise every reached node was expanded and there was exactly one pop per node with a parent plus the start; stopping early pops fewer |
| MapSearch.FoundIffReachable | map_search.py:106-139 | after the search, an end node other than the start has a parent exactly when a walk leads from the start to it |
| MapSearch.NotFoundUnreachable | map_search.py:106-139 | if the end node is left without a parent, no walk leads from the start to it |
| MapSearch.AllKnown | map_search.py:161-164 | the check is true exactly when every neighbour is already a key of the parent map |
| MapSearch.Dfs | map_search.py:141-175 | only new keys are added, each with a neighbour as parent and each reachable from the start; with every neighbour known the map is unchanged; otherwise the end node was added (and then reachable) or every node reachable from the start is a key |
| MapSearch.ExploredWalk | map_search.py:141-175 | after a full search, every walk from the start ends at a key of the parent map |
| MapSearch.DfsReaches | map_search.py:141-175 | called with {start: None} and not finding the end, the search reaches every node reachable from the start |
| MapSearch.DfsFindsIffReachable | map_search.py:141-175 | called with {start: None}, the search adds an end node other than the start exactly when a walk leads from the start to it |
| Markov.StateKey | stockprediction.py:31-33 | the key is the window of order bins before idx |
| Markov.Row | stockprediction.py:38 | a missing state reads as an empty row, as a defaultdict does |
| Markov.Count | stockprediction.py:38-42 | the count of the next bin in the state's row rises by one, and the other rows are unchanged |
| Markov.CountTransitions | stockprediction.py:25-42 | each state's row counts, for each next bin, how often the bin follows the state; every count is at least 1; the counts total the number of transitions |
| Markov.FollowsAtMostSeen | stockprediction.py:37-42 | a bin cannot follow a state more often than the state occurs |
| Markov.RowSum | stockprediction.py:47 | the row sum is the total of the counts |
| Markov.NormalizeRow | stockprediction.py:48-49 | each count is divided by the total |
| Markov.RowSumsToOne | stockprediction.py:46-49 | a normalised row with a positive total sums to 1 |
| Markov.Normalize | stockprediction.py:46-49 | every row is divided by its own total and sums to 1 |
| Markov.MarkovChain | stockprediction.py:14-50 | the states are exactly the windows followed by a bin; a bin is in a state's row exactly when it follows the state; its value is (times it follows) / (times the state occurs); every row sums to 1; with no more bins than the order, the chain is empty |

## Left out

- The `z256` module is not part of this model. `GF256` supplies the field: addition is XOR, multiplication is shift-and-add reduced by `0x11D`, and division multiplies by the inverse. This is the field the QR standard (ISO/IEC 18004) uses.
- The `Polynomial` class is modelled as an immutable value. The source's methods build new polynomials (`get_terms` returns a copy), so no update in place is lost.
- `Polynomial.__init__` and `get_terms` are the datatype constructor and its `terms` field. `get_coefficient` is `Polynomials.Coeff`.
- `Polynomial.__ne__` is the negation of `Polynomials.Equals` and has no member of its own.
- Powers are `nat`. The source's powers are any Python `int` (`qrcodes.py:18-20`), but for a non-negative number of correction bytes every power the encoder builds is non-negative, and `divide_terms` is called only with `power1 >= power2`.
- `Polynomials.Equals` does not model the `isinstance` check at `qrcodes.py:98-99`. Every argument is a polynomial.
- `__str__` of the polynomial, the queues and the stack is not modelled, because it is only printing.
- `qrcodes.start`, the GUI, `spotit.run`, the module-level `print` calls, `play_kevin_bacon_game`, `run`, `maps.start`, `lowest_f`, `astar`, `predict`, `mse` and `run_experiment` are not modelled. They are I/O, drawing or randomised experiments outside the modelled core.
- `sports_analytics.py` and `circles.py` are not part of this model.
- Dicts iterate in insertion order and sets in no fixed order. The model takes `graph.nodes()` and the key sets in an arbitrary order, and takes `get_neighbors` as a fixed sequence per node.
- The graph library is not part of this model. A graph is a map from each node to its neighbour sequence. `graph.get_attrs` in `find_path` is an `attrs` function parameter.
- Python's `%` floors, and a zero modulus raises. `SpotIt.Equivalent` and `SpotIt.Incident` only test whether the remainder is 0, which does not depend on the sign convention. They require `mod != 0` in place of the exception.
- SpotItDeck: the projective-plane property that any two cards share exactly one point is not proved. It needs the plane's field arithmetic for a prime `mod`, which the source does not check either.
- `KevinBacon.Bfs`: `float("inf")` is `None` in an `Option<nat>` distance.
- `KevinBacon.DistanceHistogram` counts the distance dict only, as the source intends. The source's own loop is `KevinBacon.DistanceHistogramAsWritten`; see "## Findings".
- `KevinBacon.FindPath` requires that the parent links come from a search with distances (`Links` over a ghost `dist`), so every step leads one level closer to the start. A cyclic parent map is excluded. On such a map the source's loop at `kevin_bacon.py:142-148` may never end. The only caller in the source passes the parents from `bfs` (`kevin_bacon.py:164-171`), and those always meet the requirement.
- `MapSearch.BfsDfs`: `rac_class` is a `ContainerClass` value, because Dafny has no class values. Both containers are allocated, and the class picks the one in use.
- `MapSearch.BfsDfs`: the start node's parent entry is `None` and can be overwritten when a cycle leads back to the start. The model keeps this behaviour and does not claim the start keeps `None`.
- `MapSearch.Dfs`: the parent dict that the source updates in place is passed in and returned as a map. The early `return` at `map_search.py:173-174` ends only the current call, as in the source. The callers' loops continue.
- `Markov.MarkovChain`: the source reuses one `defaultdict` and overwrites the counts with probabilities in place. The model builds a count map and then a separate chain map.
- `Markov.MarkovChain` uses exact reals in place of floating-point division.
- `Markov.MarkovChain`: `order` is a `nat`. A negative order, which Python would answer with negative indexing, is not modelled.

## Findings

| source | as written | input that shows it | evidently intended | confidence | as-written member | corrected member |
|---|---|---|---|---|---|---|
| kevin_bacon.py:114-122 | every dict of the search result whose values contain 0 has all its values counted, so the parent dict is counted too whenever node 0 is some node's parent | the graph {0: [1], 1: [0]} searched from 0: the distance dict {0: 0, 1: 1} and the parent dict {0: None, 1: 0} both hold 0, so the total is 4 for 2 nodes | only the distance dict is counted, and the counts total the number of nodes | not executed | KevinBacon.DistanceHistogramAsWritten, KevinBacon.HistogramOvercounts | KevinBacon.DistanceHistogram |
