# Verified models of Dr. Elephant and its bundled front-end code

Dr. Elephant watches a Hadoop cluster, analyses every finished application and shows the results on web pages. This
project models the parts of it whose correctness is not obvious from reading one function, and proves what they are
for.

`dafny verify dfyconfig.toml` checks everything.

## What is modelled

**The event queue of the Voronoi layout** (`RedBlackSpec`, `RedBlackTree`, `CircleQueue`). d3's tree has no keys: a
node is put behind another one, links to its parent and children, and to its neighbours in a doubly linked list.
`RedBlackSpec` gives the tree as a value with a zipper for the place of the loop, the two repairs as functions, and
proves that they keep the in-order sequence and restore the red-black rules. `RedBlackTree` is the linked structure
with its fields U, C, L, R, P and N, updated in place; every method is proved to do to the nodes what the function
does to the value. `CircleQueue` adds the sorted descent, the cached first circle and the pool.

**The analysis daemon** (`AnalysisProtocol`, `AnalysisLiveness`, `AnalysisFairness`, `JobGenerator`,
`ElephantRunner`). One fetcher thread
and any number of executors, which may be none, share a work queue, a retry queue and the database. A step is one
action another thread can see, a run is any sequence of enabled steps, and both queries, every analysis and every save
may throw. An application is *due* when a fetch whose window holds its finish time was completed, it is of a supported
type, it ended as SUCCEEDED or FAILED, and, for the first window, it was not in the database at start-up. The main
results speak about every state of every run. `AnalysisLiveness` says when jobs get out: a continuation by the
daemon's own steps, without the clock or new reports, in which a function of the attempt decides which attempts fail.
`AnalysisFairness` says that they do get out, in infinite runs in which every thread is scheduled again and again, the
fetch loop goes on, and a query that failed is followed by a fetch that is answered.
The resource manager is a growing map of finished applications and the database a set of ids. Assumed are a clock that
never goes back, a start more than a minute after the epoch, applications that are reported at most a minute after
they finish, failures by exceptions only, and a save that is one step. `JobGenerator` and `ElephantRunner` are the
objects themselves: the window and the retry queue, the counter of a job, and one round of each thread's loop.

**d3's geometry** (`QuadtreeSpec`, `Quadtree`, `Hull`, `TreemapSpec`, `TreemapLaws`, `Treemap`). Numbers are reals.
The square root in the nearest-point search is a parameter that may err upwards only. A tiling is stated by counting:
every point of the plane lies in as many of the half-open tiles as in the whole, so tiles neither overlap nor leave a
gap. The rounding function of the treemap is a parameter and need only be non-negative for non-negative arguments.
Infinity and NaN are numbers of their own in the treemap, where a node of value zero makes the program divide by zero.

**d3's delimiter-separated values** (`DsvSpec`, `Dsv`), the tokenizer with its cursor and its pending line end, and
the formatter, for the comma and the tab.

**d3's keyed data join** (`DataJoin`), with the string map whose keys are escaped, and **the linear scale**
(`LinearScale`), whose closures, built from domain and range, are followed by a binary search.

**The date picker's calendar** (`CalendarSpec`, `Calendar`, `DateFormatSpec`, `RelativeDates`, `DateFormat`). A Date
is a day number in the proleptic Gregorian calendar; its setters run over into the next months as section 15.9.1.12
(MakeDay) of ECMA-262, edition 5.1, says. The month arithmetic, the setters of the parser and their walk-back loops
work on such an object. The names of months and weekdays, and the lookup of a month by its name, are parameters.

**History and search pages** (`HistorySpec`, `History`, `Paging`). Query results are sequences in the order of the
query.

## Where the code does not meet the obvious promise

- `AnalysisLiveness.DrainsExactly`: jobs that wait for a retry stay for ever once the fetch loop has ended, as it does
  when several resource managers are configured and looking for the active one throws what is not caught there, such
  as a null reference where `status.equals` meets an answer without a `haState`; with no executor, which the
  configuration allows, nothing gets out at all. The condition is exact; `AnalysisLiveness.StuckRun` and
  `AnalysisLiveness.NoExecutorRun` are such runs.
- `DsvSpec.RoundTrip`: a carriage return alone does not make the formatter quote a field, but it ends a line for the
  parser (`DsvSpec.CarriageReturnLost`); an empty row, and an empty last field at the very end of the text, are not
  read back either. The condition in the theorem is exact.
- `DateFormatSpec.RoundTrip`: the sign of a negative year is punctuation to the parser, so these dates, and only
  these, come back in the wrong year (`DateFormatSpec.NegativeYearMisread`).
- `RelativeDates.RelativeDayOf`: a relative date that leads into the years 0 to 99 comes out in the 20th century,
  because `Date.UTC` reads these years so (`RelativeDates.FirstCenturyMisread`).
- `Paging.RightBars`: with a page bar of one or two pages too few rows are fetched, unless a page has a single row
  (`Paging.ShortBar`). The program uses five pages.
- `limitHistoryResults` promises complete executions only as far as it can. What it keeps is complete exactly if no
  job behind the newest 5000 belongs to an execution that is kept (`HistorySpec.KeptCompleteExactly`);
  `HistorySpec.OverlapLosesJobs` is a list where one does. Giving up three executions is for flows that overlap:
  `HistorySpec.SparedGroups`.
- `TreemapSpec.LayoutFails`: a node of value zero divides by zero in `squarify`. If it has an area and a child of
  positive value, as with children of 1 and -1 (`TreemapSpec.OneAndMinusOne`), that child's area is infinite and the
  score of its row is NaN; the program then closes the row before it, in the end an empty one, and throws a TypeError
  where it sets `z` of a last node that is not there. The condition is exact. In the other modes the positive child
  takes all the space that is left, and the children tile the node.

- `TreemapLaws.LayoutSlices`: a square node is sliced even in the mode that dices, as the code tells the directions
  apart by comparing the length of the side with the width.

## Model

| member | source | states |
|---|---|---|
| `RedBlackHeap.RedBlackTree.Insert` | public/assets/d3/d3.js:5248-5316 | on the linked nodes: the new node stands directly behind `after` (first when `after` is null), every other node keeps its place, and the tree stays valid: parent links mutual, thread equal to in-order, root black, no red node under a red one, equal black heights |
| `RedBlackHeap.RedBlackTree.Remove` | public/assets/d3/d3.js:5317-5405 | exactly the given node leaves the in-order sequence and the thread, its own thread links are cleared, and the tree stays valid, down to the empty tree |
| `RedBlackHeap.RedBlackTree.RotateLeft` | public/assets/d3/d3.js:5407-5419 | the rotation of the linked nodes is the rotation of the tree they form, wherever in the tree it happens |
| `RedBlackHeap.RedBlackTree.RotateRight` | public/assets/d3/d3.js:5420-5432 | the same for the mirror image |
| `RedBlackHeap.RedBlackTree.First` | public/assets/d3/d3.js:5433-5436 | the leftmost node below a node, found together with its place in the tree |
| `RedBlackHeap.RedBlackTree.Climb` | public/assets/d3/d3.js:5276-5315 | the loop that repairs two reds in a row turns the linked tree into the repaired one of the specification |
| `RedBlackHeap.RedBlackTree.Rebalance` | public/assets/d3/d3.js:5350-5404 | the loop that repairs a missing black node, in all mirrored sibling cases, turns the linked tree into the repaired one of the specification |
| `RedBlackHeap.RedBlackTree.SpliceOut` | public/assets/d3/d3.js:5322-5348 | cutting a node out, or putting its successor in its place, leaves the linked tree with at most one black node missing at the gap returned |
| `RedBlackSpec.FixInsertOrder` | public/assets/d3/d3.js:5276-5315 | repairing after an insertion never changes the in-order sequence |
| `RedBlackSpec.FixInsertRedBlack` | public/assets/d3/d3.js:5276-5315 | after any insertion the repaired tree is a red-black tree |
| `RedBlackSpec.FixRemoveOrder` | public/assets/d3/d3.js:5350-5404 | repairing after a removal never changes the in-order sequence |
| `RedBlackSpec.FixRemoveRedBlack` | public/assets/d3/d3.js:5350-5404 | a tree with one black node missing on one path is a red-black tree after the repair |
| `RedBlackSpec.RemoveRootOrder` | public/assets/d3/d3.js:5317-5405 | removal takes exactly one node out of the in-order sequence, whichever of its children exist |
| `RedBlackSpec.RemoveRootRedBlack` | public/assets/d3/d3.js:5317-5405 | removing any node of a red-black tree gives a red-black tree |
| `RedBlackSpec.RotateLeftOrder` | public/assets/d3/d3.js:5407-5419 | a left rotation keeps the in-order sequence, and a right rotation undoes it |
| `RedBlackSpec.RotateRightOrder` | public/assets/d3/d3.js:5420-5432 | a right rotation keeps the in-order sequence, and a left rotation undoes it |
| `RedBlackSpec.LogarithmicHeight` | public/assets/d3/d3.js:5241-5316 | 2 to the height is at most the square of one more than the number of nodes: the height is at most twice its logarithm |
| `CircleQueue.Circles.Predecessor` | public/assets/d3/d3.js:5082-5097 | the descent finds the last circle strictly before the new one in (y, x), or null if there is none |
| `CircleQueue.Circles.Attach` | public/assets/d3/d3.js:5074-5100 | a queue sorted by (y, x) gets the new circle at its place, stays sorted, and keeps its least circle cached |
| `CircleQueue.Circles.Detach` | public/assets/d3/d3.js:5101-5110 | exactly the given circle leaves the queue for the pool; the queue stays sorted and the cached circle is again the least, or null when the queue is empty |
| `CircleQueue.SortedAround` | public/assets/d3/d3.js:5084-5098 | a circle put at its split keeps the circles sorted |
| `CircleQueue.FirstIsLeast` | public/assets/d3/d3.js:5099-5104 | the first of sorted circles has the least y, and among those the least x |
| `AnalysisProtocol.ExactlyOneJob` | app/com/linkedin/drelephant/ElephantRunner.java:117-194 | in every interleaving of fetches, failing fetches and executor steps, each application that is due has exactly one job in exactly one place, and every other application has none |
| `AnalysisProtocol.AnalysedOnce` | app/com/linkedin/drelephant/ElephantRunner.java:163-194 | an application whose job was saved or dropped is in no queue, in no hands, and is not fetched again |
| `AnalysisProtocol.RunInvariant` | app/com/linkedin/drelephant/analysis/AnalyticJobGeneratorHadoop2.java:122-156 | what every step keeps: times in order, one job for each due application, found jobs matching the window read so far, and a database that only grows |
| `AnalysisProtocol.StepPlaces` | app/com/linkedin/drelephant/ElephantRunner.java:117-194 | no step loses or doubles a job: the jobs of an application change only when a fetch is completed, by one for each that became due |
| `AnalysisProtocol.CommitDue` | app/com/linkedin/drelephant/analysis/AnalyticJobGeneratorHadoop2.java:126-155 | completing a fetch makes due exactly the applications of its window, on the first fetch without those already in the database |
| `AnalysisProtocol.ReadAppsCount` | app/com/linkedin/drelephant/analysis/AnalyticJobGeneratorHadoop2.java:198-231 | reading an answer makes one job for each supported application, except those in the database while no fetch has been completed |
| `AnalysisProtocol.ReadAppsOrder` | app/com/linkedin/drelephant/analysis/AnalyticJobGeneratorHadoop2.java:198-231 | the jobs come in the order of the answer |
| `AnalysisProtocol.AtMostFourAttempts` | app/com/linkedin/drelephant/analysis/AnalyticJob.java:39-41 | in every run a job is saved at its first, second, third or fourth attempt, a dropped job failed exactly four times, and a job under way at most three times |
| `AnalysisLiveness.FourthAttempt` | app/com/linkedin/drelephant/ElephantRunner.java:169-194 | a run in which a job is saved at its fourth attempt, after three failures |
| `AnalysisProtocol.StepRemaining` | app/com/linkedin/drelephant/analysis/AnalyticJob.java:309-311 | every finished analysis uses up attempts left, a failed one exactly one; only a completed fetch adds any, four for each job found |
| `AnalysisProtocol.AnalysesBounded` | app/com/linkedin/drelephant/ElephantRunner.java:169-194 | however the threads interleave, a run finishes at most four analyses for each job its fetches found, less the attempts that jobs under way have left |
| `AnalysisLiveness.DrainsExactly` | app/com/linkedin/drelephant/ElephantRunner.java:117-194 | from a state of any run the daemon can finish all jobs under way, with the clock standing, if and only if there is none, or there is an executor and either the fetch loop goes on or nothing waits for a retry |
| `AnalysisLiveness.EachGetsOut` | app/com/linkedin/drelephant/ElephantRunner.java:117-194 | while the fetch loop goes on and there is an executor, whichever attempts of whichever jobs will fail, the daemon can come to where every application that is due was saved or dropped, once |
| `AnalysisLiveness.StuckForEver` | app/com/linkedin/drelephant/ElephantRunner.java:117-194 | without an executor, or with retries behind an ended fetch loop, no continuation at all gets every job out |
| `AnalysisLiveness.StuckRun` | app/com/linkedin/drelephant/ElephantRunner.java:117-147 | a run that ends so: one application, one failed attempt, and the fetch loop ends before it takes up the retry |
| `AnalysisLiveness.NoExecutorRun` | app/com/linkedin/drelephant/ElephantRunner.java:107-116 | another one: an application is found and stays in the work queue, as there is no executor |
| `AnalysisFairness.FairRunsFinish` | app/com/linkedin/drelephant/ElephantRunner.java:117-194 | with an executor, in every infinite run in which every thread acts again and again and not all queries fail for ever, each application that is due at any time is saved or dropped, once, at a later time, whatever else is found meanwhile |
| `AnalysisFairness.FairRunsDrain` | app/com/linkedin/drelephant/ElephantRunner.java:117-194 | in such a run in which no fetch finds more jobs from some time on, a time comes when no job is under way |
| `AnalysisFairness.FromDrained` | app/com/linkedin/drelephant/analysis/AnalyticJobGeneratorHadoop2.java:150-153 | the loop that empties the retry queue ends, although executors may add to it meanwhile |
| `AnalysisProtocol.DrainAll` | app/com/linkedin/drelephant/analysis/AnalyticJobGeneratorHadoop2.java:150-155 | a fetch left alone takes over the whole retry queue in its order |
| `AnalysisProtocol.UndisturbedFetch` | app/com/linkedin/drelephant/analysis/AnalyticJobGeneratorHadoop2.java:122-156 | an undisturbed fetch is one step from idle to handing over: the succeeded, the failed and the retried jobs, in this order |
| `JobGenerator.AnalyticJobGenerator.FetchAnalyticJobs` | app/com/linkedin/drelephant/analysis/AnalyticJobGeneratorHadoop2.java:122-156 | a complete fetch returns succeeded, failed and queued jobs, empties the retry queue and moves the window on; a throwing one leaves the window and the retry queue as they were |
| `JobGenerator.AnalyticJobGenerator.ReadApps` | app/com/linkedin/drelephant/analysis/AnalyticJobGeneratorHadoop2.java:198-231 | the loop over an answer makes the jobs the protocol reads from it, all of them new |
| `JobGenerator.AnalyticJob.Retry` | app/com/linkedin/drelephant/analysis/AnalyticJob.java:309-311 | the counter rises by one and the answer is yes for the first three failures, as in the protocol's failing step |
| `ElephantRunner.Runner.FetchRound` | app/com/linkedin/drelephant/ElephantRunner.java:117-147 | a fetch puts succeeded, failed and retried jobs behind the work queue, in this order; a throwing one loses neither work nor retries |
| `ElephantRunner.Runner.ExecuteRound` | app/com/linkedin/drelephant/ElephantRunner.java:163-194 | the head of the work queue is saved, or after a failure queued again with its counter raised by one, or dropped exactly if it had failed three times before |
| `QuadtreeSpec.InsertPlaced` | public/assets/d3/d3.js:5580-5601 | insertion into a square extent keeps every point in the box of its quadrant and adds exactly the new point to those stored |
| `QuadtreeSpec.TwoItems` | public/assets/d3/d3.js:5582-5592 | two points share a node exactly if their distances along the axes come to less than a hundredth |
| `QuadtreeSpec.Quadrants` | public/assets/d3/d3.js:5602-5609 | the four children hold what is left and above the middle, right and above, left and below, right and below |
| `QuadtreeSpec.HalvingShrinks` | public/assets/d3/d3.js:5587-5607 | two points that do not coincide are parted by finitely many halvings: the measure of the box sinks, so insertion ends |
| `QuadtreeSpec.PushedIsInsertKid` | public/assets/d3/d3.js:5588-5592 | moving the point of a leaf down is an insertion below the emptied leaf |
| `QuadtreeSpec.InWindow` | public/assets/d3/d3.js:5677-5684 | a point nearer than the nearest so far lies in the search window |
| `Quadtree.QuadNode.Insert` | public/assets/d3/d3.js:5580-5601 | the linked nodes become the tree of the specification |
| `Quadtree.QuadNode.InsertChild` | public/assets/d3/d3.js:5602-5609 | the same below a node |
| `Quadtree.Search.Visit` | public/assets/d3/d3.js:5675-5705 | after a visit every point below the node is no nearer than the one found, also those in boxes that were skipped; a datum that counts as false is no candidate |
| `Quadtree.Find` | public/assets/d3/d3.js:5673-5708 | the point found is stored, and no stored point is nearer; none is found exactly if there is none; points whose datum counts as false are passed over |
| `Quadtree.Extent` | public/assets/d3/d3.js:5553-5579 | the extent is a square that contains all points and starts at their least coordinates |
| `Quadtree.Build` | public/assets/d3/d3.js:5620-5624 | the tree holds exactly the given points, each as often as given |
| `Quadtree.NearestOf` | public/assets/d3/d3.js:5550-5709 | building over any points and searching from anywhere agrees with a scan of all of them, except those whose datum counts as false |
| `Hull.HullUpper` | public/assets/d3/d3.js:4821-4828 | on sorted points the chain runs from the first to the last, turns strictly the same way at every corner, and has no point outside any of its edges |
| `Hull.LeftOfAll` | public/assets/d3/d3.js:4824-4825 | a point to the inside of the last edge is to the inside of all edges of the chain |
| `Hull.Dropped` | public/assets/d3/d3.js:4824-4825 | dropping a corner that does not turn leaves no point outside the edge that replaces it |
| `Hull.Push` | public/assets/d3/d3.js:4823-4826 | adding the next point to the chain keeps the chain strictly turning and supporting |
| `Hull.FlippedSorted` | public/assets/d3/d3.js:4806 | the copy with y negated is sorted as well, with ties the other way around |
| `Hull.ConvexHull` | public/assets/d3/d3.js:4799-4813 | the polygon closed from the two chains has no point outside any of its edges, and unless all points are on one line it turns strictly the same way at every corner and no two corners are equal points; it takes no position twice; fewer than three points give none |
| `Hull.NotOnBoth` | public/assets/d3/d3.js:4799-4813 | an inner corner of the upper chain is not one of the lower chain, also where points occur several times |
| `Hull.PolygonCorners` | public/assets/d3/d3.js:4807-4812 | also at the two points where the chains meet the polygon turns strictly, unless all points are on one line |
| `TreemapSpec.PositionTiles` | public/assets/d3/d3.js:7285-7314 | a row and the space left over tile the space before, with non-negative sides, under any non-negative rounding |
| `TreemapSpec.FillTiles` | public/assets/d3/d3.js:7234-7253 | the rows that the fill chooses tile the whole rectangle whenever it comes to an end, for any areas, finite or not, any mode and any non-negative rounding |
| `TreemapSpec.FillFails` | public/assets/d3/d3.js:7234-7253 | the loop over the rows throws exactly in the squarified mode and if an area is infinite |
| `TreemapSpec.LayoutFails` | public/assets/d3/d3.js:7230-7253 | laying out the children of a node throws if and only if the mode is squarify, the node's value is zero, its area is not, and a child has a positive value |
| `TreemapSpec.LayoutTiles` | public/assets/d3/d3.js:7230-7253 | in every other case, infinite areas in the other modes and nodes of no area and no value among them, the children's rectangles tile the node's |
| `TreemapSpec.OneAndMinusOne` | public/assets/d3/d3.js:7232 | such a node: a unit square of value zero with children of values 1 and -1, in either order |
| `TreemapLaws.LayoutSquares` | public/assets/d3/d3.js:7230-7253 | whenever a squarified layout comes to an end, its rows lie along the shorter side of the space that is left; each area that joined a row left its worst distortion no worse than it was, and the area that opened the next row would have made it worse |
| `TreemapLaws.LayoutSlices` | public/assets/d3/d3.js:7231-7253 | in the other modes there is one row: next to each other in slices, below each other in dice, in turns with the depth in slice-dice; but next to each other in any mode where the node is square |
| `TreemapLaws.PositionLaid` | public/assets/d3/d3.js:7285-7314 | a row stands in the corner of its space, along the whole side whose length it was given, equally thick, and its thickness is cut off the space |
| `TreemapLaws.ScoreOrder` | public/assets/d3/d3.js:7239-7240 | comparing the scores of a row with and without a further area tells whether the worst distortion gets worse |
| `TreemapLaws.AreaOf` | public/assets/d3/d3.js:7223-7232 | a child's area in every case: in proportion where its value and the node's are positive, infinite where only its own is and the node has an area, otherwise none |
| `TreemapSpec.TilesRefine` | public/assets/d3/d3.js:7254 | tilings of the tiles make a tiling of the whole |
| `TreemapLaws.AreasFillNode` | public/assets/d3/d3.js:7223-7233 | where values add up, the areas of the children add up to the area of the node |
| `TreemapLaws.FillExact` | public/assets/d3/d3.js:7232-7253 | where nothing is rounded and the areas fill the rectangle, every rectangle that the fill chooses has exactly its area |
| `TreemapLaws.WorstIsReached` | public/assets/d3/d3.js:7274-7284 | the score of a row is the worst aspect ratio in it: no piece with an area is further from the wanted shape, and one is as far |
| `Treemap.Position` | public/assets/d3/d3.js:7285-7314 | the loop over a row sets the rectangles, shrinks the space as specified, and marks the last node with the direction of the row |
| `Treemap.Score` | public/assets/d3/d3.js:7274-7284 | the loop over a row computes the score of the specification, which is the worst aspect ratio in the row |
| `Treemap.FillRows` | public/assets/d3/d3.js:7232-7253 | the loop over the children, last child first, sets the rectangles of the fill, or fails exactly where the fill does |
| `Treemap.PlaceChildren` | public/assets/d3/d3.js:7230-7253 | fails exactly under the condition of LayoutFails; otherwise the children's rectangles tile the node's, in rows as LayoutSquares says or in one row as LayoutSlices says, and where nothing is rounded and the children's values add up to the node's, each rectangle's area is in proportion to its value |
| `Treemap.SquarifyNode` | public/assets/d3/d3.js:7230-7256 | laying out a whole subtree fails if and only if the layout of some node that is reached does, each in the rectangle that its parent's layout gives it; otherwise the leaves tile the node's rectangle, which is left alone |
| `Treemap.ValuedTreesSucceed` | public/assets/d3/d3.js:7230-7256 | no layout of a subtree fails in the modes other than squarify, nor where no node of value zero has a child of positive value |
| `DsvSpec.RoundTrip` | public/assets/d3/d3.js:2043-2112 | parsing formatted rows gives them back if and only if no row is empty, the last field of the last row is not empty, and no field that is written without quotes holds a carriage return |
| `DsvSpec.CarriageReturnLost` | public/assets/d3/d3.js:2107-2112 | a table with the one field that is a carriage return is not read back |
| `Dsv.FormatAndParse` | public/assets/d3/d3.js:2043-2112 | formatting rows and parsing the text with the tokenizer gives the rows back exactly if they are sound |
| `DsvSpec.OneRow` | public/assets/d3/d3.js:2107-2112 | a formatted row in front of a line end is read back exactly if it is sound |
| `DsvSpec.OneField` | public/assets/d3/d3.js:2110-2112 | a formatted field is read back with what follows it, unless a carriage return in it is not quoted |
| `DsvSpec.WrittenAsIs` | public/assets/d3/d3.js:2110-2112 | a field is written as it is exactly if it has no quote, delimiter or newline; otherwise in quotes, with its own quotes doubled |
| `DsvSpec.ReadAsIs` | public/assets/d3/d3.js:2067-2076 | a field that does not start with a quote is read as it stands, with any quotes in it |
| `DsvSpec.Unclosed` | public/assets/d3/d3.js:2049-2066 | a quote that is never closed takes all the text that is left |
| `DsvSpec.AnyLineEnd` | public/assets/d3/d3.js:2057-2075 | a sound table is read from a text whose lines end with newlines, carriage returns, or carriage returns with newlines |
| `DsvSpec.CloseEscape` | public/assets/d3/d3.js:2048-2054 | the closing quote found is the one the formatter wrote, however many quotes the field holds |
| `Dsv.Tokenizer.Token` | public/assets/d3/d3.js:2045-2075 | the cursor hands out the fields of the specification one by one, each line end once, and the end of the text for ever |
| `Dsv.Tokenizer.ParseRows` | public/assets/d3/d3.js:2076-2085 | the loops over the tokens make the rows of the specification's parser |
| `DataJoin.EscapeInjective` | public/assets/d3/d3.js:344-346 | two keys have the same property name only if they are the same key |
| `DataJoin.UnescapeEscape` | public/assets/d3/d3.js:344-349 | unescaping gives back every key |
| `DataJoin.StringMap.Set` | public/assets/d3/d3.js:321-323 | setting a key changes what is found under this key and no other, and never touches the prototype's property |
| `DataJoin.StringMap.Remove` | public/assets/d3/d3.js:353-355 | removing a key removes this key and no other, and says whether it was there |
| `DataJoin.StringMap.Keys` | public/assets/d3/d3.js:356-360 | the keys listed are exactly those that were set, each once |
| `DataJoin.NodeOnce` | public/assets/d3/d3.js:845-868 | every node is in exactly one of update and exit, and in update at one place only |
| `DataJoin.DatumOnce` | public/assets/d3/d3.js:845-868 | of the data with one key only the first is in update or enter, and only in one of them; it is in update exactly if a node has the key, and then with the first such node |
| `DataJoin.NodesConserved` | public/assets/d3/d3.js:845-868 | updated and exiting nodes are together as many as the nodes were |
| `DataJoin.KeysConserved` | public/assets/d3/d3.js:845-868 | updated and entering data are disjoint and together as many as the different keys |
| `DataJoin.IndexNodes` | public/assets/d3/d3.js:847-854 | after the first loop the map has the first node with each key, and the other nodes exit |
| `DataJoin.JoinData` | public/assets/d3/d3.js:855-863 | after the second loop each datum has its node or enters, and the keys seen are marked |
| `DataJoin.Bind` | public/assets/d3/d3.js:843-868 | the three arrays hold what the join promises for every position; joined nodes carry their new datum and no other node is touched |
| `LinearScale.Bisect` | public/assets/d3/d3.js:182-190 | the bounded search ends where everything just below is at most x and everything at it is above |
| `LinearScale.InvertScale` | public/assets/d3/d3.js:7466-7498 | inverting what the scale made of x gives x, for strictly monotone domain and range, rising or falling, at the points and beyond the ends |
| `LinearScale.Scale.MapAndInvert` | public/assets/d3/d3.js:7492-7497 | an object with strictly monotone domain and range of equal length inverts what it maps, for every number |
| `LinearScale.ScaleMeetsPoints` | public/assets/d3/d3.js:7466-7483 | a scale maps each point of its domain to the point of its range at the same place |
| `LinearScale.Proportional` | public/assets/d3/d3.js:7466-7483 | between two points of the domain, and beyond the ends, values are in proportion |
| `LinearScale.OnLineUnique` | public/assets/d3/d3.js:7479-7481 | at a point where two segments meet both give the same value |
| `LinearScale.LineInverse` | public/assets/d3/d3.js:5739-5744 | interpolating behind uninterpolating with the axes exchanged gives back the number |
| `LinearScale.Build` | public/assets/d3/d3.js:7466-7478 | the loop collects the pieces of the right domain and range, turned around together if the domain falls |
| `LinearScale.Apply` | public/assets/d3/d3.js:7479-7482 | the closure follows the graph of its domain and range |
| `LinearScale.Scale.Map` | public/assets/d3/d3.js:7492-7494 | scaling follows the graph from the domain to the range |
| `LinearScale.Scale.Invert` | public/assets/d3/d3.js:7495-7497 | inverting follows the graph from the range to the domain |
| `CalendarSpec.MakeDayInverse` | public/assets/bootstrap-datepicker/js/bootstrap-datepicker.js:1689-1694 | a day made of year, month and day of the month has this year, month and day |
| `CalendarSpec.MakeDayOfFields` | public/assets/bootstrap-datepicker/js/bootstrap-datepicker.js:1264-1267 | every day is made again from its year, month and day of the month |
| `CalendarSpec.YearLength` | public/assets/bootstrap-datepicker/js/bootstrap-datepicker.js:1689-1691 | a year has 366 days exactly if the picker calls it a leap year |
| `CalendarSpec.Overflow` | public/assets/bootstrap-datepicker/js/bootstrap-datepicker.js:1284-1305 | a day of the month that is too high runs over into the next month by just the excess |
| `CalendarSpec.MonthTable` | public/assets/bootstrap-datepicker/js/bootstrap-datepicker.js:1692-1694 | in a common year the months begin 0, 31, 59, 90, 120, 151, 181, 212, 243, 273, 304 and 334 days after New Year, from March on a day later in a leap year, and year, month and date are read back off every day in between |
| `CalendarSpec.KnownYears` | public/assets/bootstrap-datepicker/js/bootstrap-datepicker.js:1689-1691 | day numbers of New Year, 1970 being day 0, also around 2000 and 2100, which is no leap year |
| `Calendar.EndsOfMonths` | public/assets/bootstrap-datepicker/js/bootstrap-datepicker.js:1260-1308 | in every year a month from 31 July is 31 August, a month from 31 August is 30 September, and a month from 31 January is the last of February |
| `Calendar.MovedByTable` | public/assets/bootstrap-datepicker/js/bootstrap-datepicker.js:1260-1308 | moving by months, in terms of the month table |
| `Calendar.Datepicker.MoveDay` | public/assets/bootstrap-datepicker/js/bootstrap-datepicker.js:1249-1254 | whatever month it starts in, the day number moves by exactly the days asked for |
| `Calendar.Datepicker.MoveMonth` | public/assets/bootstrap-datepicker/js/bootstrap-datepicker.js:1260-1308 | for every date and every number of months the walk back ends, at the same day of the target month or at its last, by the month table of ECMA-262; a month from 31 July 2015 is 31 August |
| `Calendar.MovedFields` | public/assets/bootstrap-datepicker/js/bootstrap-datepicker.js:1260-1308 | year*12+month moves by exactly the months asked for, and the day is the smaller of the old one and the length of the target month |
| `Calendar.Datepicker.Step` | public/assets/bootstrap-datepicker/js/bootstrap-datepicker.js:1291-1294 | month by month the target is reached even though the day may sink on the way |
| `Calendar.Datepicker.WalkToMonth` | public/assets/bootstrap-datepicker/js/bootstrap-datepicker.js:1303-1306 | the date-resetting loop ends at the target month, never further |
| `Calendar.Datepicker.MoveYear` | public/assets/bootstrap-datepicker/js/bootstrap-datepicker.js:1310-1312 | a year is twelve months in the sense of the month arithmetic |
| `Calendar.MovedYears` | public/assets/bootstrap-datepicker/js/bootstrap-datepicker.js:1310-1312 | moving by years keeps the month, and the day except for a 29 February that becomes a 28th |
| `DateFormatSpec.FormatRebuilt` | public/assets/bootstrap-datepicker/js/bootstrap-datepicker.js:1695-1708 | a format is put together again from its separators and parts |
| `DateFormatSpec.RunsOfJoin` | public/assets/bootstrap-datepicker/js/bootstrap-datepicker.js:1696-1737 | the runs read off a written date are its values without a sign, whatever punctuation separates them |
| `DateFormatSpec.SettersForgetToday` | public/assets/bootstrap-datepicker/js/bootstrap-datepicker.js:1738-1808 | with year, month and day given, in any of their spellings, the setters arrive at that day from any date, in the source's fixed order; years of two figures count from 2000 |
| `DateFormatSpec.ShownParts` | public/assets/bootstrap-datepicker/js/bootstrap-datepicker.js:1819-1831 | how each part of a date is written: months by the name with their number, figures of days and months padded to two where asked for, years in full or by their last two figures |
| `DateFormatSpec.ShownWeekday` | public/assets/bootstrap-datepicker/js/bootstrap-datepicker.js:1821-1822 | weekdays are written by the name with their number, from Sunday on |
| `DateFormatSpec.Spelled` | public/assets/bootstrap-datepicker/js/bootstrap-datepicker.js:1695-1708 | the spellings of the ten parts of a format |
| `DateFormatSpec.AsciiPunctuation` | public/assets/bootstrap-datepicker/js/bootstrap-datepicker.js:1696 | which ASCII characters separate the values of a text |
| `DateFormatSpec.ReadShown` | public/assets/bootstrap-datepicker/js/bootstrap-datepicker.js:1709-1839 | reading a written date gives the day in the year without its sign, whatever day is today |
| `DateFormatSpec.RoundTrip` | public/assets/bootstrap-datepicker/js/bootstrap-datepicker.js:1709-1839 | for every format with year, month and day, in numbers or with names that the language can look up, and perhaps with weekdays, reading a written date gives it back if and only if its year is not negative |
| `DateFormatSpec.WeekdayMissing` | public/assets/bootstrap-datepicker/js/bootstrap-datepicker.js:1769-1774 | the same where the format starts with a weekday that the text leaves out |
| `DateFormatSpec.NegativeYearMisread` | public/assets/bootstrap-datepicker/js/bootstrap-datepicker.js:1696-1737 | the first day of the year -1 is read as the first day of the year 1 |
| `DateFormat.WriteAndRead` | public/assets/bootstrap-datepicker/js/bootstrap-datepicker.js:1709-1839 | formatting a date object and parsing the text gives the day back exactly if its year is not negative; a text with names must not look like steps from today, one in numbers never does |
| `DateFormatSpec.DefaultFormat` | public/assets/bootstrap-datepicker/js/bootstrap-datepicker.js:1631 | mm/dd/yyyy is such a format |
| `DateFormat.FormatDate` | public/assets/bootstrap-datepicker/js/bootstrap-datepicker.js:1812-1839 | the loop writes separators and values in turn |
| `DateFormat.SetMonth` | public/assets/bootstrap-datepicker/js/bootstrap-datepicker.js:1748-1758 | the month setter's two loops end, with the day kept as far as the month allows |
| `DateFormat.RunSetters` | public/assets/bootstrap-datepicker/js/bootstrap-datepicker.js:1796-1806 | the loop over the setters applies those whose value was read, each to a copy |
| `DateFormat.ParseDate` | public/assets/bootstrap-datepicker/js/bootstrap-datepicker.js:1709-1811 | a text of steps gives the day they lead to from the present day, step by step so many days, weeks, months or years on, unless its year is one of 0 to 99; any other text gives the day read from its values and today, an empty text none; what is returned is a new date |
| `DateFormat.TakeSteps` | public/assets/bootstrap-datepicker/js/bootstrap-datepicker.js:1728-1734 | the loop moves by days, weeks, months and years in the order of the steps: there is a trail of days, each from the one before as its step means |
| `RelativeDates.StepsReadBack` | public/assets/bootstrap-datepicker/js/bootstrap-datepicker.js:1717-1733 | steps that are written with signs and units, with any gap between each two of them, are recognized as such and read as just these steps |
| `RelativeDates.RelativeChars` | public/assets/bootstrap-datepicker/js/bootstrap-datepicker.js:1727 | a text taken for steps starts with a sign and holds nothing but signs, figures, the four units and gaps |
| `RelativeDates.RelativeDayOf` | public/assets/bootstrap-datepicker/js/bootstrap-datepicker.js:1727-1736 | a text of steps stands for the day they lead to, if and only if its year is not one of 0 to 99 |
| `RelativeDates.StepReaches` | public/assets/bootstrap-datepicker/js/bootstrap-datepicker.js:1717-1736 | a single step of n: n or 7n days on, n months on with the day kept as far as the month allows, or n years on |
| `RelativeDates.WrittenReaches` | public/assets/bootstrap-datepicker/js/bootstrap-datepicker.js:1727-1736 | a text of several steps leads from day to day in this way |
| `RelativeDates.FirstCenturyMisread` | public/assets/bootstrap-datepicker/js/bootstrap-datepicker.js:1727-1736 | 1900 years back from the first day of 1970 lead to the year 70 and are read as 1970 |
| `DateFormat.ShownIsAbsolute` | public/assets/bootstrap-datepicker/js/bootstrap-datepicker.js:1712-1727 | a date written in numbers is never mistaken for steps from today |
| `HistorySpec.GroupKeepsOrder` | app/controllers/Application.java:695-738 | a group holds exactly the jobs with its id, in the order of the list |
| `HistorySpec.GroupsAreIds` | app/controllers/Application.java:695-738 | every id has one group and every job an id; no group is empty |
| `HistorySpec.GroupsByField` | app/controllers/Application.java:695-738 | a job is in the group of its own job execution, job definition or flow execution id |
| `HistorySpec.FirstJobs` | app/controllers/Application.java:696-726 | groups come in the order of their first jobs |
| `HistorySpec.GroupsConserve` | app/controllers/Application.java:924-943 | whatever is added up over the groups is what is added up over all jobs |
| `HistorySpec.KeptAreComplete` | app/controllers/Application.java:536-566 | if the jobs of every flow follow one another, each flow kept from the newest 5000 jobs has all its jobs |
| `HistorySpec.KeptCompleteExactly` | app/controllers/Application.java:536-566 | all executions that the limit keeps are complete if and only if no job behind the newest 5000 belongs to one of them |
| `HistorySpec.SparedGroups` | app/controllers/Application.java:536-566 | flows may overlap and still all be complete, as long as what is behind the cut belongs to the last three of more than ten executions, or else to the last one |
| `HistorySpec.ContiguousLosesLast` | app/controllers/Application.java:536-566 | where the jobs of every flow follow one another, only the last execution can lack jobs |
| `HistorySpec.OverlapLosesJobs` | app/controllers/Application.java:536-566 | without that, a flow can be kept and lack a job: a list of 5001 jobs where it does |
| `HistorySpec.AtMostFifteen` | app/controllers/Application.java:536-566 | at most fifteen executions are kept, and all of them where the query was not cut off and there are no more than fifteen |
| `HistorySpec.KeptOf` | app/controllers/Application.java:536-566 | how many executions are kept, from below as well: of fewer than 5000 jobs all up to fifteen; otherwise fifteen of eighteen or more, all but three of more than ten, all but one of ten or fewer |
| `HistorySpec.FlowTimeIsLast` | app/controllers/Application.java:945-948 | the time shown for an execution is the latest of its jobs, and its first record is that of the job that finished first |
| `HistorySpec.FlowsInOrder` | app/controllers/Application.java:918-948 | flows come in the order of their last jobs |
| `History.GroupJobs` | app/controllers/Application.java:695-738 | the loops build the grouping: ids in order of first occurrence, with the id and url of the first job's own fields |
| `History.LimitHistoryResults` | app/controllers/Application.java:536-566 | the entries kept are the first of the map: of fewer than 5000 jobs as many as the limit says; otherwise all but three of more than ten entries, or as many as the limit says if that is less, or all but one of ten or fewer |
| `History.AddJobs` | app/controllers/Application.java:924-943 | the running sums over the jobs of an execution are the sum of all its scores and one sum for each job |
| `History.FlowGraph` | app/controllers/Application.java:895-955 | fifteen executions, or fewer as KeptOf says in numbers, each with a record, in the order of their times, each time that of the flow's last job; where no job behind the newest 5000 belongs to one of them, and so where the jobs of every flow follow one another, it adds up all the flow's jobs |
| `Paging.SearchShowsPage` | app/controllers/Application.java:190-207 | with a bar of at least three pages the rows shown are exactly those of the page asked for, and nothing is shown exactly if there are none |
| `Paging.RightBars` | app/controllers/Application.java:190-207 | this holds for all pages and results if and only if the bar has at least three pages or a page one row |
| `Paging.BarEndsAtLastPage` | app/controllers/PaginationStats.java:78-81 | the end of the bar is the last page with rows, as far as the bar reaches |
| `Paging.PaginationStats.SetCurrentPage` | app/controllers/PaginationStats.java:53-59 | the page is never below 1 |
| `Paging.Render` | app/controllers/Application.java:202-207 | the indices of the sublist never leave the rows fetched, and the sublist is that of the specification |
| `Paging.Search` | app/controllers/Application.java:179-208 | the request's page, or page 1, is shown as promised, in the middle of the bar unless that would start before page 1 |

## Left out

- Calendar.Datepicker.MoveMonth: the limits of Date, 100,000,000 days to either side of 1970, are not modelled; day numbers are unbounded. An invalid date is a null one. Times of day are left out, the picker's dates are at midnight.
- DateFormat.ParseDate: values that already are Date objects, and formats that bring their own functions, are not modelled.
- DsvSpec.RoundTrip: other delimiters than the comma and the tab are not modelled.
- Dsv.Tokenizer.ParseRows: the row function `f` that may map or drop rows is not modelled.
- DataJoin.Bind: the join by position, for no key function, and groups with holes are not modelled; the key function is told the node it is called on, but may not read other state. Keys are strings already.
- LinearScale.InvertScale: clamping, other interpolators and rounding errors are not modelled; numbers are reals and arrays shorter than two to the power of 31.
- Quadtree.NearestOf: points outside an explicitly given extent, for which insertion need not end, undefined coordinates and the accessor functions are not modelled.
- Hull.ConvexHull: the sort that precedes the chains is a precondition, and undefined coordinates are not modelled.
- DataJoin.StringMap.Keys: the order of the keys is that of an object's properties, which is not modelled.
- Treemap.SquarifyNode: padding and sticky layouts are not modelled, as the tiling is not meant to hold there; nor is what a layout that throws leaves in the nodes.
- CircleQueue.Circles.Attach: the centre and the bottom of a circle are arguments; the sweep with its square roots and tolerances is not modelled, nor are the links between circles and beach arcs.
- RedBlackHeap.RedBlackTree.Remove: assignments to different fields that follow one another without a read between them are grouped in helper methods, so their order among themselves is not that of the source.
- AnalysisProtocol.ExactlyOneJob: the kill switch, interrupts and the death of a thread by an Error are not modelled; jobs may be lost there by design. Counting a failure and queueing the retry are one step, and the login check in front of a fetch is part of not starting it. The endless loops of the threads are steps, and single rounds as methods.
- History.FlowGraph: the pages that show the same groups without adding scores, and sums beyond 32 bits, are not modelled; the hash of an (id, url) pair and its equality by id alone do not matter, as ids do not repeat within a map.
- Paging.Search: the query itself, and page numbers and row counts beyond 32 bits, are not modelled.
- HTTP, Kerberos, JSON and XML, the database and the loading of classes: input and output.
- Selections, transitions, axes, colours and projections of d3, and the site's own scripts: user interface or floating point.
- The comparison of flows: its sets ignore case and its maps overwrite entries, so what it should promise is unclear.
- The heuristics, their thresholds, and the formatting of memory sizes and identifiers: single branches, or floating point.
