# Maze solver: adjacency, breadth-first search and path reconstruction

A Dafny model of the algorithmic core of `main.py`, the `Maze` class without
its drawing code. A maze is an `n x m` grid of cells `(i, j)`. Two boolean
wall matrices describe it:

- `vertical[i][j]` closes the edge between `(i, j)` and `(i, j+1)`;
- `horizontal[i][j]` closes the edge between `(i, j)` and `(i+1, j)`.

The outer boundary is not stored. The index guards in `get_neighbors` enforce it.

The search starts at `(0, startCol)` with label 0. It relaxes neighbour labels
with `min(score[p], score[current] + 1)` over a FIFO queue. It also tracks the
best bottom-row cell found so far, the *winner*. Once a winner exists, a cell is
expanded only when its label beats the winner's. After the search, `get_path`
walks back from the winner, stepping each time to a neighbour whose label is one
lower, until it reaches label 0.

Modules, leaf first:

- `Grid` (grid.dfy): cells, the maze and its shape, `get_neighbors`, walks.
  `Open` is the reference definition of an edge, read directly off the wall slot
  that separates two cells.
- `Score` (score.dfy): labels. A label is `Inf` (unreached, the source's
  `np.inf`) or `Fin(d)`. It also defines `<`, `min` and `+ 1` on labels.
- `Path` (path.dfy): `get_path` as written (`ScanNeighbors`, `Descend`,
  `GetPath`), and `DescentPath`, a reference that takes the first qualifying
  neighbour.
- `Search` (search.dfy): the loop state, one round of the loop as the pure
  function `Step`, the loop invariant and its preservation, the termination
  measure, the meaning of the final labels and winner, and the method
  `BreadthFirstSearch`.

The winner sentinel `(-1, -1)` is `Option.None`. `visited` is a set, because it
is only tested for membership. The loop invariant is stated with a ghost
`level`, the label of the last cell taken from the queue for the first time.
All of the following are invariant:

- visited labels are at most `level`;
- reached unvisited labels are `level` or `level + 1`;
- first occurrences of unvisited cells sit in the queue in label order;
- every visited cell whose label beats `best` has all its neighbours labelled at
  most one higher.

The consequences: a finite label never changes again, every finite label is the
exact walk distance from the start, and the winner is a nearest bottom-row cell.

A cell can be queued several times, because line 118 tests only `visited`. A
queued duplicate is expanded again when it reaches the head, unless the pruning
guard on line 114 stops it. The loop therefore
terminates on the pair (cells not yet visited, number of queue entries whose
cell is already visited). Each round either visits a new cell or consumes one
stale entry.

The `continue` on line 153 does not leave the inner `for` loop of `get_path`,
but each later point is compared against the *updated* `current`.
`ScanNeighbors` models exactly that. When neighbouring labels differ by at most
one, as the search's labels do, no later point qualifies against the updated
`current`, so the loop follows the *first* qualifying neighbour in
`get_neighbors` order (`ScanTakesFirst`, `DescendIsFirstChoice`).

Labels are compared as the floats of the score matrix: `inf - 1 == inf` on
line 150, so an unreached point qualifies against an unreached `current`
(`IsPred`).

## Model

| member | source | states |
|---|---|---|
| `Grid.GetNeighbors` | main.py:69-82 | The result holds exactly the cells joined to the input by an open edge: in the grid, orthogonally adjacent, with no wall in the slot between. Each appears once and there are at most four. |
| `Grid.Passable` | main.py:73-79 | The guard of each `if` in `get_neighbors`: the boundary index test for that side, then the wall slot on that side. |
| `Grid.Collect` | main.py:72-80 | The appends of `get_neighbors` for a list of directions, in order; the lemmas below state what they contain. |
| `Grid.PassableIsOpen` | main.py:73-80 | A cell `d` is joined to `c` by an open edge exactly when some direction's guard holds at `c` and the step in that direction lands on `d`. |
| `Grid.CollectMembers` | main.py:72-80 | A cell is appended exactly when it is the step in some listed direction whose guard holds. |
| `Grid.CollectInBounds` | main.py:72-80 | Every appended cell is in the grid and orthogonally adjacent to the input, and there are no more of them than directions. |
| `Grid.CollectDistinct` | main.py:72-80 | With distinct directions, no cell is appended twice. |
| `Grid.TryNeighbors` | main.py:69-71 | The range assertion fails exactly for a cell outside the grid; otherwise the answer is the open-edge neighbours. |
| `Grid.NeighborsSymmetric` | main.py:73-80 | `b` is a neighbour of `a` exactly when `a` is a neighbour of `b`; both directions read the same wall slot. |
| `Grid.Valid` | main.py:20-23 | The wall matrices have the constructor's shapes: `vertical` is `n x (m-1)` and `horizontal` is `(n-1) x m`, with `n, m >= 1`. |
| `Score.Less` | main.py:111 | Float `<` on labels: finite labels compare as numbers, every finite label is below `inf`, and `inf` is below nothing. |
| `Score.LessIsOrder` | main.py:111 | `<` on labels is irreflexive, transitive and total on distinct labels, with `inf` on top. |
| `Score.Min` | main.py:112 | `min(a, b)` is one of its arguments and is above neither. |
| `Score.Succ` | main.py:117 | `x + 1` keeps `inf` as `inf` and sends a finite label strictly upward. |
| `Path.IsPred` | main.py:150 | `score[point] == score[current] - 1` with float labels: finite labels one apart, or both `inf`. |
| `Path.IsPredIsSuccInverse` | main.py:150 | The comparison holds exactly when `score[point] + 1 == score[current]`. |
| `Path.ScanNeighbors` | main.py:149-153 | One pass of the inner loop keeps the path so far and appends only neighbours. Each appended point is labelled one below the previous one. The pass appends at least one point whenever some neighbour is labelled one below `current`. |
| `Path.Descend` | main.py:148-153 | When every positive label has a neighbour one lower, the outer loop appends exactly `score[current]` cells, with labels falling by one per position down to 0. |
| `Path.GetPath` | main.py:144-156 | The "no winner" sentinel gives `[]`. Otherwise the path starts at the winner and has `score[winner] + 1` cells, and the `k`-th cell has label `score[winner] - k`, so it ends on label 0. |
| `Path.DescentPath` | main.py:148-153 | Taking the first qualifying neighbour at each step yields a walk along open edges whose labels fall by one per step from `score[c]` to 0. |
| `Path.ScanTakesFirst` | main.py:149-153 | When no neighbour is labelled two or more below `current`, the inner loop appends exactly the first qualifying neighbour, and the `continue` changes nothing. |
| `Path.DescendIsFirstChoice` | main.py:148-153 | Under labels that differ by at most one across an edge, the outer loop as written produces the first-choice descent. |
| `Path.GetPathIsFirstChoice` | main.py:144-156 | Under the search's labels, `get_path` equals the first-choice descent, so it is a walk along open edges. |
| `Search.Initial` | main.py:91-104 | The start has label 0 and is the only reached cell. The queue is `[start]`, nothing is visited, there is no winner and `best_score` is infinite. |
| `Search.OnBottom` | main.py:110 | The test `i == end_row`, where `end_row = n - 1` (line 93): the cell lies on the bottom row. |
| `Search.TrackWinner` | main.py:108-112 | Off the bottom row nothing changes. On it, a label strictly below `best_score` makes the current cell the winner with that label as `best_score`; a tie or a larger label changes nothing. The winner changes only to the current cell and only on a strict improvement, and `best_score` changes only together with it. |
| `Search.Expands` | main.py:114 | A cell is expanded when there is no winner yet or its label is strictly below `best_score`. |
| `Search.Unvisited` | main.py:118-119 | The appended points are exactly the neighbours not yet visited, and there are no more of them than neighbours. |
| `Search.Expand` | main.py:115-119 | Each neighbour's label becomes the minimum of itself and `s + 1`, and every other label stays. The queue keeps its old entries and gains the unvisited neighbours, once each and in `get_neighbors` order. |
| `Search.Step` | main.py:105-122 | One round marks the head visited and never raises a label or `best_score`. The new queue is the old tail followed, when the pruning guard permits expansion, by the unvisited neighbours in `get_neighbors` order. |
| `Search.InitialInv` | main.py:95-104 | The initial state satisfies the loop invariant at level 0. |
| `Search.StaleHead` | main.py:110-119 | A visited cell taken from the queue again leaves winner and best unchanged. When it is expanded, its neighbours are already reached and at most one step further. |
| `Search.HeadBound` | main.py:114-117 | When the head is expanded, its reached neighbours are at most one step further, so `min` keeps their labels. |
| `Search.StepLabels` | main.py:117 | A step keeps every finite label. A label becomes finite only for a neighbour of a head taken for the first time and expanded, and then it is the head's label plus one. |
| `Search.FrontIsMin` | main.py:105-106 | A head not visited before has the least label among the reached unvisited cells. |
| `Search.StepRelHolds` | main.py:105-122 | `Step` does what the invariant needs: finite labels kept, new labels one past the head, queue tail kept, unvisited neighbours appended. |
| `Search.KeepRooted` | main.py:117 | Only the start has label 0, and every positive label still has a neighbour one lower. |
| `Search.KeepFrontier` | main.py:118-122 | Queued and visited cells stay reached, and every reached unvisited cell stays queued. |
| `Search.KeepLevels` | main.py:105-122 | The level structure moves to the head's label: visited at most the level, unvisited reached at the level or one above. |
| `Search.KeepOrdered` | main.py:118-122 | First occurrences of unvisited cells remain in label order after the pop and the appends. |
| `Search.KeepClosed` | main.py:114-121 | Every visited cell whose label beats `best_score` keeps its neighbours labelled at most one higher. |
| `Search.KeepWinner` | main.py:110-114 | The winner is a visited bottom-row cell carrying `best_score`. No visited bottom-row cell beats it, and no label exceeds it by more than one. |
| `Search.StepPreserves` | main.py:105-122 | One round of the loop preserves the whole invariant. |
| `Search.StepProgress` | main.py:105-122 | Each round visits a new cell or consumes a stale queue entry, so the loop terminates despite duplicates. |
| `Search.Finished` | main.py:105 | With the queue empty, every reached cell has been visited and settled. |
| `Search.WalkBound` | main.py:114-117 | The end of a walk from the start is labelled within the walk's step count, unless a smaller bottom-row label had already stopped the expansion. |
| `Search.LabelIsDistance` | main.py:117 | Every finite label is the exact walk distance from the start. |
| `Search.WinnerIsNearest` | main.py:110-114 | The winner's label is at most the length of every walk from the start to the bottom row. There is no winner exactly when no such walk exists. |
| `Search.DoneLabelsClose` | main.py:114-117 | Cells joined by an open edge have final labels at most one apart. |
| `Search.SingleRowWins` | main.py:110-112 | With one row, the start itself is the winner. |
| `Search.OpenColumnDistance` | main.py:90-127 | If the start column has no horizontal walls, the winner is exactly `n - 1` steps away. |
| `Search.ClosedFloorNoWinner` | main.py:90-127 | With every horizontal wall closed and more than one row, there is no winner. |
| `Search.Outcome` | main.py:90-127 | The final labels and winner guarantee every property above together. With no winner, every cell a walk reaches is labelled. |
| `Search.BreadthFirstSearch` | main.py:90-127 | The start is `(0, startCol)` with label 0. Every finite label is an exact distance. There is no winner iff the bottom row is unreachable, and otherwise the winner is a nearest bottom-row cell. The reconstructed path is a walk from the winner to the start with `score[winner] + 1` cells. |

## Left out

- Rendering (`show`, `draw_vline`, `draw_hline`, `draw_cell`, `draw_winning_path`, `draw_line`): display output in float pixel coordinates.
- The event loop, `pygame` set-up and `main`: I/O with no algorithmic content.
- Random generation: the walls (`np.random.rand(...) < p` and `np.random.rand(...) < q`, lines 20-23) and the start column (`np.random.randint`, line 91) are parameters. `Grid.Valid` states the shapes the constructor gives the wall matrices.
- Layout fields (`cellsize`, `width`, `height`, `xleft`, `ytop`) and the screen-size assertion: presentation only.
- Floating point: `np.inf` and the float label matrix become `Label` and a map over all cells.
- `Search.BreadthFirstSearch`: returns the reconstructed path instead of assigning `self.winningpath`. Lines 124-125 assign the field only when there is a winner, so after a call without a winner the object keeps whatever path an earlier call stored (`[]` from line 32 on a fresh object). The model returns `[]` in that case and does not model the field across calls.
- `Search.BreadthFirstSearch`: the assignment `self.start_point = start_point` (line 92) is not modelled; the start cell is returned, as line 127 also does.
- `Path.Descend`, `Path.GetPath`: require that the starting label is finite and that every positive finite label has a neighbour one lower (`Descending`). On an `inf` label lines 148-153 never end: `inf > 0` stays true, and since `inf == inf - 1` each pass moves on to `inf`-labelled neighbours or repeats unchanged. Without it, lines 148-153 can loop forever (when the walk reaches a positive label with no neighbour one lower), and the model does not represent non-termination. The search's labels always satisfy it (`Search.KeepRooted`).
- `Path.DescendIsFirstChoice`, `Path.GetPathIsFirstChoice`: proved only for labels that differ by at most one across an edge. Under other labels the as-written loop can take two steps from one cell in a single pass, and its path need not be a walk. The search's labels always satisfy the condition (`Search.DoneLabelsClose`).
