/** Breadth-first search with best-score pruning (`Maze.breadth_first_search`).
    One round of the `while to_visit` loop is the pure function `Step`; the
    method `BreadthFirstSearch` runs it until the queue is empty. */
module Search {
  import opened Grid
  import opened Score
  import opened Path

  /** The loop variables. `winner == None` stands for the sentinel `(-1, -1)`.
      `visited` is only ever tested for membership, so it is a set. */
  datatype SearchState = SearchState(
    toVisit: seq<Cell>,
    visited: set<Cell>,
    score: map<Cell, Label>,
    winner: Option<Cell>,
    best: Label)

  /** The cell `(0, startCol)` with label 0, every other cell unreached,
      queue `[start]`, nothing visited, no winner and `best_score = inf`. */
  function Initial(mz: Maze, start: Cell): (st: SearchState)
    requires InBounds(mz, start)
    ensures Labelled(mz, st.score)
    ensures forall c :: c in st.score ==> (st.score[c].Fin? <==> c == start)
    ensures st.score[start] == Fin(0)
    ensures st.toVisit == [start] && st.visited == {} && st.winner.None? && st.best.Inf?
  {
    var score := map c | c in AllCells(mz) :: if c == start then Fin(0) else Inf;
    SearchState([start], {}, score, None, Inf)
  }

  /** Row `n - 1`, the row the search tries to reach. */
  predicate OnBottom(mz: Maze, c: Cell)
  {
    c.row == mz.n - 1
  }

  /** The bottom-row bookkeeping: a bottom-row cell becomes the winner when its
      label beats `best_score` strictly, and `best_score` drops to the minimum.
      On a tie the earlier winner stays. */
  function TrackWinner(mz: Maze, x: Cell, s: Label, winner: Option<Cell>, best: Label): (r: (Option<Cell>, Label))
    ensures !OnBottom(mz, x) ==> r == (winner, best)
    ensures OnBottom(mz, x) ==> !Less(s, r.1) && !Less(best, r.1) && (r.1 == s || r.1 == best)
    ensures r.0 != winner ==> r.0 == Some(x) && r.1 == s
    ensures r.1 != best ==> r.0 == Some(x) && r.1 == s
    ensures r.0 != winner ==> Less(s, best)
    ensures OnBottom(mz, x) && Less(s, best) ==> r.0 == Some(x)
    ensures OnBottom(mz, x) && !Less(s, best) ==> r == (winner, best)
  {
    if OnBottom(mz, x) then
      ((if Less(s, best) then Some(x) else winner), Min(best, s))
    else
      (winner, best)
  }

  /** The pruning test: expand while there is no winner yet or the label beats
      the best bottom-row label found so far. */
  predicate Expands(winner: Option<Cell>, best: Label, s: Label)
  {
    winner.None? || Less(s, best)
  }

  /** The cells the `for point in queue` loop appends: the points of `nbrs`
      not yet visited, once each and in the order of `nbrs`. */
  function Unvisited(nbrs: seq<Cell>, visited: set<Cell>): (r: seq<Cell>)
    ensures forall c :: c in r <==> c in nbrs && c !in visited
    ensures |r| <= |nbrs|
  {
    if nbrs == [] then []
    else (if nbrs[0] !in visited then [nbrs[0]] else []) + Unvisited(nbrs[1..], visited)
  }

  /** The `for point in queue` loop: relax each neighbour to at most `s + 1`
      and append it to the queue unless it was visited. `s` is the label of the
      cell being expanded; it is not among its own neighbours, so its label is
      the same on every iteration. */
  function Expand(score: map<Cell, Label>, toVisit: seq<Cell>, visited: set<Cell>, nbrs: seq<Cell>, s: Label)
    : (r: (map<Cell, Label>, seq<Cell>))
    requires Within(nbrs, score)
    ensures r.0.Keys == score.Keys
    ensures forall c :: c in score ==> r.0[c] == if c in nbrs then Min(score[c], Succ(s)) else score[c]
    ensures r.1 == toVisit + Unvisited(nbrs, visited)
    decreases |nbrs|
  {
    if nbrs == [] then (score, toVisit)
    else
      var p := nbrs[0];
      var score' := score[p := Min(score[p], Succ(s))];
      var added := if p !in visited then [p] else [];
      var r := Expand(score', toVisit + added, visited, nbrs[1..], s);
      Regroup(toVisit, added, Unvisited(nbrs[1..], visited));
      r
  }

  /** Appending one segment and then another is appending their concatenation. */
  lemma Regroup(q: seq<Cell>, a: seq<Cell>, b: seq<Cell>)
    ensures (q + a) + b == q + (a + b)
  {
  }

  /** One round of the `while to_visit` loop: take the head of the queue,
      update the winner, expand the head if the pruning test lets it, mark it
      visited and drop it from the queue. */
  function Step(mz: Maze, st: SearchState): (r: SearchState)
    requires Valid(mz) && Labelled(mz, st.score)
    requires st.toVisit != [] && InBounds(mz, st.toVisit[0])
    ensures r.visited == st.visited + {st.toVisit[0]}
    ensures r.score.Keys == st.score.Keys
    ensures forall c :: c in st.score ==> !Less(st.score[c], r.score[c])
    ensures !Less(st.best, r.best)
    ensures (r.winner, r.best) == TrackWinner(mz, st.toVisit[0], st.score[st.toVisit[0]], st.winner, st.best)
    ensures forall c :: c in st.score ==>
              r.score[c] == if Expands(r.winner, r.best, st.score[st.toVisit[0]]) && c in GetNeighbors(mz, st.toVisit[0])
                            then Min(st.score[c], Succ(st.score[st.toVisit[0]])) else st.score[c]
    ensures r.toVisit == st.toVisit[1..] +
              if Expands(r.winner, r.best, st.score[st.toVisit[0]]) then Unvisited(GetNeighbors(mz, st.toVisit[0]), st.visited) else []
  {
    var x := st.toVisit[0];
    var s := st.score[x];
    var (winner, best) := TrackWinner(mz, x, s, st.winner, st.best);
    var (score, toVisit) :=
      if Expands(winner, best, s) then
        NeighborsLabelled(mz, st.score, x);
        Expand(st.score, st.toVisit, st.visited, GetNeighbors(mz, x), s)
      else
        (st.score, st.toVisit);
    var added := if Expands(winner, best, s) then Unvisited(GetNeighbors(mz, x), st.visited) else [];
    assert toVisit[1..] == st.toVisit[1..] + added;
    SearchState(toVisit[1..], st.visited + {x}, score, winner, best)
  }

  /** The number of queue entries whose cell was already visited. Such an
      entry is expanded again when it reaches the head, unless the pruning
      test stops it (`main.py` checks `visited` when appending, not when
      popping). */
  function StaleCount(q: seq<Cell>, visited: set<Cell>): nat
  {
    if q == [] then 0 else (if q[0] in visited then 1 else 0) + StaleCount(q[1..], visited)
  }

  lemma {:induction false} StaleAppend(a: seq<Cell>, b: seq<Cell>, visited: set<Cell>)
    ensures StaleCount(a + b, visited) == StaleCount(a, visited) + StaleCount(b, visited)
  {
    if a != [] {
      assert (a + b)[0] == a[0] && (a + b)[1..] == a[1..] + b;
      StaleAppend(a[1..], b, visited);
    } else {
      assert a + b == b;
    }
  }

  lemma {:induction false} StaleNone(q: seq<Cell>, visited: set<Cell>)
    requires forall c :: c in q ==> c !in visited
    ensures StaleCount(q, visited) == 0
  {
    if q != [] {
      StaleNone(q[1..], visited);
    }
  }

  /** Index of the first occurrence of `c` in `q`. */
  function FirstIndex(q: seq<Cell>, c: Cell): (j: nat)
    requires c in q
    ensures j < |q| && q[j] == c && c !in q[..j]
  {
    if q[0] == c then 0
    else
      var j := 1 + FirstIndex(q[1..], c);
      assert q[..j] == [q[0]] + q[1..][..j - 1];
      j
  }

  // ---------------------------------------------------------------------
  // The loop invariant. `level` is a ghost: the label of the last cell
  // taken from the queue for the first time.

  /** The start carries label 0, and no other cell does. */
  ghost predicate Rooted(start: Cell, score: map<Cell, Label>)
  {
    && start in score && score[start] == Fin(0)
    && (forall c :: c in score && score[c] == Fin(0) ==> c == start)
  }

  /** Queued and visited cells are reached grid cells, and a reached cell that
      is not visited yet waits in the queue. */
  ghost predicate Frontier(mz: Maze, st: SearchState)
    requires Labelled(mz, st.score)
  {
    && (forall k :: 0 <= k < |st.toVisit| ==> InBounds(mz, st.toVisit[k]) && st.score[st.toVisit[k]].Fin?)
    && (forall c :: c in st.visited ==> InBounds(mz, c) && st.score[c].Fin?)
    && (forall c :: c in st.score && st.score[c].Fin? && c !in st.visited ==> c in st.toVisit)
  }

  /** Visited labels are at most `level`; reached unvisited labels are
      `level` or `level + 1`. */
  ghost predicate Levels(mz: Maze, st: SearchState, level: nat)
    requires Labelled(mz, st.score) && Frontier(mz, st)
  {
    && (forall c :: c in st.visited ==> st.score[c].d <= level)
    && (forall c :: c in st.score && st.score[c].Fin? && c !in st.visited ==> level <= st.score[c].d <= level + 1)
  }

  /** First occurrences of unvisited cells come in the queue in label order. */
  ghost predicate Ordered(mz: Maze, st: SearchState)
    requires Labelled(mz, st.score) && Frontier(mz, st)
  {
    forall i, j :: 0 <= i < j < |st.toVisit| && st.toVisit[i] !in st.visited && st.toVisit[j] !in st.visited
                   && st.toVisit[j] !in st.toVisit[..j]
      ==> st.score[st.toVisit[i]].d <= st.score[st.toVisit[j]].d
  }

  /** A reached cell whose label beats `best` has every neighbour reached, at
      most one step further. */
  ghost predicate Settled(mz: Maze, score: map<Cell, Label>, best: Label, c: Cell)
    requires Valid(mz) && Labelled(mz, score) && InBounds(mz, c)
  {
    score[c].Fin? && Less(score[c], best) ==>
      forall p :: p in GetNeighbors(mz, c) ==> InBounds(mz, p) && score[p].Fin? && score[p].d <= score[c].d + 1
  }

  /** Every visited cell is settled. */
  ghost predicate Closed(mz: Maze, st: SearchState)
    requires Valid(mz) && Labelled(mz, st.score) && Frontier(mz, st)
  {
    forall c :: c in st.visited ==> Settled(mz, st.score, st.best, c)
  }

  /** The winner is a visited bottom-row cell carrying `best`; no visited
      bottom-row cell beats `best`; once `best` is finite no label exceeds
      it by more than one. */
  ghost predicate WinnerOk(mz: Maze, st: SearchState)
    requires Labelled(mz, st.score) && Frontier(mz, st)
  {
    && (st.winner.None? <==> st.best.Inf?)
    && (st.winner.Some? ==>
          st.winner.value in st.visited && OnBottom(mz, st.winner.value) && st.score[st.winner.value] == st.best)
    && (forall c :: c in st.visited && OnBottom(mz, c) ==> !Less(st.score[c], st.best))
    && (st.best.Fin? ==> forall c :: c in st.score && st.score[c].Fin? ==> st.score[c].d <= st.best.d + 1)
  }

  ghost predicate Inv(mz: Maze, start: Cell, st: SearchState, level: nat)
  {
    && Valid(mz) && InBounds(mz, start) && Labelled(mz, st.score)
    && Rooted(start, st.score) && Descending(mz, st.score)
    && Frontier(mz, st) && Levels(mz, st, level) && Ordered(mz, st)
    && Closed(mz, st) && WinnerOk(mz, st)
  }

  lemma InitialInv(mz: Maze, start: Cell)
    requires Valid(mz) && InBounds(mz, start)
    ensures Inv(mz, start, Initial(mz, start), 0)
  {
  }

  /** A visited cell taken again from the queue finds `winner` and `best`
      as they are, and when it is expanded it is settled already. */
  lemma StaleHead(mz: Maze, start: Cell, st: SearchState, level: nat)
    requires Inv(mz, start, st, level) && st.toVisit != [] && st.toVisit[0] in st.visited
    ensures TrackWinner(mz, st.toVisit[0], st.score[st.toVisit[0]], st.winner, st.best) == (st.winner, st.best)
    ensures Expands(st.winner, st.best, st.score[st.toVisit[0]]) ==>
              forall p :: p in GetNeighbors(mz, st.toVisit[0]) ==>
                st.score[p].Fin? && st.score[p].d <= st.score[st.toVisit[0]].d + 1
  {
  }

  /** When the head is expanded, its reached neighbours lie at most one step
      further; when the head was visited before, they are all reached. */
  lemma HeadBound(mz: Maze, start: Cell, st: SearchState, level: nat)
    requires Inv(mz, start, st, level) && st.toVisit != []
    ensures NeighborsNear(mz, st)
  {
    var x := st.toVisit[0];
    var s := st.score[x];
    var r := Step(mz, st);
    if Expands(r.winner, r.best, s) {
      if x in st.visited {
        StaleHead(mz, start, st, level);
      } else {
        forall p | p in GetNeighbors(mz, x) && st.score[p].Fin?
          ensures st.score[p].d <= s.d + 1
        {
          assert InBounds(mz, p);
        }
      }
    }
  }

  /** The conclusion of `HeadBound`. */
  ghost predicate NeighborsNear(mz: Maze, st: SearchState)
    requires Valid(mz) && Labelled(mz, st.score)
    requires st.toVisit != [] && InBounds(mz, st.toVisit[0]) && st.score[st.toVisit[0]].Fin?
  {
    var x := st.toVisit[0];
    var r := Step(mz, st);
    Expands(r.winner, r.best, st.score[x]) ==>
      forall p :: p in GetNeighbors(mz, x) ==>
        && InBounds(mz, p)
        && (st.score[p].Fin? ==> st.score[p].d <= st.score[x].d + 1)
        && (x in st.visited ==> st.score[p].Fin?)
  }

  /** One step keeps every finite label, and a cell that becomes reached is
      a neighbour of a head taken for the first time, one step further. */
  lemma StepLabels(mz: Maze, st: SearchState)
    requires Valid(mz) && Labelled(mz, st.score)
    requires st.toVisit != [] && InBounds(mz, st.toVisit[0]) && st.score[st.toVisit[0]].Fin?
    requires NeighborsNear(mz, st)
    ensures forall c :: c in st.score && st.score[c].Fin? ==> Step(mz, st).score[c] == st.score[c]
    ensures forall c :: c in st.score && st.score[c].Inf? && Step(mz, st).score[c].Fin? ==>
              && st.toVisit[0] !in st.visited
              && Expands(Step(mz, st).winner, Step(mz, st).best, st.score[st.toVisit[0]])
              && c in GetNeighbors(mz, st.toVisit[0])
              && Step(mz, st).score[c] == Fin(st.score[st.toVisit[0]].d + 1)
  {
  }

  /** The head of the queue, when not visited yet, has the least label of all
      reached unvisited cells. */
  lemma FrontIsMin(mz: Maze, start: Cell, st: SearchState, level: nat, c: Cell)
    requires Inv(mz, start, st, level) && st.toVisit != [] && st.toVisit[0] !in st.visited
    requires c in st.score && st.score[c].Fin? && c !in st.visited
    ensures st.score[st.toVisit[0]].d <= st.score[c].d
  {
    var j := FirstIndex(st.toVisit, c);
    if j > 0 {
      assert st.toVisit[j] !in st.toVisit[..j];
    }
  }

  /** A state with a head to take. */
  ghost predicate Ready(mz: Maze, st: SearchState)
  {
    Valid(mz) && Labelled(mz, st.score) && Frontier(mz, st) && st.toVisit != []
  }

  /** The conclusion of `FrontIsMin`, for every cell at once. */
  ghost predicate HeadIsMin(mz: Maze, st: SearchState)
    requires Ready(mz, st)
  {
    st.toVisit[0] !in st.visited ==>
      forall c :: c in st.score && st.score[c].Fin? && c !in st.visited ==> st.score[st.toVisit[0]].d <= st.score[c].d
  }

  lemma HeadIsMinHolds(mz: Maze, start: Cell, st: SearchState, level: nat)
    requires Inv(mz, start, st, level) && st.toVisit != []
    ensures Ready(mz, st) && HeadIsMin(mz, st)
  {
    if st.toVisit[0] !in st.visited {
      forall c | c in st.score && st.score[c].Fin? && c !in st.visited
        ensures st.score[st.toVisit[0]].d <= st.score[c].d
      {
        FrontIsMin(mz, start, st, level, c);
      }
    }
  }

  /** What one step does, in the terms the invariant needs: the head `x` is
      marked visited; finite labels stay; a label becomes finite only for a
      neighbour of an expanded first-time head, one step further; the rest of
      the queue is kept and the unvisited neighbours of an expanded head are
      appended. */
  ghost predicate StepRel(mz: Maze, st: SearchState, r: SearchState)
    requires Ready(mz, st)
  {
    var x := st.toVisit[0];
    var s := st.score[x];
    var n1 := |st.toVisit| - 1;
    var g := Expands(r.winner, r.best, s);
    && r.visited == st.visited + {x}
    && r.score.Keys == st.score.Keys
    && (r.winner, r.best) == TrackWinner(mz, x, s, st.winner, st.best)
    && (forall c :: c in st.score && st.score[c].Fin? ==> r.score[c] == st.score[c])
    && (forall c :: c in st.score && st.score[c].Inf? && r.score[c].Fin? ==>
          x !in st.visited && g && c in GetNeighbors(mz, x) && r.score[c] == Fin(s.d + 1))
    && (g ==> forall p :: p in GetNeighbors(mz, x) ==> InBounds(mz, p) && r.score[p].Fin? && r.score[p].d <= s.d + 1)
    && |r.toVisit| >= n1 && r.toVisit[..n1] == st.toVisit[1..]
    && (forall c :: c in r.toVisit[n1..] <==> g && c in GetNeighbors(mz, x) && c !in st.visited)
  }

  lemma StepRelHolds(mz: Maze, start: Cell, st: SearchState, level: nat)
    requires Inv(mz, start, st, level) && st.toVisit != []
    ensures Ready(mz, st) && StepRel(mz, st, Step(mz, st))
  {
    HeadBound(mz, start, st, level);
    StepLabels(mz, st);
    var x := st.toVisit[0];
    var r := Step(mz, st);
    if Expands(r.winner, r.best, st.score[x]) {
      forall p | p in GetNeighbors(mz, x)
        ensures InBounds(mz, p) && r.score[p].Fin? && r.score[p].d <= st.score[x].d + 1
      {
        assert InBounds(mz, p);
      }
    }
  }

  lemma KeepRooted(mz: Maze, start: Cell, st: SearchState, r: SearchState)
    requires Ready(mz, st) && Rooted(start, st.score) && Descending(mz, st.score) && StepRel(mz, st, r)
    ensures Labelled(mz, r.score) && Rooted(start, r.score) && Descending(mz, r.score)
  {
    var x := st.toVisit[0];
    forall c | c in r.score && r.score[c].Fin? && r.score[c].d > 0
      ensures HasPred(mz, r.score, c)
    {
      if st.score[c].Fin? {
        assert HasPred(mz, st.score, c);
        var p :| p in GetNeighbors(mz, c) && IsPred(st.score[p], st.score[c]);
        assert InBounds(mz, p);
        assert IsPred(r.score[p], r.score[c]);
      } else {
        NeighborsSymmetric(mz, x, c);
        assert IsPred(r.score[x], r.score[c]);
      }
    }
  }

  lemma KeepFrontier(mz: Maze, st: SearchState, r: SearchState)
    requires Ready(mz, st) && StepRel(mz, st, r)
    ensures Labelled(mz, r.score) && Frontier(mz, r)
  {
  }

  /** The level after a step: unchanged for a stale head, the head's label
      otherwise. */
  function NextLevel(st: SearchState, level: nat): nat
    requires st.toVisit != [] && st.toVisit[0] in st.score && st.score[st.toVisit[0]].Fin?
  {
    if st.toVisit[0] in st.visited then level else st.score[st.toVisit[0]].d
  }

  lemma KeepLevels(mz: Maze, st: SearchState, level: nat, r: SearchState)
    requires Ready(mz, st) && Levels(mz, st, level) && HeadIsMin(mz, st) && StepRel(mz, st, r)
    requires Labelled(mz, r.score) && Frontier(mz, r)
    ensures Levels(mz, r, NextLevel(st, level))
  {
  }

  lemma KeepOrdered(mz: Maze, st: SearchState, level: nat, r: SearchState)
    requires Ready(mz, st) && Ordered(mz, st) && StepRel(mz, st, r)
    requires Labelled(mz, r.score) && Frontier(mz, r) && Levels(mz, r, NextLevel(st, level))
    ensures Ordered(mz, r)
  {
    var rq := r.toVisit;
    forall i, j | 0 <= i < j < |rq| && rq[i] !in r.visited && rq[j] !in r.visited && rq[j] !in rq[..j]
      ensures r.score[rq[i]].d <= r.score[rq[j]].d
    {
      if j < |st.toVisit| - 1 {
        OrderedInTail(mz, st, level, r, i, j);
      } else {
        AppendedIsFresh(mz, st, r, j);
      }
    }
  }

  /** Two first occurrences that both come from the old tail keep their order. */
  lemma OrderedInTail(mz: Maze, st: SearchState, level: nat, r: SearchState, i: nat, j: nat)
    requires Ready(mz, st) && Ordered(mz, st) && StepRel(mz, st, r)
    requires Labelled(mz, r.score) && Frontier(mz, r)
    requires i < j < |st.toVisit| - 1
    requires r.toVisit[i] !in r.visited && r.toVisit[j] !in r.visited && r.toVisit[j] !in r.toVisit[..j]
    ensures r.score[r.toVisit[i]].d <= r.score[r.toVisit[j]].d
  {
    var x := st.toVisit[0];
    var q, rq := st.toVisit, r.toVisit;
    TailIndex(q, rq, i, j);
    assert st.score[q[i + 1]].d <= st.score[q[j + 1]].d;
  }

  /** Positions before `|q| - 1` in the new queue are the old tail, one place
      earlier; a first occurrence there is a first occurrence in the old queue
      too, unless it is the old head. */
  lemma TailIndex(q: seq<Cell>, rq: seq<Cell>, i: nat, j: nat)
    requires 1 <= |q| && i < j < |q| - 1 <= |rq| && rq[..|q| - 1] == q[1..]
    requires rq[j] != q[0] && rq[j] !in rq[..j]
    ensures rq[i] == q[i + 1] && rq[j] == q[j + 1] && q[j + 1] !in q[..j + 1]
  {
    assert q[..j + 1] == [q[0]] + rq[..j];
  }

  /** A first occurrence appended by this step was unreached before it: the
      head was taken for the first time and the cell now sits one past it. */
  lemma AppendedIsFresh(mz: Maze, st: SearchState, r: SearchState, j: nat)
    requires Ready(mz, st) && StepRel(mz, st, r)
    requires Labelled(mz, r.score) && Frontier(mz, r)
    requires |st.toVisit| - 1 <= j < |r.toVisit|
    requires r.toVisit[j] !in r.visited && r.toVisit[j] !in r.toVisit[..j]
    ensures st.toVisit[0] !in st.visited
    ensures r.score[r.toVisit[j]] == Fin(st.score[st.toVisit[0]].d + 1)
  {
    assert r.toVisit[j] in r.toVisit[|st.toVisit| - 1..];
    NotInPrefix(st.toVisit, r.toVisit, j, r.toVisit[j]);
  }

  /** A cell that is not the old head and does not occur before position `j`
      of the new queue, whose first `|q| - 1` entries are the old tail, does
      not occur in the old queue at all. */
  lemma NotInPrefix(q: seq<Cell>, rq: seq<Cell>, j: nat, c: Cell)
    requires 1 <= |q| && |q| - 1 <= j <= |rq| && rq[..|q| - 1] == q[1..]
    requires c != q[0] && c !in rq[..j]
    ensures c !in q
  {
    assert rq[..j][..|q| - 1] == q[1..];
    assert q == [q[0]] + q[1..];
  }

  lemma KeepClosed(mz: Maze, st: SearchState, r: SearchState)
    requires Ready(mz, st) && Closed(mz, st) && StepRel(mz, st, r)
    requires Labelled(mz, r.score) && Frontier(mz, r)
    ensures Closed(mz, r)
  {
  }

  lemma KeepWinner(mz: Maze, st: SearchState, level: nat, r: SearchState)
    requires Ready(mz, st) && Levels(mz, st, level) && WinnerOk(mz, st) && StepRel(mz, st, r)
    requires Labelled(mz, r.score) && Frontier(mz, r)
    ensures WinnerOk(mz, r)
  {
  }

  /** One round of the loop preserves the invariant, at the next level. */
  lemma StepPreserves(mz: Maze, start: Cell, st: SearchState, level: nat) returns (next: nat)
    requires Inv(mz, start, st, level) && st.toVisit != []
    ensures Inv(mz, start, Step(mz, st), next)
  {
    var r := Step(mz, st);
    StepRelHolds(mz, start, st, level);
    HeadIsMinHolds(mz, start, st, level);
    KeepRooted(mz, start, st, r);
    KeepFrontier(mz, st, r);
    next := NextLevel(st, level);
    KeepLevels(mz, st, level, r);
    KeepOrdered(mz, st, level, r);
    KeepClosed(mz, st, r);
    KeepWinner(mz, st, level, r);
  }

  /** Each round either visits a new cell or consumes a stale queue entry,
      so the loop terminates even though cells are queued more than once. */
  lemma StepProgress(mz: Maze, st: SearchState, r: SearchState)
    requires Ready(mz, st) && StepRel(mz, st, r)
    ensures || AllCells(mz) - r.visited < AllCells(mz) - st.visited
            || (r.visited == st.visited && StaleCount(r.toVisit, r.visited) < StaleCount(st.toVisit, st.visited))
  {
    var x := st.toVisit[0];
    if x in st.visited {
      var n1 := |st.toVisit| - 1;
      var added := r.toVisit[n1..];
      assert r.toVisit == st.toVisit[1..] + added;
      assert st.toVisit == [x] + st.toVisit[1..];
      StaleAppend(st.toVisit[1..], added, st.visited);
      StaleAppend([x], st.toVisit[1..], st.visited);
      StaleNone(added, st.visited);
      assert StaleCount([x], st.visited) == 1 by {
        assert [x][1..] == [];
      }
      assert r.visited == st.visited;
    } else {
      assert x in AllCells(mz) - st.visited;
    }
  }

  // ---------------------------------------------------------------------
  // What the labels mean once the queue is empty.

  /** The labels, winner and best label left when the queue runs empty: every
      reached cell is settled, no reached bottom-row cell beats `best`, and the
      winner carries `best`. */
  ghost predicate Done(mz: Maze, start: Cell, score: map<Cell, Label>, winner: Option<Cell>, best: Label)
  {
    && Valid(mz) && InBounds(mz, start) && Labelled(mz, score)
    && Rooted(start, score) && Descending(mz, score)
    && (forall c :: c in score && score[c].Fin? ==> Settled(mz, score, best, c))
    && (forall c :: c in score && score[c].Fin? && OnBottom(mz, c) ==> !Less(score[c], best))
    && (winner.None? <==> best.Inf?)
    && (winner.Some? ==> winner.value in score && OnBottom(mz, winner.value) && score[winner.value] == best)
    && (best.Fin? ==> forall c :: c in score && score[c].Fin? ==> score[c].d <= best.d + 1)
  }

  lemma Finished(mz: Maze, start: Cell, st: SearchState, level: nat)
    requires Inv(mz, start, st, level) && st.toVisit == []
    ensures Done(mz, start, st.score, st.winner, st.best)
    ensures forall c :: c in st.score && st.score[c].Fin? ==> c in st.visited
  {
  }

  /** Along any walk from the start, the last cell is reached within the
      walk's number of steps, unless a bottom-row label below that number had
      already stopped the expansion. */
  lemma {:induction false} WalkBound(mz: Maze, start: Cell, score: map<Cell, Label>, winner: Option<Cell>, best: Label, w: seq<Cell>)
    requires Done(mz, start, score, winner, best) && IsWalk(mz, w) && w[0] == start
    ensures || (score[w[|w| - 1]].Fin? && score[w[|w| - 1]].d <= |w| - 1)
            || (best.Fin? && best.d < |w| - 1)
  {
    if |w| > 1 {
      var u := w[..|w| - 1];
      assert IsWalk(mz, u) by {
        assert forall k :: 0 <= k < |u| ==> u[k] == w[k];
      }
      WalkBound(mz, start, score, winner, best, u);
      var a, c := w[|w| - 2], w[|w| - 1];
      assert Open(mz, a, c);
      if score[a].Fin? && score[a].d <= |w| - 2 {
        assert Settled(mz, score, best, a);
      }
    }
  }

  /** A walk from `a` to `b` with `d` steps exists, and none is shorter. */
  ghost predicate IsDistance(mz: Maze, a: Cell, b: Cell, d: nat)
    requires Valid(mz)
  {
    && (exists w :: Connects(mz, w, a, b) && |w| == d + 1)
    && (forall w :: Connects(mz, w, a, b) ==> d <= |w| - 1)
  }

  /** Some walk from `a` ends on the bottom row. */
  ghost predicate ReachesBottom(mz: Maze, a: Cell)
    requires Valid(mz)
  {
    exists w :: IsWalk(mz, w) && w[0] == a && OnBottom(mz, w[|w| - 1])
  }

  /** Every finite label is the exact walk distance from the start: the
      first-choice descent read backwards is a walk of that many steps, and no
      walk is shorter. */
  lemma LabelIsDistance(mz: Maze, start: Cell, score: map<Cell, Label>, winner: Option<Cell>, best: Label, c: Cell)
    requires Done(mz, start, score, winner, best) && c in score && score[c].Fin?
    ensures IsDistance(mz, start, c, score[c].d)
  {
    var down := DescentPath(mz, score, c);
    assert score[down[|down| - 1]] == Fin(0);
    ReverseConnects(mz, down, c, start);
    forall w | Connects(mz, w, start, c)
      ensures score[c].d <= |w| - 1
    {
      WalkBound(mz, start, score, winner, best, w);
    }
  }

  /** The winner's label is the least number of steps from the start to the
      bottom row, and there is no winner exactly when no walk gets there. */
  lemma WinnerIsNearest(mz: Maze, start: Cell, score: map<Cell, Label>, winner: Option<Cell>, best: Label)
    requires Done(mz, start, score, winner, best)
    ensures winner.Some? ==>
              forall w :: IsWalk(mz, w) && w[0] == start && OnBottom(mz, w[|w| - 1]) ==> score[winner.value].d <= |w| - 1
    ensures winner.None? <==> !ReachesBottom(mz, start)
  {
    forall w | IsWalk(mz, w) && w[0] == start && OnBottom(mz, w[|w| - 1])
      ensures best.Fin? && best.d <= |w| - 1
    {
      WalkBound(mz, start, score, winner, best, w);
    }
    if winner.Some? {
      var v := winner.value;
      LabelIsDistance(mz, start, score, winner, best, v);
      var w :| Connects(mz, w, start, v) && |w| == score[v].d + 1;
      assert IsWalk(mz, w) && w[0] == start && OnBottom(mz, w[|w| - 1]);
    }
  }

  /** Neighbouring reached cells have labels at most one apart: a settled
      cell bounds its neighbours, and an unsettled one sits at or above
      `best`, which bounds every label from below by one. */
  lemma DoneLabelsClose(mz: Maze, start: Cell, score: map<Cell, Label>, winner: Option<Cell>, best: Label)
    requires Done(mz, start, score, winner, best)
    ensures AdjacentLabelsClose(mz, score)
  {
  }

  /** With a single row the start is on the bottom row, so it wins at once. */
  lemma SingleRowWins(mz: Maze, start: Cell, score: map<Cell, Label>, winner: Option<Cell>, best: Label)
    requires Done(mz, start, score, winner, best) && mz.n == 1 && start.row == 0
    ensures winner == Some(start)
  {
  }

  /** A start column without horizontal walls leads straight down, and no
      walk to the bottom row is shorter: the winner is `n - 1` steps away. */
  lemma OpenColumnDistance(mz: Maze, start: Cell, score: map<Cell, Label>, winner: Option<Cell>, best: Label)
    requires Done(mz, start, score, winner, best) && start.row == 0
    requires forall i :: 0 <= i < mz.n - 1 ==> !mz.horizontal[i][start.col]
    ensures winner.Some? && score[winner.value] == Fin(mz.n - 1)
  {
    var column := seq(mz.n, i => Cell(i, start.col));
    ColumnIsWalk(mz, start.col);
    assert column[0] == start && OnBottom(mz, column[|column| - 1]);
    WinnerIsNearest(mz, start, score, winner, best);
    var v := winner.value;
    LabelIsDistance(mz, start, score, winner, best, v);
    var w :| Connects(mz, w, start, v) && |w| == score[v].d + 1;
    WalkRowBound(mz, w);
  }

  /** With every horizontal wall closed and more than one row, no walk leaves
      the top row, so there is no winner. */
  lemma ClosedFloorNoWinner(mz: Maze, start: Cell, score: map<Cell, Label>, winner: Option<Cell>, best: Label)
    requires Done(mz, start, score, winner, best) && start.row == 0 && mz.n > 1
    requires forall i, j :: 0 <= i < mz.n - 1 && 0 <= j < mz.m ==> mz.horizontal[i][j]
    ensures winner.None?
  {
    WinnerIsNearest(mz, start, score, winner, best);
    if ReachesBottom(mz, start) {
      var w :| IsWalk(mz, w) && w[0] == start && OnBottom(mz, w[|w| - 1]);
      WalkStaysInRow(mz, w);
    }
  }

  /** Everything the final labels and winner guarantee, collected. */
  lemma Outcome(mz: Maze, start: Cell, score: map<Cell, Label>, winner: Option<Cell>, best: Label)
    requires Done(mz, start, score, winner, best) && start.row == 0
    ensures forall c :: c in score && score[c].Fin? ==> IsDistance(mz, start, c, score[c].d)
    ensures AdjacentLabelsClose(mz, score)
    ensures winner.None? <==> !ReachesBottom(mz, start)
    ensures winner.Some? ==>
              forall w :: IsWalk(mz, w) && w[0] == start && OnBottom(mz, w[|w| - 1]) ==> score[winner.value].d <= |w| - 1
    ensures winner.None? ==> forall w :: IsWalk(mz, w) && w[0] == start ==> score[w[|w| - 1]].Fin?
    ensures mz.n == 1 ==> winner == Some(start)
    ensures (forall i :: 0 <= i < mz.n - 1 ==> !mz.horizontal[i][start.col]) ==>
              winner.Some? && score[winner.value] == Fin(mz.n - 1)
    ensures mz.n > 1 && (forall i, j :: 0 <= i < mz.n - 1 && 0 <= j < mz.m ==> mz.horizontal[i][j]) ==> winner.None?
  {
    forall c | c in score && score[c].Fin?
      ensures IsDistance(mz, start, c, score[c].d)
    {
      LabelIsDistance(mz, start, score, winner, best, c);
    }
    WinnerIsNearest(mz, start, score, winner, best);
    DoneLabelsClose(mz, start, score, winner, best);
    if winner.None? {
      forall w | IsWalk(mz, w) && w[0] == start
        ensures score[w[|w| - 1]].Fin?
      {
        WalkBound(mz, start, score, winner, best, w);
      }
    }
    if mz.n == 1 {
      SingleRowWins(mz, start, score, winner, best);
    }
    if forall i :: 0 <= i < mz.n - 1 ==> !mz.horizontal[i][start.col] {
      OpenColumnDistance(mz, start, score, winner, best);
    }
    if mz.n > 1 && forall i, j :: 0 <= i < mz.n - 1 && 0 <= j < mz.m ==> mz.horizontal[i][j] {
      ClosedFloorNoWinner(mz, start, score, winner, best);
    }
  }

  /** `breadth_first_search`. The start column is a parameter (`main.py`
      draws it at random). Returns the start, the winner, the label map and
      the path `get_path` reconstructs from the winner. */
  method BreadthFirstSearch(mz: Maze, startCol: int) returns (start: Cell, winner: Option<Cell>, score: map<Cell, Label>, winningPath: seq<Cell>)
    requires Valid(mz) && 0 <= startCol < mz.m
    ensures start == Cell(0, startCol)
    ensures Labelled(mz, score) && score[start] == Fin(0)
    ensures forall c :: c in score && score[c].Fin? ==> IsDistance(mz, start, c, score[c].d)
    ensures Descending(mz, score) && AdjacentLabelsClose(mz, score)
    ensures winner.None? <==> !ReachesBottom(mz, start)
    ensures winner.Some? ==>
              && winner.value in score && OnBottom(mz, winner.value) && score[winner.value].Fin?
              && forall w :: IsWalk(mz, w) && w[0] == start && OnBottom(mz, w[|w| - 1]) ==> score[winner.value].d <= |w| - 1
    ensures winner.None? ==> winningPath == []
    ensures winner.Some? ==> Connects(mz, winningPath, winner.value, start) && |winningPath| == score[winner.value].d + 1
    ensures winner.None? ==> forall w :: IsWalk(mz, w) && w[0] == start ==> score[w[|w| - 1]].Fin?
    ensures mz.n == 1 ==> winner == Some(start)
    ensures (forall i :: 0 <= i < mz.n - 1 ==> !mz.horizontal[i][startCol]) ==>
              winner.Some? && score[winner.value] == Fin(mz.n - 1)
    ensures mz.n > 1 && (forall i, j :: 0 <= i < mz.n - 1 && 0 <= j < mz.m ==> mz.horizontal[i][j]) ==> winner.None?
  {
    start := Cell(0, startCol);
    var st := Initial(mz, start);
    ghost var level: nat := 0;
    InitialInv(mz, start);
    while st.toVisit != []
      invariant Inv(mz, start, st, level)
      decreases AllCells(mz) - st.visited, StaleCount(st.toVisit, st.visited)
    {
      StepRelHolds(mz, start, st, level);
      StepProgress(mz, st, Step(mz, st));
      level := StepPreserves(mz, start, st, level);
      st := Step(mz, st);
    }
    Finished(mz, start, st, level);
    winner, score := st.winner, st.score;
    Outcome(mz, start, score, winner, st.best);
    winningPath := [];
    if winner.Some? {
      winningPath := GetPath(mz, score, winner);
      GetPathIsFirstChoice(mz, score, winner.value);
      assert score[winningPath[|winningPath| - 1]] == Fin(0);
    }
  }
}
