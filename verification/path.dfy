/** Backward path reconstruction (`Maze.get_path`): from the winner, step to a
    neighbour whose label is one lower until a label-0 cell is reached. */
module Path {
  import opened Grid
  import opened Score

  /** A label map that has an entry for every cell, as the search's matrix does. */
  ghost predicate Labelled(mz: Maze, score: map<Cell, Label>)
  {
    forall c :: c in score <==> InBounds(mz, c)
  }

  /** Every cell of `cells` has a label. */
  predicate Within(cells: seq<Cell>, score: map<Cell, Label>)
  {
    forall c :: c in cells ==> c in score
  }

  /** A reconstruction in progress: a non-empty path of labelled cells whose
      last cell is `current`. */
  predicate EndsAt(path: seq<Cell>, current: Cell, score: map<Cell, Label>)
  {
    |path| >= 1 && path[|path| - 1] == current && Within(path, score)
  }

  lemma NeighborsLabelled(mz: Maze, score: map<Cell, Label>, c: Cell)
    requires Valid(mz) && Labelled(mz, score) && InBounds(mz, c)
    ensures Within(GetNeighbors(mz, c), score)
  {
  }

  /** `score[point] == score[current] - 1` on float labels. Since
      `inf - 1 == inf`, an unreached point qualifies against an unreached
      current; a finite label never equals `0 - 1`. */
  predicate IsPred(a: Label, b: Label)
  {
    match b
    case Inf => a.Inf?
    case Fin(y) => a.Fin? && a.d + 1 == y
  }

  /** `score[point] == score[current] - 1` holds exactly when
      `score[point] + 1 == score[current]`, the relaxation the search performs. */
  lemma IsPredIsSuccInverse(a: Label, b: Label)
    ensures IsPred(a, b) <==> Succ(a) == b
  {
  }

  /** Every cell with a finite positive label has a neighbour one step closer;
      this is what keeps the reconstruction loop from spinning forever. */
  ghost predicate Descending(mz: Maze, score: map<Cell, Label>)
    requires Valid(mz) && Labelled(mz, score)
  {
    forall c {:trigger HasPred(mz, score, c)} :: c in score && score[c].Fin? && score[c].d > 0 ==> HasPred(mz, score, c)
  }

  /** Cell `c` has a neighbour whose label is one below its own. */
  ghost predicate HasPred(mz: Maze, score: map<Cell, Label>, c: Cell)
    requires Valid(mz) && Labelled(mz, score) && c in score
  {
    exists p :: p in GetNeighbors(mz, c) && IsPred(score[p], score[c])
  }

  /** Labels of neighbouring reached cells differ by at most one. */
  ghost predicate AdjacentLabelsClose(mz: Maze, score: map<Cell, Label>)
    requires Valid(mz) && Labelled(mz, score)
  {
    forall a, b :: Open(mz, a, b) && score[a].Fin? && score[b].Fin? ==> score[a].d <= score[b].d + 1
  }

  /** One pass of the inner `for` loop over the neighbours of the cell being
      left. A qualifying point is appended and becomes `current`, and the loop
      goes on: later points are compared against the NEW current. The result is
      the final `current` and path. */
  function ScanNeighbors(score: map<Cell, Label>, nbrs: seq<Cell>, current: Cell, path: seq<Cell>): (r: (Cell, seq<Cell>))
    requires Within(nbrs, score)
    requires EndsAt(path, current, score)
    ensures |r.1| >= |path| && r.1[..|path|] == path && r.1[|r.1| - 1] == r.0
    ensures Within(r.1, score)
    ensures forall k :: |path| <= k < |r.1| ==> r.1[k] in nbrs
    ensures score[current].Fin? ==> forall k :: |path| <= k < |r.1| ==>
              score[r.1[k]].Fin? && score[r.1[k]].d + (k - |path| + 1) == score[current].d
    ensures score[current].Inf? ==> forall k :: |path| <= k < |r.1| ==> score[r.1[k]].Inf?
    ensures (exists c :: c in nbrs && IsPred(score[c], score[current])) ==> |r.1| > |path|
    decreases |nbrs|
  {
    if nbrs == [] then (current, path)
    else
      var point := nbrs[0];
      if IsPred(score[point], score[current]) then
        ScanNeighbors(score, nbrs[1..], point, path + [point])
      else
        ScanNeighbors(score, nbrs[1..], current, path)
  }

  /** The outer `while score[current] > 0` loop. */
  function Descend(mz: Maze, score: map<Cell, Label>, current: Cell, path: seq<Cell>): (r: seq<Cell>)
    requires Valid(mz) && Labelled(mz, score) && Descending(mz, score)
    requires current in score && score[current].Fin?
    requires EndsAt(path, current, score)
    ensures |r| == |path| + score[current].d && r[..|path|] == path
    ensures Within(r, score)
    ensures forall k :: |path| <= k < |r| ==> score[r[k]].Fin? && score[r[k]].d + (k - |path| + 1) == score[current].d
    decreases score[current].d
  {
    if score[current].d == 0 then path
    else
      var nbrs := GetNeighbors(mz, current);
      NeighborsLabelled(mz, score, current);
      assert HasPred(mz, score, current);
      var next := ScanNeighbors(score, nbrs, current, path);
      var r := Descend(mz, score, next.0, next.1);
      assert r[..|next.1|] == next.1;
      assert forall k :: 0 <= k < |next.1| ==> r[k] == next.1[k];
      r
  }

  /** `get_path`: `[]` for the "no winner" sentinel; otherwise the cells from the
      winner down to a label-0 cell, each label one below the previous one. */
  function GetPath(mz: Maze, score: map<Cell, Label>, point: Option<Cell>): (r: seq<Cell>)
    requires Valid(mz) && Labelled(mz, score)
    requires point.Some? ==> point.value in score && score[point.value].Fin? && Descending(mz, score)
    ensures point.None? ==> r == []
    ensures point.Some? ==>
              && |r| == score[point.value].d + 1
              && r[0] == point.value
              && (Within(r, score))
              && (forall k :: 0 <= k < |r| ==> score[r[k]].Fin? && score[r[k]].d + k == score[point.value].d)
  {
    match point
    case None => []
    case Some(w) => Descend(mz, score, w, [w])
  }

  /** Index of the first point of `nbrs` whose label is one below `current`,
      or `|nbrs|` when there is none. */
  function FirstPred(score: map<Cell, Label>, nbrs: seq<Cell>, current: Label): (k: nat)
    requires Within(nbrs, score)
    ensures k <= |nbrs|
    ensures k < |nbrs| ==> IsPred(score[nbrs[k]], current)
    ensures forall j :: 0 <= j < k ==> !IsPred(score[nbrs[j]], current)
  {
    if nbrs == [] then 0
    else if IsPred(score[nbrs[0]], current) then 0
    else 1 + FirstPred(score, nbrs[1..], current)
  }

  /** Reference reconstruction: at every step take the FIRST qualifying
      neighbour in `get_neighbors` order. It is a walk that goes down the
      labels one at a time and ends on label 0. */
  function DescentPath(mz: Maze, score: map<Cell, Label>, c: Cell): (r: seq<Cell>)
    requires Valid(mz) && Labelled(mz, score) && Descending(mz, score)
    requires c in score && score[c].Fin?
    ensures |r| == score[c].d + 1 && r[0] == c
    ensures IsWalk(mz, r)
    ensures forall k :: 0 <= k < |r| ==> r[k] in score && score[r[k]].Fin? && score[r[k]].d + k == score[c].d
    decreases score[c].d
  {
    if score[c].d == 0 then [c]
    else
      var nbrs := GetNeighbors(mz, c);
      NeighborsLabelled(mz, score, c);
      assert HasPred(mz, score, c);
      var k := FirstPred(score, nbrs, score[c]);
      assert k < |nbrs| by {
        var p :| p in nbrs && IsPred(score[p], score[c]);
        var j :| 0 <= j < |nbrs| && nbrs[j] == p;
      }
      var next := nbrs[k];
      var rest := DescentPath(mz, score, next);
      var r := [c] + rest;
      assert forall i :: 1 <= i < |r| ==> r[i] == rest[i - 1];
      assert Open(mz, r[0], r[1]);
      assert forall i :: 1 <= i < |r| - 1 ==> Open(mz, r[i], r[i + 1]) by {
        forall i | 1 <= i < |r| - 1 ensures Open(mz, r[i], r[i + 1]) {
          assert r[i] == rest[i - 1] && r[i + 1] == rest[i];
        }
      }
      r
  }

  /** The scan changes nothing when no point qualifies against `current`. */
  lemma {:induction false} ScanNoMatch(score: map<Cell, Label>, nbrs: seq<Cell>, current: Cell, path: seq<Cell>)
    requires Within(nbrs, score)
    requires EndsAt(path, current, score)
    requires forall c :: c in nbrs ==> !IsPred(score[c], score[current])
    ensures ScanNeighbors(score, nbrs, current, path) == (current, path)
    decreases |nbrs|
  {
    if nbrs != [] {
      ScanNoMatch(score, nbrs[1..], current, path);
    }
  }

  /** When no point of the list lies two or more below `current`, the scan
      appends exactly the first qualifying point and then stops moving: the
      `continue` at the end of the loop body never matters. */
  lemma {:induction false} ScanTakesFirst(score: map<Cell, Label>, nbrs: seq<Cell>, current: Cell, path: seq<Cell>)
    requires Within(nbrs, score)
    requires EndsAt(path, current, score)
    requires score[current].Fin?
    requires forall c :: c in nbrs && score[c].Fin? ==> score[current].d <= score[c].d + 1
    requires FirstPred(score, nbrs, score[current]) < |nbrs|
    ensures var p := nbrs[FirstPred(score, nbrs, score[current])];
            ScanNeighbors(score, nbrs, current, path) == (p, path + [p])
    decreases |nbrs|
  {
    var point := nbrs[0];
    if IsPred(score[point], score[current]) {
      forall c | c in nbrs[1..]
        ensures !IsPred(score[c], score[point])
      {
        assert c in nbrs;
      }
      ScanNoMatch(score, nbrs[1..], point, path + [point]);
    } else {
      ScanTakesFirst(score, nbrs[1..], current, path);
    }
  }

  /** One round of the outer loop under consistent labels: both the
      as-written loop and the reference move to the same neighbour `p`. */
  lemma FirstChoiceStep(mz: Maze, score: map<Cell, Label>, current: Cell, path: seq<Cell>) returns (p: Cell)
    requires Valid(mz) && Labelled(mz, score) && Descending(mz, score) && AdjacentLabelsClose(mz, score)
    requires current in score && score[current].Fin? && score[current].d > 0
    requires EndsAt(path, current, score)
    ensures p in score && score[p].Fin? && score[p].d + 1 == score[current].d
    ensures Descend(mz, score, current, path) == Descend(mz, score, p, path + [p])
    ensures DescentPath(mz, score, current) == [current] + DescentPath(mz, score, p)
  {
    var nbrs := GetNeighbors(mz, current);
    NeighborsLabelled(mz, score, current);
    assert HasPred(mz, score, current);
    var k := FirstPred(score, nbrs, score[current]);
    assert k < |nbrs| by {
      var q :| q in nbrs && IsPred(score[q], score[current]);
      var j :| 0 <= j < |nbrs| && nbrs[j] == q;
    }
    p := nbrs[k];
    forall c | c in nbrs && score[c].Fin?
      ensures score[current].d <= score[c].d + 1
    {
      assert Open(mz, current, c);
    }
    ScanTakesFirst(score, nbrs, current, path);
  }

  /** The as-written outer loop follows the first-choice reference path. */
  lemma {:induction false} DescendIsFirstChoice(mz: Maze, score: map<Cell, Label>, current: Cell, path: seq<Cell>)
    requires Valid(mz) && Labelled(mz, score) && Descending(mz, score) && AdjacentLabelsClose(mz, score)
    requires current in score && score[current].Fin?
    requires EndsAt(path, current, score)
    ensures Descend(mz, score, current, path) == path + DescentPath(mz, score, current)[1..]
    decreases score[current].d
  {
    if score[current].d > 0 {
      var p := FirstChoiceStep(mz, score, current, path);
      DescendIsFirstChoice(mz, score, p, path + [p]);
      ShiftHead(path, current, DescentPath(mz, score, p));
    }
  }

  /** Moving the head of a tail onto the prefix. */
  lemma ShiftHead(path: seq<Cell>, current: Cell, rest: seq<Cell>)
    requires |rest| >= 1
    ensures path + ([current] + rest)[1..] == (path + [rest[0]]) + rest[1..]
  {
  }

  /** With consistent labels, `get_path` returns the first-choice descent,
      which is a walk from the winner down to a label-0 cell. */
  lemma GetPathIsFirstChoice(mz: Maze, score: map<Cell, Label>, w: Cell)
    requires Valid(mz) && Labelled(mz, score) && Descending(mz, score) && AdjacentLabelsClose(mz, score)
    requires w in score && score[w].Fin?
    ensures GetPath(mz, score, Some(w)) == DescentPath(mz, score, w)
    ensures IsWalk(mz, GetPath(mz, score, Some(w)))
  {
    DescendIsFirstChoice(mz, score, w, [w]);
  }
}
