/** The g7 player's per-turn move decision: choosing a target cell, turning
    the first step of a planned path into a move, and, when there is no path,
    a breadth-first exploration walk over the cells the memory knows.

    The player memory's collaborators are parameters here: the door-validity
    check is a predicate `valid(pos, direction, doorState)` over the percept's
    door state, and the graph builder plus shortest-path search plus path
    reconstruction together are a function `plan(pos, turn, target)` that
    yields a sequence of cells (an empty one when there is no path). */
module G7Player {
  import opened Wrappers
  import opened Grid
  import opened RowMajor
  import opened Direction

  /** What the player reads from the game's percept: whether the goal is
      visible, the goal's coordinates, and the door state, which only the
      validity check looks at. */
  datatype Percept<D> = Percept(isEndVisible: bool, endX: int, endY: int, mazeState: D)

  /** The memory's `is_move_valid`, judged from the position given first. */
  type Validity<!D> = (Cell, int, D) -> bool

  /** The search from (position, turn) to a target cell, ending in the reconstructed path. */
  type Planner = (Cell, nat, Cell) -> seq<Cell>

  /** A cell of the memory grid that is known but has not been visited. */
  predicate IsUnexplored(c: Cell, rows: nat, cols: nat, known: set<Cell>, visited: set<Cell>) {
    0 <= c.y < rows && 0 <= c.x < cols && c in known && c !in visited
  }

  /** An acceptable intermediate target: an unexplored cell if there is one,
      and otherwise the agent's own position. */
  ghost predicate IsIntermediateTarget(t: Cell, pos: Cell, rows: nat, cols: nat, known: set<Cell>, visited: set<Cell>) {
    if exists c :: IsUnexplored(c, rows, cols, known, visited)
    then IsUnexplored(t, rows, cols, known, visited)
    else t == pos
  }

  /** Direction `d` is open from `pos` and leads to a cell not visited yet. */
  predicate OpensToUnvisited<D>(valid: Validity<D>, doors: D, pos: Cell, visited: set<Cell>, d: int) {
    IsDirection(d) && valid(pos, d, doors) && Step(pos, d) !in visited
  }

  /** Direction `d` out of `c` leaves the walk nothing to do: the neighbour
      is visited or already reached, or the check (judged from `pos`) refuses
      `d` and the memory does not know the neighbour, so it is neither taken
      nor queued. */
  predicate Settled<D>(valid: Validity<D>, doors: D, pos: Cell, known: set<Cell>, visited: set<Cell>,
                       reached: set<Cell>, c: Cell, d: int) {
    var n := Step(c, d);
    n in visited || n in reached || (!valid(pos, d, doors) && n !in known)
  }

  /** The cells of a sequence. */
  function Elements(s: seq<Cell>): set<Cell> {
    set c | c in s
  }

  lemma ElementsConcat(a: seq<Cell>, b: seq<Cell>)
    ensures Elements(a + b) == Elements(a) + Elements(b)
  {
  }

  /** The cells the walk has reached: its start and every cell it queued. */
  function Reached(start: Cell, enqueued: seq<Cell>): set<Cell> {
    {start} + Elements(enqueued)
  }

  /** Queuing `added` reaches exactly its cells on top of the ones reached before. */
  lemma ReachedGrows(start: Cell, enqueued: seq<Cell>, added: seq<Cell>)
    ensures Reached(start, enqueued) + Elements(added) == Reached(start, enqueued + added)
  {
    ElementsConcat(enqueued, added);
  }

  /** What the exploration walk keeps true of its queue: every queued cell is
      the start or a known, unvisited cell; every cell it has queued is marked
      in its local visited set, is not the start, and was queued only once. */
  ghost predicate WalkFrontier(start: Cell, known: set<Cell>, visited: set<Cell>,
                               queue: seq<Cell>, localVisited: set<Cell>, enqueued: seq<Cell>) {
    && start in localVisited
    && (forall k :: 0 <= k < |queue| ==> queue[k] == start || (queue[k] in known && queue[k] !in visited))
    && (forall k :: 0 <= k < |enqueued| ==>
          enqueued[k] in localVisited && enqueued[k] in known && enqueued[k] !in visited && enqueued[k] != start)
    && (forall i, j :: 0 <= i < j < |enqueued| ==> enqueued[i] != enqueued[j])
  }

  /** How the walk queued its cells: `enqueued[k]` is the neighbour, through
      the direction `qdirs[k]` that the check refuses, of the cell at position
      `pidx[k]` of the queue order `[start] + enqueued`, which comes before
      it. Parents appear in queue order, and the cells queued from one parent
      appear in direction order (LEFT, UP, RIGHT, DOWN). */
  ghost predicate QueueRecord<D>(valid: Validity<D>, doors: D, start: Cell,
                                 enqueued: seq<Cell>, pidx: seq<nat>, qdirs: seq<int>) {
    && |pidx| == |enqueued| && |qdirs| == |enqueued|
    && (forall k :: 0 <= k < |enqueued| ==>
          pidx[k] <= k && IsDirection(qdirs[k]) && !valid(start, qdirs[k], doors) &&
          enqueued[k] == Step(([start] + enqueued)[pidx[k]], qdirs[k]))
    && (forall i, j :: 0 <= i < j < |enqueued| ==>
          pidx[i] <= pidx[j] && (pidx[i] == pidx[j] ==> qdirs[i] < qdirs[j]))
  }

  /** The cells the walk had reached when it finished scanning the cell at
      position `i` of the queue order: the start and every cell queued by
      that scan or an earlier one. */
  ghost function ReachedAt(start: Cell, enqueued: seq<Cell>, pidx: seq<nat>, i: nat): set<Cell>
    requires |pidx| == |enqueued|
  {
    {start} + set k | 0 <= k < |enqueued| && pidx[k] <= i :: enqueued[k]
  }

  /** The walk's history: the cells it has scanned without finding a move,
      followed by its queue, are the start and then the queued cells in
      queue order; every queued cell was queued from a scanned cell, as the
      record says; and every direction out of a scanned cell was settled
      when that cell's scan ended. */
  ghost predicate WalkHistory<D>(valid: Validity<D>, doors: D, start: Cell, known: set<Cell>, visited: set<Cell>,
                                 scanned: seq<Cell>, queue: seq<Cell>,
                                 enqueued: seq<Cell>, pidx: seq<nat>, qdirs: seq<int>) {
    && scanned + queue == [start] + enqueued
    && QueueRecord(valid, doors, start, enqueued, pidx, qdirs)
    && (forall k :: 0 <= k < |pidx| ==> pidx[k] < |scanned|)
    && (forall i, d :: 0 <= i < |scanned| && IsDirection(d) ==>
          Settled(valid, doors, start, known, visited, ReachedAt(start, enqueued, pidx, i), scanned[i], d))
  }

  /** Marking `added` cells, all known, new and distinct, as reached removes
      exactly that many cells from the known but unreached ones: the walk's
      termination measure. */
  lemma {:induction false} FreshCellsShrinkUnreached(known: set<Cell>, reached: set<Cell>, added: seq<Cell>)
    requires forall k :: 0 <= k < |added| ==> added[k] in known && added[k] !in reached
    requires forall i, j :: 0 <= i < j < |added| ==> added[i] != added[j]
    ensures |known - (reached + Elements(added))| + |added| == |known - reached|
  {
    if added != [] {
      var last := added[|added| - 1];
      var init := added[..|added| - 1];
      FreshCellsShrinkUnreached(known, reached, init);
      assert Elements(added) == Elements(init) + {last};
      assert last !in Elements(init);
      assert known - (reached + Elements(added)) == (known - (reached + Elements(init))) - {last};
    }
  }

  /** One popped cell's scan keeps the walk's frontier facts and lowers its
      termination measure: the newly queued cells replace the popped one. */
  lemma FrontierAfterScan(start: Cell, known: set<Cell>, visited: set<Cell>, current: Cell,
                          rest: seq<Cell>, reached: set<Cell>, enqueued: seq<Cell>, added: seq<Cell>)
    requires WalkFrontier(start, known, visited, [current] + rest, reached, enqueued)
    requires forall k :: 0 <= k < |added| ==> added[k] in known && added[k] !in visited && added[k] !in reached
    requires forall i, j :: 0 <= i < j < |added| ==> added[i] != added[j]
    ensures WalkFrontier(start, known, visited, rest + added, reached + Elements(added), enqueued + added)
    ensures |known - (reached + Elements(added))| + |rest + added| < |known - reached| + |[current] + rest|
  {
    FreshCellsShrinkUnreached(known, reached, added);
    var queue := [current] + rest;
    assert forall k :: 0 <= k < |rest| ==> rest[k] == queue[k + 1];
  }

  /** The parent positions after one scan, at position `s`, queued `count` more cells. */
  ghost function WithParent(pidx: seq<nat>, count: nat, s: nat): (r: seq<nat>)
    ensures |r| == |pidx| + count
    ensures forall k :: 0 <= k < |pidx| ==> r[k] == pidx[k]
    ensures forall k :: |pidx| <= k < |r| ==> r[k] == s
  {
    pidx + seq(count, _ => s)
  }

  /** A scan of the cell at position `s` of the queue order appends its
      queued cells, in direction order, to the record, with `s` as their
      parent position. */
  lemma RecordAfterScan<D>(valid: Validity<D>, doors: D, start: Cell, current: Cell, s: nat,
                           enqueued: seq<Cell>, pidx: seq<nat>, qdirs: seq<int>, added: seq<Cell>, dirs: seq<int>)
    requires QueueRecord(valid, doors, start, enqueued, pidx, qdirs)
    requires s <= |enqueued| && ([start] + enqueued)[s] == current
    requires forall k :: 0 <= k < |pidx| ==> pidx[k] < s
    requires |dirs| == |added|
    requires forall k :: 0 <= k < |added| ==>
      IsDirection(dirs[k]) && added[k] == Step(current, dirs[k]) && !valid(start, dirs[k], doors)
    requires forall i, j :: 0 <= i < j < |dirs| ==> dirs[i] < dirs[j]
    ensures QueueRecord(valid, doors, start, enqueued + added, WithParent(pidx, |added|, s), qdirs + dirs)
  {
    RecordEntriesAfterScan(valid, doors, start, current, s, enqueued, pidx, qdirs, added, dirs);
    RecordOrderAfterScan(s, pidx, qdirs, dirs);
  }

  /** Each entry of the record after the scan at position `s` links a queued
      cell to its parent through a refused direction. */
  lemma RecordEntriesAfterScan<D>(valid: Validity<D>, doors: D, start: Cell, current: Cell, s: nat,
                                  enqueued: seq<Cell>, pidx: seq<nat>, qdirs: seq<int>, added: seq<Cell>, dirs: seq<int>)
    requires |pidx| == |enqueued| && |qdirs| == |enqueued|
    requires forall k :: 0 <= k < |enqueued| ==>
      pidx[k] <= k && IsDirection(qdirs[k]) && !valid(start, qdirs[k], doors) &&
      enqueued[k] == Step(([start] + enqueued)[pidx[k]], qdirs[k])
    requires s <= |enqueued| && ([start] + enqueued)[s] == current
    requires |dirs| == |added|
    requires forall k :: 0 <= k < |added| ==>
      IsDirection(dirs[k]) && added[k] == Step(current, dirs[k]) && !valid(start, dirs[k], doors)
    ensures forall k :: 0 <= k < |enqueued + added| ==>
      WithParent(pidx, |added|, s)[k] <= k && IsDirection((qdirs + dirs)[k]) &&
      !valid(start, (qdirs + dirs)[k], doors) &&
      (enqueued + added)[k] == Step(([start] + (enqueued + added))[WithParent(pidx, |added|, s)[k]], (qdirs + dirs)[k])
  {
    var n := |enqueued|;
    var enqueued', pidx', qdirs' := enqueued + added, WithParent(pidx, |added|, s), qdirs + dirs;
    var order, order' := [start] + enqueued, [start] + enqueued';
    forall k | 0 <= k < |enqueued'|
      ensures pidx'[k] <= k && IsDirection(qdirs'[k]) && !valid(start, qdirs'[k], doors) &&
              enqueued'[k] == Step(order'[pidx'[k]], qdirs'[k])
    {
      if k < n {
        assert order'[pidx[k]] == order[pidx[k]];
      } else {
        assert qdirs'[k] == dirs[k - n] && enqueued'[k] == added[k - n];
        assert order'[s] == order[s];
      }
    }
  }

  /** After the scan at position `s` the record's parents are still in queue
      order, and the cells of one parent in direction order. */
  lemma RecordOrderAfterScan(s: nat, pidx: seq<nat>, qdirs: seq<int>, dirs: seq<int>)
    requires |pidx| == |qdirs|
    requires forall i, j :: 0 <= i < j < |pidx| ==> pidx[i] <= pidx[j] && (pidx[i] == pidx[j] ==> qdirs[i] < qdirs[j])
    requires forall k :: 0 <= k < |pidx| ==> pidx[k] < s
    requires forall i, j :: 0 <= i < j < |dirs| ==> dirs[i] < dirs[j]
    ensures forall i, j :: 0 <= i < j < |pidx| + |dirs| ==>
      WithParent(pidx, |dirs|, s)[i] <= WithParent(pidx, |dirs|, s)[j] &&
      (WithParent(pidx, |dirs|, s)[i] == WithParent(pidx, |dirs|, s)[j] ==> (qdirs + dirs)[i] < (qdirs + dirs)[j])
  {
    var n := |pidx|;
    var pidx', qdirs' := WithParent(pidx, |dirs|, s), qdirs + dirs;
    forall i, j | 0 <= i < j < n + |dirs|
      ensures pidx'[i] <= pidx'[j] && (pidx'[i] == pidx'[j] ==> qdirs'[i] < qdirs'[j])
    {
      if n <= i {
        assert qdirs'[i] == dirs[i - n] && qdirs'[j] == dirs[j - n];
      }
    }
  }


  /** What an earlier scan had reached does not change when a later scan queues cells. */
  lemma ReachedAtExtend(start: Cell, enqueued: seq<Cell>, pidx: seq<nat>, added: seq<Cell>, s: nat, i: nat)
    requires |pidx| == |enqueued|
    requires i < s
    ensures ReachedAt(start, enqueued + added, WithParent(pidx, |added|, s), i) == ReachedAt(start, enqueued, pidx, i)
  {
    var enqueued', pidx' := enqueued + added, WithParent(pidx, |added|, s);
    assert forall k :: 0 <= k < |enqueued| ==> enqueued'[k] == enqueued[k] && pidx'[k] == pidx[k];
    assert forall k :: |enqueued| <= k < |enqueued'| ==> pidx'[k] == s;
  }

  /** Once no parent lies beyond position `s`, the scan at `s` has reached every reached cell. */
  lemma ReachedAtAll(start: Cell, enqueued: seq<Cell>, pidx: seq<nat>, s: nat)
    requires |pidx| == |enqueued|
    requires forall k :: 0 <= k < |pidx| ==> pidx[k] <= s
    ensures ReachedAt(start, enqueued, pidx, s) == Reached(start, enqueued)
  {
    forall c | c in Reached(start, enqueued)
      ensures c in ReachedAt(start, enqueued, pidx, s)
    {
      if c != start {
        var k :| 0 <= k < |enqueued| && enqueued[k] == c;
      }
    }
  }

  /** What any scan had reached is reached by the walk. */
  lemma ReachedAtWithin(start: Cell, enqueued: seq<Cell>, pidx: seq<nat>, i: nat)
    requires |pidx| == |enqueued|
    ensures ReachedAt(start, enqueued, pidx, i) <= Reached(start, enqueued)
  {
  }

  /** Popping `current` after the scanned cells and queuing `added` keeps the
      scanned cells followed by the queue in queue order. */
  lemma QueueOrderAfterScan(start: Cell, scanned: seq<Cell>, current: Cell, rest: seq<Cell>,
                            enqueued: seq<Cell>, added: seq<Cell>)
    requires scanned + ([current] + rest) == [start] + enqueued
    ensures scanned + [current] + (rest + added) == [start] + (enqueued + added)
    ensures |scanned| <= |enqueued| && ([start] + enqueued)[|scanned|] == current
    ensures scanned + [current] <= [start] + (enqueued + added)
    ensures current == start || current in enqueued + added
  {
    assert scanned + [current] + (rest + added) == (scanned + ([current] + rest)) + added;
    assert [start] + (enqueued + added) == ([start] + enqueued) + added;
    assert current == (scanned + [current])[|scanned|];
  }

  /** After a scan that finds no move, every scanned cell, the popped one
      included, is settled against what the walk had reached when its scan
      ended: for the popped cell that is everything reached so far. */
  lemma SettledAfterScan<D>(valid: Validity<D>, doors: D, start: Cell, known: set<Cell>, visited: set<Cell>,
                            scanned: seq<Cell>, current: Cell, enqueued: seq<Cell>, pidx: seq<nat>, added: seq<Cell>)
    requires |pidx| == |enqueued|
    requires forall k :: 0 <= k < |pidx| ==> pidx[k] < |scanned|
    requires forall i, d :: 0 <= i < |scanned| && IsDirection(d) ==>
      Settled(valid, doors, start, known, visited, ReachedAt(start, enqueued, pidx, i), scanned[i], d)
    requires forall d :: IsDirection(d) ==>
      Settled(valid, doors, start, known, visited, Reached(start, enqueued + added), current, d)
    ensures forall i, d :: 0 <= i < |scanned + [current]| && IsDirection(d) ==>
      Settled(valid, doors, start, known, visited,
              ReachedAt(start, enqueued + added, WithParent(pidx, |added|, |scanned|), i), (scanned + [current])[i], d)
  {
    var s := |scanned|;
    var enqueued', pidx' := enqueued + added, WithParent(pidx, |added|, s);
    ReachedAtAll(start, enqueued', pidx', s);
    forall i, d | 0 <= i < |scanned + [current]| && IsDirection(d)
      ensures Settled(valid, doors, start, known, visited, ReachedAt(start, enqueued', pidx', i), (scanned + [current])[i], d)
    {
      if i < s {
        ReachedAtExtend(start, enqueued, pidx, added, s, i);
      }
    }
  }

  /** A scan that finds no move keeps the walk's history: the popped cell
      joins the scanned ones, its queued cells join the record, and it is
      settled against what it has reached; the earlier scans' facts stand. */
  lemma HistoryAfterScan<D>(valid: Validity<D>, doors: D, start: Cell, known: set<Cell>, visited: set<Cell>,
                            scanned: seq<Cell>, current: Cell, rest: seq<Cell>,
                            enqueued: seq<Cell>, pidx: seq<nat>, qdirs: seq<int>, added: seq<Cell>, dirs: seq<int>)
    requires WalkHistory(valid, doors, start, known, visited, scanned, [current] + rest, enqueued, pidx, qdirs)
    requires |dirs| == |added|
    requires forall k :: 0 <= k < |added| ==>
      IsDirection(dirs[k]) && added[k] == Step(current, dirs[k]) && !valid(start, dirs[k], doors)
    requires forall i, j :: 0 <= i < j < |dirs| ==> dirs[i] < dirs[j]
    requires forall d :: IsDirection(d) ==>
      Settled(valid, doors, start, known, visited, Reached(start, enqueued + added), current, d)
    ensures WalkHistory(valid, doors, start, known, visited, scanned + [current], rest + added,
                        enqueued + added, WithParent(pidx, |added|, |scanned|), qdirs + dirs)
  {
    var s := |scanned|;
    QueueOrderAfterScan(start, scanned, current, rest, enqueued, added);
    RecordAfterScan(valid, doors, start, current, s, enqueued, pidx, qdirs, added, dirs);
    SettledAfterScan(valid, doors, start, known, visited, scanned, current, enqueued, pidx, added);
  }

  /** The parents recorded by the scan at position `s` come after all earlier
      ones, and the cells it queued were queued through directions before `bound`. */
  lemma ParentsOfScan(pidx: seq<nat>, qdirs: seq<int>, dirs: seq<int>, s: nat, bound: int)
    requires |pidx| == |qdirs|
    requires forall k :: 0 <= k < |pidx| ==> pidx[k] < s
    requires forall k :: 0 <= k < |dirs| ==> dirs[k] < bound
    ensures forall k :: 0 <= k < |pidx| + |dirs| ==>
      WithParent(pidx, |dirs|, s)[k] <= s && (WithParent(pidx, |dirs|, s)[k] == s ==> (qdirs + dirs)[k] < bound)
  {
    forall k | 0 <= k < |pidx| + |dirs|
      ensures WithParent(pidx, |dirs|, s)[k] <= s && (WithParent(pidx, |dirs|, s)[k] == s ==> (qdirs + dirs)[k] < bound)
    {
      if k >= |pidx| {
        assert (qdirs + dirs)[k] == dirs[k - |pidx|];
      }
    }
  }

  /** When a scan finds a move, the popped cell is the next cell in queue
      order after the scanned ones, so it is the start or a queued cell; its
      queued cells join the record with its position as their parent; the
      earlier scans' facts stand. */
  lemma HistoryAtFind<D>(valid: Validity<D>, doors: D, start: Cell, known: set<Cell>, visited: set<Cell>,
                         scanned: seq<Cell>, current: Cell, rest: seq<Cell>,
                         enqueued: seq<Cell>, pidx: seq<nat>, qdirs: seq<int>, added: seq<Cell>, dirs: seq<int>)
    requires WalkHistory(valid, doors, start, known, visited, scanned, [current] + rest, enqueued, pidx, qdirs)
    requires |dirs| == |added|
    requires forall k :: 0 <= k < |added| ==>
      IsDirection(dirs[k]) && added[k] == Step(current, dirs[k]) && !valid(start, dirs[k], doors)
    requires forall i, j :: 0 <= i < j < |dirs| ==> dirs[i] < dirs[j]
    ensures scanned + [current] <= [start] + (enqueued + added)
    ensures current == start || current in enqueued + added
    ensures QueueRecord(valid, doors, start, enqueued + added, WithParent(pidx, |added|, |scanned|), qdirs + dirs)
    ensures forall i, d :: 0 <= i < |scanned| && IsDirection(d) ==>
      Settled(valid, doors, start, known, visited,
              ReachedAt(start, enqueued + added, WithParent(pidx, |added|, |scanned|), i), scanned[i], d)
  {
    var s := |scanned|;
    var enqueued', pidx' := enqueued + added, WithParent(pidx, |added|, s);
    QueueOrderAfterScan(start, scanned, current, rest, enqueued, added);
    RecordAfterScan(valid, doors, start, current, s, enqueued, pidx, qdirs, added, dirs);
    forall i, d | 0 <= i < s && IsDirection(d)
      ensures Settled(valid, doors, start, known, visited, ReachedAt(start, enqueued', pidx', i), scanned[i], d)
    {
      ReachedAtExtend(start, enqueued, pidx, added, s, i);
    }
  }

  /** When the queue runs dry every reached cell was scanned, so no reached
      cell has a direction left open, even against everything the walk reached. */
  lemma ClosedWhenDone<D>(valid: Validity<D>, doors: D, start: Cell, known: set<Cell>, visited: set<Cell>,
                          scanned: seq<Cell>, enqueued: seq<Cell>, pidx: seq<nat>, qdirs: seq<int>)
    requires WalkHistory(valid, doors, start, known, visited, scanned, [], enqueued, pidx, qdirs)
    ensures forall c, d :: (c == start || c in enqueued) && IsDirection(d) ==>
      Settled(valid, doors, start, known, visited, Reached(start, enqueued), c, d)
  {
    forall c, d | (c == start || c in enqueued) && IsDirection(d)
      ensures Settled(valid, doors, start, known, visited, Reached(start, enqueued), c, d)
    {
      assert scanned == [start] + enqueued;
      assert c in scanned;
      var i :| 0 <= i < |scanned| && scanned[i] == c;
      ReachedAtWithin(start, enqueued, pidx, i);
    }
  }

  /** Every direction out of `c` before `bound` is settled. */
  ghost predicate SettledBefore<D>(valid: Validity<D>, doors: D, pos: Cell, known: set<Cell>, visited: set<Cell>,
                                   reached: set<Cell>, c: Cell, bound: int) {
    && (LEFT < bound ==> Settled(valid, doors, pos, known, visited, reached, c, LEFT))
    && (UP < bound ==> Settled(valid, doors, pos, known, visited, reached, c, UP))
    && (RIGHT < bound ==> Settled(valid, doors, pos, known, visited, reached, c, RIGHT))
    && (DOWN < bound ==> Settled(valid, doors, pos, known, visited, reached, c, DOWN))
  }

  /** One pass of the exploration walk's inner loop: the four neighbours of
      the popped cell `current`, in the order LEFT, UP, RIGHT, DOWN. A
      neighbour already reached by the walk or already visited is skipped. The
      first remaining one whose direction the validity check allows, judged
      from the agent's position `pos`, ends the pass and is returned with its
      direction. The remaining ones that are known are queued, in direction
      order. */
  method ScanNeighbours<D>(doors: D, valid: Validity<D>, pos: Cell, current: Cell,
                           known: set<Cell>, visited: set<Cell>,
                           queue: seq<Cell>, localVisited: set<Cell>)
    returns (found: Option<int>, next: Cell,
             queue': seq<Cell>, localVisited': set<Cell>, ghost added: seq<Cell>, ghost dirs: seq<int>)
    ensures queue' == queue + added && localVisited' == localVisited + Elements(added)
    ensures forall k :: 0 <= k < |added| ==> added[k] in known && added[k] !in visited && added[k] !in localVisited
    // each queued cell is the neighbour in a refused direction, in direction order
    ensures |dirs| == |added|
    ensures forall k :: 0 <= k < |added| ==>
      IsDirection(dirs[k]) && added[k] == Step(current, dirs[k]) && !valid(pos, dirs[k], doors)
    ensures forall i, j :: 0 <= i < j < |dirs| ==> dirs[i] < dirs[j]
    ensures forall i, j :: 0 <= i < j < |added| ==> added[i] != added[j]
    ensures found.None? ==> forall d :: IsDirection(d) ==>
      Settled(valid, doors, pos, known, visited, localVisited', current, d)
    ensures found.Some? ==>
      IsDirection(found.value) && valid(pos, found.value, doors) &&
      next == Step(current, found.value) && next !in visited && next !in localVisited'
    ensures found.Some? ==> forall d :: IsDirection(d) && d < found.value ==>
      Settled(valid, doors, pos, known, visited, localVisited', current, d)
    ensures found.Some? ==> forall k :: 0 <= k < |dirs| ==> dirs[k] < found.value
  {
    found, next, queue', localVisited', added, dirs := None, current, queue, localVisited, [], [];
    // LEFT, UP, RIGHT, DOWN are the codes 0, 1, 2, 3, so this is the walk's direction list in order
    for direction := LEFT to DOWN + 1
      invariant queue' == queue + added && localVisited' == localVisited + Elements(added)
      invariant forall k :: 0 <= k < |added| ==> added[k] in known && added[k] !in visited && added[k] !in localVisited
      invariant |dirs| == |added|
      invariant forall k :: 0 <= k < |added| ==>
        IsDirection(dirs[k]) && dirs[k] < direction && added[k] == Step(current, dirs[k]) && !valid(pos, dirs[k], doors)
      invariant forall i, j :: 0 <= i < j < |dirs| ==> dirs[i] < dirs[j]
      invariant forall i, j :: 0 <= i < j < |added| ==> added[i] != added[j]
      invariant SettledBefore(valid, doors, pos, known, visited, localVisited', current, direction)
    {
      var neighbour := Step(current, direction);
      if neighbour in localVisited' || neighbour in visited {
        continue;
      }
      if valid(pos, direction, doors) {
        found, next := Some(direction), neighbour;
        return;
      }
      if neighbour in known && neighbour !in visited {
        assert Elements(added + [neighbour]) == Elements(added) + {neighbour};
        queue' := queue' + [neighbour];
        localVisited' := localVisited' + {neighbour};
        added, dirs := added + [neighbour], dirs + [direction];
      }
    }
  }

  /** The scan of the start cell, the walk's first, returns the first
      direction (in the order LEFT, UP, RIGHT, DOWN) that is open and leads to
      an unvisited cell, and finds nothing only when every open direction
      leads to a visited cell: a neighbour reached through an open direction
      cannot have been queued, since only refused directions queue. */
  lemma FirstScanChoosesFirstOpen<D>(valid: Validity<D>, doors: D, pos: Cell, known: set<Cell>, visited: set<Cell>,
                                     added: seq<Cell>, dirs: seq<int>, found: Option<int>)
    requires |dirs| == |added|
    requires forall k :: 0 <= k < |added| ==>
      IsDirection(dirs[k]) && added[k] == Step(pos, dirs[k]) && !valid(pos, dirs[k], doors)
    requires found.None? ==> forall d :: IsDirection(d) ==>
      Settled(valid, doors, pos, known, visited, {pos} + Elements(added), pos, d)
    requires found.Some? ==> forall d :: IsDirection(d) && d < found.value ==>
      Settled(valid, doors, pos, known, visited, {pos} + Elements(added), pos, d)
    ensures found.None? ==> forall d :: IsDirection(d) && valid(pos, d, doors) ==> Step(pos, d) in visited
    ensures forall d :: OpensToUnvisited(valid, doors, pos, visited, d) ==> found.Some? && found.value <= d
  {
    forall d | IsDirection(d) && valid(pos, d, doors) &&
               Settled(valid, doors, pos, known, visited, {pos} + Elements(added), pos, d)
      ensures Step(pos, d) in visited
    {
      StepIsUnit(pos, d);
      StepsDiffer(pos, d);
      assert forall k :: 0 <= k < |added| ==> added[k] != Step(pos, d);
    }
  }

  /** One round of the walk: pop the head of the queue and scan its
      neighbours. The queue, the local visited set and the record of queued
      cells are passed on; the popped cell, at position `|scanned|` of the
      queue order, counts as scanned when its scan finds no move. */
  method WalkStep<D>(doors: D, valid: Validity<D>, start: Cell, known: set<Cell>, visited: set<Cell>,
                     queue: seq<Cell>, localVisited: set<Cell>, ghost enqueued: seq<Cell>,
                     ghost scanned: seq<Cell>, ghost pidx: seq<nat>, ghost qdirs: seq<int>, ghost firstPass: bool)
    returns (found: Option<int>, next: Cell, queue': seq<Cell>, localVisited': set<Cell>,
             ghost enqueued': seq<Cell>, ghost pidx': seq<nat>, ghost qdirs': seq<int>)
    requires queue != []
    requires WalkFrontier(start, known, visited, queue, localVisited, enqueued)
    requires localVisited == Reached(start, enqueued)
    requires WalkHistory(valid, doors, start, known, visited, scanned, queue, enqueued, pidx, qdirs)
    requires firstPass ==> queue == [start] && localVisited == {start}
    ensures WalkFrontier(start, known, visited, queue', localVisited', enqueued')
    ensures localVisited' == Reached(start, enqueued')
    ensures |known - localVisited'| + |queue'| < |known - localVisited| + |queue|
    ensures found.None? ==>
      WalkHistory(valid, doors, start, known, visited, scanned + [queue[0]], queue', enqueued', pidx', qdirs')
    ensures firstPass && found.None? ==>
      forall d :: IsDirection(d) && valid(start, d, doors) ==> Step(start, d) in visited
    ensures firstPass ==>
      forall d :: OpensToUnvisited(valid, doors, start, visited, d) ==> found.Some? && found.value <= d
    ensures found.Some? ==> IsDirection(found.value) && valid(start, found.value, doors)
    ensures found.Some? ==>
      next == Step(queue[0], found.value) && next !in visited && next !in Reached(start, enqueued')
    ensures found.Some? ==> scanned + [queue[0]] <= [start] + enqueued'
    ensures found.Some? ==> queue[0] == start || (queue[0] in enqueued' && queue[0] in known && queue[0] !in visited)
    ensures found.Some? ==> forall d :: IsDirection(d) && d < found.value ==>
      Settled(valid, doors, start, known, visited, Reached(start, enqueued'), queue[0], d)
    ensures found.Some? ==> QueueRecord(valid, doors, start, enqueued', pidx', qdirs')
    ensures found.Some? ==> forall k :: 0 <= k < |pidx'| ==>
      pidx'[k] <= |scanned| && (pidx'[k] == |scanned| ==> qdirs'[k] < found.value)
    ensures found.Some? ==> forall i, d :: 0 <= i < |scanned| && IsDirection(d) ==>
      Settled(valid, doors, start, known, visited, ReachedAt(start, enqueued', pidx', i), scanned[i], d)
  {
    var current, rest := queue[0], queue[1..];
    assert queue == [current] + rest;
    assert current == start || (current in known && current !in visited);
    ghost var added, dirs;
    found, next, queue', localVisited', added, dirs :=
      ScanNeighbours(doors, valid, start, current, known, visited, rest, localVisited);
    FrontierAfterScan(start, known, visited, current, rest, localVisited, enqueued, added);
    ReachedGrows(start, enqueued, added);
    if firstPass {
      FirstScanChoosesFirstOpen(valid, doors, start, known, visited, added, dirs, found);
    }
    if found.None? {
      HistoryAfterScan(valid, doors, start, known, visited, scanned, current, rest, enqueued, pidx, qdirs, added, dirs);
    } else {
      HistoryAtFind(valid, doors, start, known, visited, scanned, current, rest, enqueued, pidx, qdirs, added, dirs);
      ParentsOfScan(pidx, qdirs, dirs, |scanned|, found.value);
    }
    enqueued', pidx', qdirs' := enqueued + added, WithParent(pidx, |added|, |scanned|), qdirs + dirs;
  }

  /** What the walk of `explore` leaves behind, started at `start` against the
      memory's `known` and `visited`: the direction `r` it returns, the cell
      `from` whose scan found it and the neighbour `next` it leads to, the cells
      `enqueued` in queue order with the record `pidx`, `qdirs` of how each was
      queued, and the cells `scanned` whose scan found no move. Together with
      the queue order these facts fix the walk's outcome. */
  ghost predicate WalkOutcome<D>(valid: Validity<D>, doors: D, start: Cell, known: set<Cell>, visited: set<Cell>,
                                 r: Option<int>, from: Cell, next: Cell, enqueued: seq<Cell>,
                                 scanned: seq<Cell>, pidx: seq<nat>, qdirs: seq<int>) {
    // how the cells were queued, and what each scan left settled when it ended
    && QueueRecord(valid, doors, start, enqueued, pidx, qdirs)
    && (forall k :: 0 <= k < |pidx| ==> pidx[k] < |scanned| || (r.Some? && pidx[k] == |scanned|))
    && (forall i, d :: 0 <= i < |scanned| && IsDirection(d) ==>
          Settled(valid, doors, start, known, visited, ReachedAt(start, enqueued, pidx, i), scanned[i], d))
    // None: every cell the walk reached was scanned, and no direction out of one is left open
    && (r.None? ==> scanned == [start] + enqueued)
    && (r.None? ==> forall c, d :: (c == start || c in enqueued) && IsDirection(d) ==>
          Settled(valid, doors, start, known, visited, Reached(start, enqueued), c, d))
    && (r.None? ==> forall d :: IsDirection(d) && valid(start, d, doors) ==> Step(start, d) in visited)
    // a direction: the move found while scanning `from`, the first cell whose scan finds one
    && (r.Some? ==> IsDirection(r.value) && valid(start, r.value, doors))
    && (r.Some? ==> scanned + [from] <= [start] + enqueued)
    && (r.Some? ==> next == Step(from, r.value) && next !in visited && next !in Reached(start, enqueued))
    && (r.Some? ==> from == start || (from in enqueued && from in known && from !in visited))
    && (r.Some? ==> forall d :: IsDirection(d) && d < r.value ==>
          Settled(valid, doors, start, known, visited, Reached(start, enqueued), from, d))
    && (r.Some? ==> forall k :: 0 <= k < |pidx| && pidx[k] == |scanned| ==> qdirs[k] < r.value)
    && (forall d :: OpensToUnvisited(valid, doors, start, visited, d) ==>
          r.Some? && r.value <= d && from == start)
    // what was queued
    && (forall k :: 0 <= k < |enqueued| ==>
          enqueued[k] in known && enqueued[k] !in visited && enqueued[k] != start)
    && (forall i, j :: 0 <= i < j < |enqueued| ==> enqueued[i] != enqueued[j])
  }

  /** The walk's outcome when the scan of `from`, at position `|scanned|` of
      the queue order, finds the move `v`. */
  lemma OutcomeAtFind<D>(valid: Validity<D>, doors: D, start: Cell, known: set<Cell>, visited: set<Cell>,
                         v: int, from: Cell, next: Cell, enqueued: seq<Cell>,
                         scanned: seq<Cell>, pidx: seq<nat>, qdirs: seq<int>, firstPass: bool)
    requires forall k :: 0 <= k < |enqueued| ==> enqueued[k] in known && enqueued[k] !in visited && enqueued[k] != start
    requires forall i, j :: 0 <= i < j < |enqueued| ==> enqueued[i] != enqueued[j]
    requires QueueRecord(valid, doors, start, enqueued, pidx, qdirs)
    requires forall k :: 0 <= k < |pidx| ==> pidx[k] <= |scanned| && (pidx[k] == |scanned| ==> qdirs[k] < v)
    requires forall i, d :: 0 <= i < |scanned| && IsDirection(d) ==>
      Settled(valid, doors, start, known, visited, ReachedAt(start, enqueued, pidx, i), scanned[i], d)
    requires IsDirection(v) && valid(start, v, doors)
    requires next == Step(from, v) && next !in visited && next !in Reached(start, enqueued)
    requires scanned + [from] <= [start] + enqueued
    requires from == start || (from in enqueued && from in known && from !in visited)
    requires forall d :: IsDirection(d) && d < v ==>
      Settled(valid, doors, start, known, visited, Reached(start, enqueued), from, d)
    requires firstPass ==> from == start && forall d :: OpensToUnvisited(valid, doors, start, visited, d) ==> v <= d
    requires !firstPass ==> forall d :: IsDirection(d) && valid(start, d, doors) ==> Step(start, d) in visited
    ensures WalkOutcome(valid, doors, start, known, visited, Some(v), from, next, enqueued, scanned, pidx, qdirs)
  {
  }

  /** The walk's outcome when its queue runs dry: every reached cell was scanned. */
  lemma OutcomeWhenDone<D>(valid: Validity<D>, doors: D, start: Cell, known: set<Cell>, visited: set<Cell>,
                           from: Cell, next: Cell, enqueued: seq<Cell>,
                           scanned: seq<Cell>, pidx: seq<nat>, qdirs: seq<int>)
    requires forall k :: 0 <= k < |enqueued| ==> enqueued[k] in known && enqueued[k] !in visited && enqueued[k] != start
    requires forall i, j :: 0 <= i < j < |enqueued| ==> enqueued[i] != enqueued[j]
    requires WalkHistory(valid, doors, start, known, visited, scanned, [], enqueued, pidx, qdirs)
    requires forall d :: IsDirection(d) && valid(start, d, doors) ==> Step(start, d) in visited
    ensures WalkOutcome(valid, doors, start, known, visited, None, from, next, enqueued, scanned, pidx, qdirs)
  {
    ClosedWhenDone(valid, doors, start, known, visited, scanned, enqueued, pidx, qdirs);
    assert scanned == [start] + enqueued;
  }

  /** The breadth-first walk of `explore`, over values. It starts at the
      agent's cell `start`, pops cells in queue order and scans each one's
      neighbours. It stops at the first neighbour, neither visited nor
      reached, whose direction the validity check allows (always judged from
      `start`). That direction is returned, with the popped cell `from` and
      the neighbour `next`. When the queue runs dry it returns None.
      `enqueued` lists the cells the walk queued before it stopped, in queue
      order, with the record `pidx`, `qdirs` of how each was queued, and
      `scanned` the popped cells whose scan found no move. */
  method Walk<D>(doors: D, valid: Validity<D>, start: Cell, known: set<Cell>, visited: set<Cell>)
    returns (r: Option<int>, ghost from: Cell, next: Cell, ghost enqueued: seq<Cell>,
             ghost scanned: seq<Cell>, ghost pidx: seq<nat>, ghost qdirs: seq<int>)
    ensures WalkOutcome(valid, doors, start, known, visited, r, from, next, enqueued, scanned, pidx, qdirs)
    // the outcome's facts about the returned direction and neighbour alone
    ensures r.Some? ==> IsDirection(r.value) && valid(start, r.value, doors) && next !in visited
    ensures r.None? ==> forall d :: IsDirection(d) && valid(start, d, doors) ==> Step(start, d) in visited
    ensures forall d :: OpensToUnvisited(valid, doors, start, visited, d) ==> r.Some? && r.value <= d
  {
    var queue := [start];
    var localVisited := {start};
    ghost var firstPass := true;
    r, from, next, enqueued, scanned, pidx, qdirs := None, start, start, [], [], [], [];

    while queue != []
      invariant WalkFrontier(start, known, visited, queue, localVisited, enqueued)
      invariant localVisited == Reached(start, enqueued)
      invariant WalkHistory(valid, doors, start, known, visited, scanned, queue, enqueued, pidx, qdirs)
      invariant firstPass ==> queue == [start] && localVisited == {start}
      invariant !firstPass ==>
        forall d :: IsDirection(d) && valid(start, d, doors) ==> Step(start, d) in visited
      decreases |known - localVisited| + |queue|
    {
      var current := queue[0];
      var found, neighbour;
      found, neighbour, queue, localVisited, enqueued, pidx, qdirs :=
        WalkStep(doors, valid, start, known, visited, queue, localVisited, enqueued, scanned, pidx, qdirs, firstPass);
      if found.Some? {
        r, from, next := found, current, neighbour;
        OutcomeAtFind(valid, doors, start, known, visited, found.value, from, next, enqueued, scanned, pidx, qdirs, firstPass);
        return;
      }
      scanned := scanned + [current];
      firstPass := false;
    }
    OutcomeWhenDone(valid, doors, start, known, visited, from, next, enqueued, scanned, pidx, qdirs);
  }

  class Player {
    /** Turns played so far. */
    var turn: nat
    /** The memory's position of the agent. */
    var pos: Cell
    /** The memory's set of visited cells. */
    var visited: set<Cell>
    /** The cells the memory knows of (its `map`). */
    var known: set<Cell>
    /** The number of rows of the memory grid and the length of its first row. */
    var rows: nat
    var cols: nat
    const maximumDoorFrequency: int
    const radius: int

    /** A fresh player at turn 0. The initial contents of the player memory
        come from a constructor that is not part of this model, so they are
        parameters. */
    constructor (maximumDoorFrequency: int, radius: int,
                 memoryPos: Cell, memoryVisited: set<Cell>, memoryKnown: set<Cell>,
                 memoryRows: nat, memoryCols: nat)
      ensures turn == 0
      ensures this.maximumDoorFrequency == maximumDoorFrequency && this.radius == radius
      ensures pos == memoryPos && visited == memoryVisited && known == memoryKnown
      ensures rows == memoryRows && cols == memoryCols
    {
      this.maximumDoorFrequency := maximumDoorFrequency;
      this.radius := radius;
      turn := 0;
      pos, visited, known := memoryPos, memoryVisited, memoryKnown;
      rows, cols := memoryRows, memoryCols;
    }

    /** The known, unvisited cells of the memory grid, each once, in row-major order. */
    method GetUnexploredNodes() returns (unexplored: seq<Cell>)
      ensures forall c :: c in unexplored <==> IsUnexplored(c, rows, cols, known, visited)
      ensures Sorted(unexplored)
    {
      unexplored := [];
      for y := 0 to rows
        invariant forall c :: c in unexplored <==> IsUnexplored(c, rows, cols, known, visited) && c.y < y
        invariant Sorted(unexplored)
      {
        for x := 0 to cols
          invariant forall c :: c in unexplored <==>
            IsUnexplored(c, rows, cols, known, visited) && (c.y < y || (c.y == y && c.x < x))
          invariant Sorted(unexplored)
          invariant forall c :: c in unexplored ==> Before(c, Cell(y, x))
        {
          var node := Cell(y, x);
          if node !in visited && node in known {
            unexplored := unexplored + [node];
          }
        }
      }
    }

    /** A target for the turn when the goal is not visible: some unexplored
        cell (the choice among them is left open), or the agent's own
        position when there is none. */
    method ChooseIntermediateTargetNode() returns (target: Cell)
      ensures IsIntermediateTarget(target, pos, rows, cols, known, visited)
    {
      var unexplored := GetUnexploredNodes();
      if unexplored != [] {
        assert unexplored[0] in unexplored;
        target :| target in unexplored;
      } else {
        target := pos;
      }
    }

    /** The fallback exploration (`explore`): the walk, then, when it found
        a move, the neighbour it reached is marked visited and the agent moves
        one step in that direction, judged and applied from the agent's
        position rather than from the cell the walk had popped. `from` is that
        popped cell, `marked` the neighbour added to `visited`, `enqueued`
        the cells the walk queued with the record `pidx`, `qdirs` of how each
        was queued, and `scanned` the popped cells whose scan found no move. */
    method Explore<D>(percept: Percept<D>, valid: Validity<D>)
      returns (r: Option<int>, ghost from: Cell, ghost marked: Cell, ghost enqueued: seq<Cell>,
               ghost scanned: seq<Cell>, ghost pidx: seq<nat>, ghost qdirs: seq<int>)
      modifies this`visited, this`pos
      // the walk's outcome, judged from the old position and the old visited set
      ensures WalkOutcome(valid, percept.mazeState, old(pos), known, old(visited),
                          r, from, marked, enqueued, scanned, pidx, qdirs)
      // None: nothing changes; a direction: one step is taken and one cell marked
      ensures r.None? ==> pos == old(pos) && visited == old(visited)
      ensures r.Some? ==> pos == Step(old(pos), r.value) && visited == old(visited) + {marked}
    {
      var next;
      r, from, next, enqueued, scanned, pidx, qdirs := Walk(percept.mazeState, valid, pos, known, visited);
      marked := next;
      if r.Some? {
        visited := visited + {next};
        pos := Step(pos, r.value);
      }
    }

    /** One turn. The turn counter goes up by one. The target is the goal when
        it is visible and otherwise an intermediate target. If the planned path
        has a first step, that step is decoded into a move, which is carried
        out only when the validity check allows it; otherwise the agent waits.
        Without such a step the exploration walk is tried. If the walk returns
        a direction, the walk has already moved the agent, and the move is
        checked and carried out a second time, from the new position.
        Memory ingest of the percept is not part of this model: the memory is
        taken as already updated for this turn. */
    method Move<D>(percept: Percept<D>, valid: Validity<D>, plan: Planner)
      returns (move: int, ghost target: Cell, ghost path: seq<Cell>, ghost explored: Option<int>, ghost marked: Cell,
               ghost from: Cell, ghost enqueued: seq<Cell>, ghost scanned: seq<Cell>,
               ghost pidx: seq<nat>, ghost qdirs: seq<int>)
      modifies this`turn, this`pos, this`visited
      ensures turn == old(turn) + 1
      ensures IsMove(move)
      ensures percept.isEndVisible ==> target == Cell(percept.endY, percept.endX)
      ensures !percept.isEndVisible ==> IsIntermediateTarget(target, old(pos), rows, cols, known, old(visited))
      ensures path == plan(old(pos), turn, target)
      // a path with a first step: one validated move along it, or WAIT
      ensures |path| > 1 ==> visited == old(visited)
      ensures |path| > 1 && valid(old(pos), GetMoveDirection(path), percept.mazeState) ==>
        move == GetMoveDirection(path) && pos == Step(old(pos), move)
      ensures |path| > 1 && !valid(old(pos), GetMoveDirection(path), percept.mazeState) ==>
        move == WAIT && pos == old(pos)
      // no usable path: the exploration walk, whose outcome is returned in the ghost results
      ensures |path| <= 1 ==>
        WalkOutcome(valid, percept.mazeState, old(pos), known, old(visited),
                    explored, from, marked, enqueued, scanned, pidx, qdirs)
      ensures |path| <= 1 && explored.None? ==>
        move == WAIT && pos == old(pos) && visited == old(visited) &&
        forall d :: IsDirection(d) && valid(old(pos), d, percept.mazeState) ==> Step(old(pos), d) in old(visited)
      ensures |path| <= 1 && explored.Some? ==>
        IsDirection(explored.value) && valid(old(pos), explored.value, percept.mazeState) &&
        marked !in old(visited) && visited == old(visited) + {marked}
      ensures |path| <= 1 && explored.Some? ==>
        var d := explored.value;
        if valid(Step(old(pos), d), d, percept.mazeState)
        then move == d && pos == Step(Step(old(pos), d), d)
        else move == WAIT && pos == Step(old(pos), d)
      ensures |path| <= 1 ==>
        forall d :: OpensToUnvisited(valid, percept.mazeState, old(pos), old(visited), d) ==>
          explored.Some? && explored.value <= d
    {
      turn := turn + 1;
      move := WAIT;

      var targetNode;
      if percept.isEndVisible {
        targetNode := Cell(percept.endY, percept.endX);
      } else {
        targetNode := ChooseIntermediateTargetNode();
      }
      target := targetNode;

      var plannedPath := plan(pos, turn, targetNode);
      path := plannedPath;
      explored, marked := None, pos;
      from, enqueued, scanned, pidx, qdirs := pos, [], [], [], [];

      if |plannedPath| > 1 {
        var nextMove := GetMoveDirection(plannedPath);
        if valid(pos, nextMove, percept.mazeState) {
          pos := Step(pos, nextMove);
          move := nextMove;
        } else {
          move := WAIT;
        }
        return;
      }

      var explorationMove;
      explorationMove, from, marked, enqueued, scanned, pidx, qdirs := Explore(percept, valid);
      explored := explorationMove;
      if explorationMove.Some? {
        if valid(pos, explorationMove.value, percept.mazeState) {
          pos := Step(pos, explorationMove.value);
          move := explorationMove.value;
        }
      }
    }
  }
}
