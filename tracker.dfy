/**
  The set of cells that hold their own tile, as updateCorrectTiles keeps it:
  a copy of the previous set with one id added or removed. The lemmas say
  when the set is full (the puzzle is solved) and that a drag-and-drop
  keeps the set equal to the cells really at home.
 */
module Tracker {
  import opened Position
  import opened Dom
  import opened Puzzle

  /** ECorrectTilesAction. */
  datatype Action = Update | Delete

  /**
    The set updateCorrectTiles computes from the previous one: `update`
    adds the id; `delete` removes it when present and otherwise leaves the
    copy as it is. No other id changes.
   */
  function Updated(prev: set<string>, action: Action, item: string): (next: set<string>)
    ensures item in next <==> action == Update
    ensures forall x :: x != item ==> (x in next <==> x in prev)
  {
    if action == Update then prev + {item}
    else if item in prev then prev - {item}
    else prev
  }

  /** The action a drop handler passes: update when the id is where it belongs. */
  function ActionFor(belongsHere: bool): Action {
    if belongsHere then Update else Delete
  }

  /** Repeating an update or a delete of the same id changes nothing more. */
  lemma UpdatedIdempotent(prev: set<string>, action: Action, item: string)
    ensures Updated(Updated(prev, action, item), action, item) == Updated(prev, action, item)
  {
    var once := Updated(prev, action, item);
    var twice := Updated(once, action, item);
    forall x ensures x in twice <==> x in once {
      if x == item {
        assert x in twice <==> action == Update;
      }
    }
  }

  /** Deleting an id that is not in the set leaves the set as it was. */
  lemma DeleteAbsentIsNoOp(prev: set<string>, item: string)
    requires item !in prev
    ensures Updated(prev, Delete, item) == prev
  {
    var next := Updated(prev, Delete, item);
    forall x ensures x in next <==> x in prev {
      if x == item {
        assert item !in next;
      }
    }
  }

  // ---------------------------------------------------------------------------
  // Seeding: a run of updates, and the launches it triggers
  // ---------------------------------------------------------------------------

  /** The set after `update` calls for each of `items`, in order. */
  function Seeded(start: set<string>, items: seq<string>): (r: set<string>)
    ensures forall x :: x in r <==> x in start || x in items
  {
    if |items| == 0 then start
    else
      var init := items[..|items| - 1];
      var r := Updated(Seeded(start, init), Update, items[|items| - 1]);
      assert items == init + [items[|items| - 1]];
      r
  }

  /**
    How many of those calls see the updated set reach `target` ids, the
    condition on which updateCorrectTiles launches the fireworks.
   */
  function Launches(start: set<string>, items: seq<string>, target: int): (r: nat)
    ensures r <= |items|
  {
    if |items| == 0 then 0
    else
      Launches(start, items[..|items| - 1], target)
      + (if |Seeded(start, items)| == target then 1 else 0)
  }

  /** One more update: the set and the launch count after the first k + 1 items. */
  lemma SeededStep(start: set<string>, items: seq<string>, k: nat, target: int)
    requires k < |items|
    ensures Seeded(start, items[..k + 1]) == Updated(Seeded(start, items[..k]), Update, items[k])
    ensures Launches(start, items[..k + 1], target) ==
              Launches(start, items[..k], target) + (if |Seeded(start, items[..k + 1])| == target then 1 else 0)
  {
    assert items[..k + 1][..k] == items[..k];
  }

  predicate NoRepeats(items: seq<string>) {
    forall i, j :: 0 <= i < j < |items| ==> items[i] != items[j]
  }

  /** Updates with distinct ids, from the empty set, grow it one id at a time. */
  lemma {:induction false} SeededSize(items: seq<string>)
    requires NoRepeats(items)
    ensures |Seeded({}, items)| == |items|
  {
    if |items| > 0 {
      var init := items[..|items| - 1];
      var last := items[|items| - 1];
      SeededSize(init);
      assert last !in init by {
        forall m | 0 <= m < |init| ensures init[m] != last {
          assert init[m] == items[m];
        }
      }
      assert last !in Seeded({}, init);
    }
  }

  /**
    From the empty set, distinct updates launch the fireworks once when
    their number reaches a positive target and never otherwise.
   */
  lemma {:induction false} LaunchesFromEmpty(items: seq<string>, target: int)
    requires NoRepeats(items)
    ensures Launches({}, items, target) == if 0 < target <= |items| then 1 else 0
  {
    if |items| > 0 {
      var init := items[..|items| - 1];
      assert NoRepeats(init) by {
        forall i, j | 0 <= i < j < |init| ensures init[i] != init[j] {
          assert init[i] == items[i] && init[j] == items[j];
        }
      }
      LaunchesFromEmpty(init, target);
      SeededSize(items);
    }
  }

  // ---------------------------------------------------------------------------
  // Solve detection: the set is full exactly when every tile is at home
  // ---------------------------------------------------------------------------

  /** A subset with as many elements as the whole set is the whole set. */
  lemma SubsetOfSameSize<T>(a: set<T>, b: set<T>)
    requires a <= b && |a| == |b|
    ensures a == b
  {
    if a != b {
      var x :| x in b && x !in a;
      assert a <= b - {x};
      SubsetSize(a, b - {x});
      assert false;
    }
  }

  lemma {:induction false} SubsetSize<T>(a: set<T>, b: set<T>)
    requires a <= b
    ensures |a| <= |b|
    decreases |b|
  {
    if a != {} {
      var x :| x in a;
      SubsetSize(a - {x}, b - {x});
    }
  }

  /** The ids of the cells at home are canonical ids of the grid. */
  lemma CorrectCellsInGrid(g: seq<Tile>, gameSize: nat)
    requires gameSize > 0 && |g| == gameSize * gameSize
    ensures CorrectCells(g, gameSize) <= AllCells(gameSize)
  {
    forall id | id in CorrectCells(g, gameSize) ensures id in AllCells(gameSize) {
      var i :| 0 <= i < |g| && AtHome(g, gameSize, i) && g[i].id == id;
    }
  }

  /** Every cell holds its own tile exactly when the grid is the solved one. */
  lemma AllHomeIffSolved(g: seq<Tile>, gameSize: nat)
    requires gameSize > 0 && IsArrangement(g, gameSize)
    ensures CorrectCells(g, gameSize) == AllCells(gameSize) <==> g == SolvedGrid(gameSize)
  {
    var n := gameSize;
    var sg := SolvedGrid(n);
    ArrangementIds(g, n);
    SolvedGridDistinct(n);
    if CorrectCells(g, n) == AllCells(n) {
      forall i | 0 <= i < |g| ensures g[i] == sg[i] {
        var id := SlotId(i, n);
        assert id in AllCells(n);
        var k :| 0 <= k < |g| && AtHome(g, n, k) && g[k].id == id;
        SlotIdInjective(k, i, n);
        assert g[i] in multiset(sg);
        var j :| 0 <= j < |sg| && sg[j] == g[i];
        SolvedGridAt(n, j);
        SlotIdInjective(j, i, n);
        SolvedGridAt(n, i);
      }
    }
    if g == sg {
      SolvedGridAllCorrect(n);
    }
  }

  /**
    On an arrangement of the N x N puzzle whose tracker is exact, the set
    reaches N * N ids, the condition that launches the fireworks, exactly
    when the puzzle is solved.
   */
  lemma FullIffSolved(g: seq<Tile>, gameSize: nat)
    requires gameSize > 0 && IsArrangement(g, gameSize)
    ensures |CorrectCells(g, gameSize)| == gameSize * gameSize <==> g == SolvedGrid(gameSize)
  {
    ArrangementIds(g, gameSize);
    CorrectCellsInGrid(g, gameSize);
    AllCellsSize(gameSize);
    AllHomeIffSolved(g, gameSize);
    if |CorrectCells(g, gameSize)| == gameSize * gameSize {
      SubsetOfSameSize(CorrectCells(g, gameSize), AllCells(gameSize));
    }
  }

  /**
    The seeding of a freshly shuffled N x N puzzle reaches N * N ids, and so
    launches the fireworks, exactly when the shuffle left it solved.
   */
  lemma SeedingLaunchesIffSolved(g: seq<Tile>, gameSize: nat)
    requires gameSize > 0 && IsArrangement(g, gameSize)
    ensures gameSize * gameSize <= |CorrectCells(g, gameSize)| <==> g == SolvedGrid(gameSize)
  {
    ArrangementIds(g, gameSize);
    CorrectCellsInGrid(g, gameSize);
    AllCellsSize(gameSize);
    SubsetSize(CorrectCells(g, gameSize), AllCells(gameSize));
    FullIffSolved(g, gameSize);
  }

  // ---------------------------------------------------------------------------
  // A drag-and-drop keeps the tracker exact
  // ---------------------------------------------------------------------------

  /** Exchanging two tiles keeps the ids distinct. */
  lemma SwapKeepsDistinct(g: seq<Tile>, p: nat, q: nat)
    requires DistinctIds(g) && p < |g| && q < |g|
    ensures DistinctIds(Swap(g, p, q))
  {
    SwapPermutes(g, p, q);
    PermutationKeepsDistinct(Swap(g, p, q), g);
  }

  /** An id that no tile carries is never counted as at home. */
  lemma CorrectCellsAreIds(g: seq<Tile>, gameSize: nat, x: string)
    requires gameSize > 0 && x in CorrectCells(g, gameSize)
    ensures exists i :: 0 <= i < |g| && g[i].id == x && AtHome(g, gameSize, i)
  {
  }

  /**
    The drop of the tile from slot p onto the tile in slot q: the tiles are
    exchanged; handleDrop then marks the target tile, now in slot p, by
    comparing its id with draggedFrom, the cell the drag started over; and
    handleDropGetFinishPosition marks the dragged tile, now in slot q, by
    comparing its id with the cell under the pointer. When draggedFrom is
    slot p's cell and the pointer is over slot q, a set that was exactly the
    cells at home stays exactly the cells at home.
   */
  lemma DropKeepsExact(g: seq<Tile>, gameSize: nat, p: nat, q: nat, draggedFrom: string, pointerCell: string)
    requires gameSize > 0 && DistinctIds(g) && p < |g| && q < |g|
    requires draggedFrom == SlotId(p, gameSize) && pointerCell == SlotId(q, gameSize)
    ensures
      var afterTarget := Updated(CorrectCells(g, gameSize), ActionFor(g[q].id == draggedFrom), g[q].id);
      Updated(afterTarget, ActionFor(g[p].id == pointerCell), g[p].id) == CorrectCells(Swap(g, p, q), gameSize)
  {
    var n := gameSize;
    var h := Swap(g, p, q);
    SwapKeepsDistinct(g, p, q);
    var afterTarget := Updated(CorrectCells(g, n), ActionFor(g[q].id == draggedFrom), g[q].id);
    var final := Updated(afterTarget, ActionFor(g[p].id == pointerCell), g[p].id);
    forall x ensures x in final <==> x in CorrectCells(h, n) {
      if x == g[p].id {
        CorrectCellsMember(h, n, q);
      } else if x == g[q].id {
        CorrectCellsMember(h, n, p);
      } else {
        OtherCellUnchanged(g, n, p, q, x);
      }
    }
  }

  /**
    A drop whose draggedFrom is stale breaks the tracker. Only handleDrop
    clears draggedFrom, so a drag that ends without a drop leaves the cell
    it latched, and the next gesture's dragovers keep it. When the tile
    dropped on belongs in slot p, the one the drag started from, the
    exchange brings it home; handleDrop compares its id with the stale cell
    instead and deletes it, and the dragged tile's mark cannot put it back.
   */
  lemma StaleStartCellLosesTarget(g: seq<Tile>, gameSize: nat, p: nat, q: nat,
                                  draggedFrom: string, pointerCell: string)
    requires gameSize > 0 && DistinctIds(g) && p < |g| && q < |g| && p != q
    requires g[q].id == SlotId(p, gameSize) && draggedFrom != SlotId(p, gameSize)
    ensures
      var afterTarget := Updated(CorrectCells(g, gameSize), ActionFor(g[q].id == draggedFrom), g[q].id);
      var final := Updated(afterTarget, ActionFor(g[p].id == pointerCell), g[p].id);
      && g[q].id in CorrectCells(Swap(g, p, q), gameSize)
      && g[q].id !in final
  {
    var h := Swap(g, p, q);
    assert AtHome(h, gameSize, p);
    if p < q {
      assert g[p].id != g[q].id;
    } else {
      assert g[q].id != g[p].id;
    }
  }

  /** An id carried by neither exchanged tile is at home after the exchange exactly when it was before. */
  lemma OtherCellUnchanged(g: seq<Tile>, gameSize: nat, p: nat, q: nat, x: string)
    requires gameSize > 0 && p < |g| && q < |g| && x != g[p].id && x != g[q].id
    ensures x in CorrectCells(g, gameSize) <==> x in CorrectCells(Swap(g, p, q), gameSize)
  {
    var h := Swap(g, p, q);
    if x in CorrectCells(g, gameSize) {
      HomeKept(g, h, gameSize, p, q, x);
    }
    if x in CorrectCells(h, gameSize) {
      HomeKept(h, g, gameSize, p, q, x);
    }
  }

  /** Changing only slots p and q, which do not carry x, keeps x at home. */
  lemma HomeKept(g: seq<Tile>, h: seq<Tile>, gameSize: nat, p: nat, q: nat, x: string)
    requires gameSize > 0 && p < |g| && q < |g| && |h| == |g|
    requires forall k :: 0 <= k < |g| && k != p && k != q ==> h[k] == g[k]
    requires x != g[p].id && x != g[q].id && x in CorrectCells(g, gameSize)
    ensures x in CorrectCells(h, gameSize)
  {
    CorrectCellsAreIds(g, gameSize, x);
    var i :| 0 <= i < |g| && g[i].id == x && AtHome(g, gameSize, i);
    assert h[i] == g[i];
  }
}
