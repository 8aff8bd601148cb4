/**
  Tiles of the puzzle, the row-major slicing of the image into tiles, and the
  shuffle that also reports which slots landed on their own tile.
 */
module Puzzle {
  import opened Position
  import opened Dom

  /**
    The image of a tile stands for the crop it was cut from: the 0-based
    row and col of its rectangle on the staging canvas.
   */
  datatype Image = Crop(row: nat, col: nat)

  /** IPuzzleGridItems: `id` is the cell the tile belongs in when solved. */
  datatype Tile = Tile(id: string, image: Image)

  // ---------------------------------------------------------------------------
  // The solved grid and its ids
  // ---------------------------------------------------------------------------

  /** The tile the slicer emits at 0-based index k. */
  function SolvedTile(k: nat, gameSize: nat): Tile
    requires gameSize > 0
  {
    Tile(SlotId(k, gameSize), Crop(k / gameSize, k % gameSize))
  }

  /** The tiles in the order the slicer emits them, before shuffling. */
  function SolvedGrid(gameSize: nat): (g: seq<Tile>)
    ensures |g| == gameSize * gameSize
  {
    if gameSize == 0 then []
    else seq(gameSize * gameSize, k requires 0 <= k => SolvedTile(k, gameSize))
  }

  /** All canonical ids of an N x N grid. */
  function AllCells(gameSize: nat): set<string>
    requires gameSize > 0
  {
    set k | 0 <= k < gameSize * gameSize :: SlotId(k, gameSize)
  }

  predicate DistinctIds(g: seq<Tile>) {
    forall i, j :: 0 <= i < j < |g| ==> g[i].id != g[j].id
  }

  function Ids(g: seq<Tile>): set<string> {
    set i | 0 <= i < |g| :: g[i].id
  }

  /** A grid is an arrangement of the N x N puzzle when it is a permutation of the sliced tiles. */
  predicate IsArrangement(g: seq<Tile>, gameSize: nat) {
    multiset(g) == multiset(SolvedGrid(gameSize))
  }

  lemma SolvedGridAt(gameSize: nat, k: nat)
    requires 0 < gameSize && k < gameSize * gameSize
    ensures SolvedGrid(gameSize)[k] == SolvedTile(k, gameSize)
  {
  }

  /** The sliced tiles have pairwise distinct ids. */
  lemma SolvedGridDistinct(gameSize: nat)
    requires gameSize > 0
    ensures DistinctIds(SolvedGrid(gameSize))
  {
    var g := SolvedGrid(gameSize);
    forall i, j | 0 <= i < j < |g| ensures g[i].id != g[j].id {
      SolvedGridAt(gameSize, i);
      SolvedGridAt(gameSize, j);
      if g[i].id == g[j].id {
        SlotIdInjective(i, j, gameSize);
        assert false;
      }
    }
  }

  /** The ids of the sliced tiles are the canonical ids of the grid. */
  lemma SolvedGridIdSet(gameSize: nat)
    requires gameSize > 0
    ensures Ids(SolvedGrid(gameSize)) == AllCells(gameSize)
  {
    var g := SolvedGrid(gameSize);
    forall id | id in AllCells(gameSize) ensures id in Ids(g) {
      var k :| 0 <= k < gameSize * gameSize && id == SlotId(k, gameSize);
      SolvedGridAt(gameSize, k);
      assert g[k].id == id;
    }
    forall id | id in Ids(g) ensures id in AllCells(gameSize) {
      var k :| 0 <= k < |g| && g[k].id == id;
      SolvedGridAt(gameSize, k);
    }
  }

  /** Every cell (r, c) with r, c in [1, N] is a canonical id of the N x N grid. */
  lemma CellInAllCells(r: int, c: int, gameSize: nat)
    requires 1 <= r <= gameSize && 1 <= c <= gameSize
    ensures TransformRowAndCol(r, c) in AllCells(gameSize)
  {
    var k := CellSlot(r - 1, c - 1, gameSize);
    SlotIdOfCell(r - 1, c - 1, gameSize);
    assert SlotId(k, gameSize) in AllCells(gameSize);
  }

  /** The 0-based slot of the 0-based cell (row, col). */
  function CellSlot(row: nat, col: nat, gameSize: nat): (k: nat)
    requires row < gameSize && col < gameSize
    ensures k < gameSize * gameSize
  {
    MulMonotone(row, gameSize - 1, gameSize);
    row * gameSize + col
  }

  /** Every canonical id of the N x N grid is a cell (r, c) with r, c in [1, N]. */
  lemma AllCellsInGrid(id: string, gameSize: nat)
    requires gameSize > 0 && id in AllCells(gameSize)
    ensures exists r, c :: 1 <= r <= gameSize && 1 <= c <= gameSize && id == TransformRowAndCol(r, c)
  {
    var k :| 0 <= k < gameSize * gameSize && id == SlotId(k, gameSize);
    SlotIdInGrid(k, gameSize);
  }

  /** The N x N grid has exactly N*N canonical ids. */
  lemma AllCellsSize(gameSize: nat)
    requires gameSize > 0
    ensures |AllCells(gameSize)| == gameSize * gameSize
  {
    SlotIdsCount(gameSize * gameSize, gameSize);
  }

  lemma SlotIdsCount(m: nat, gameSize: nat)
    requires gameSize > 0
    ensures |set k | 0 <= k < m :: SlotId(k, gameSize)| == m
  {
    var f: nat -> string := (k: nat) => SlotId(k, gameSize);
    forall a: nat, b: nat | a < m && b < m && f(a) == f(b) ensures a == b {
      SlotIdInjective(a, b, gameSize);
    }
    ImageCount(f, m);
    var image := ValuesBelow(f, m);
    var ids := set k | 0 <= k < m :: SlotId(k, gameSize);
    forall x | x in image ensures x in ids {
      var k: nat :| k < m && x == f(k);
    }
    forall x | x in ids ensures x in image {
      var k :| 0 <= k < m && x == SlotId(k, gameSize);
      assert x == f(k);
    }
    assert image == ids;
  }

  /** The values of f on 0, ..., m-1. */
  ghost function ValuesBelow<T>(f: nat -> T, m: nat): set<T> {
    set k: nat | k < m :: f(k)
  }

  /** An injective map sends 0, ..., m-1 to m different values. */
  lemma {:induction false} ImageCount<T>(f: nat -> T, m: nat)
    requires forall a: nat, b: nat :: a < m && b < m && f(a) == f(b) ==> a == b
    ensures |ValuesBelow(f, m)| == m
  {
    if m > 0 {
      var before := ValuesBelow(f, m - 1);
      var all := ValuesBelow(f, m);
      ImageCount(f, m - 1);
      forall x | x in all ensures x in before || x == f(m - 1) {
        var k: nat :| k < m && x == f(k);
        if k < m - 1 {
          assert x in before;
        }
      }
      forall x | x in before ensures x in all && x != f(m - 1) {
        var k: nat :| k < m - 1 && x == f(k);
      }
      var y := f(m - 1);
      assert y in all;
      assert all == before + {y};
      assert |before + {y}| == |before| + 1;
    } else {
      assert ValuesBelow(f, m) == {};
    }
  }

  /** Permutations of the sliced tiles keep their ids distinct and the same set of ids. */
  lemma ArrangementIds(g: seq<Tile>, gameSize: nat)
    requires gameSize > 0 && IsArrangement(g, gameSize)
    ensures DistinctIds(g) && Ids(g) == AllCells(gameSize) && |g| == gameSize * gameSize
  {
    var s := SolvedGrid(gameSize);
    SolvedGridDistinct(gameSize);
    SolvedGridIdSet(gameSize);
    assert |g| == |multiset(g)| == |multiset(s)| == |s|;
    PermutationKeepsDistinct(g, s);
    forall id ensures id in Ids(g) <==> id in Ids(s) {
      if id in Ids(g) {
        var i :| 0 <= i < |g| && g[i].id == id;
        assert g[i] in multiset(s);
      }
      if id in Ids(s) {
        var i :| 0 <= i < |s| && s[i].id == id;
        assert s[i] in multiset(g);
      }
    }
  }

  /** A permutation of a grid with distinct ids has distinct ids. */
  lemma PermutationKeepsDistinct(g: seq<Tile>, s: seq<Tile>)
    requires multiset(g) == multiset(s) && DistinctIds(s)
    ensures DistinctIds(g)
  {
    forall i, j | 0 <= i < j < |g| ensures g[i].id != g[j].id {
      assert g[i] in multiset(s) && g[j] in multiset(s);
      var a :| 0 <= a < |s| && s[a] == g[i];
      var b :| 0 <= b < |s| && s[b] == g[j];
      if g[i] == g[j] {
        TwiceInSeq(g, i, j);
        OccursOnce(s, g[i]);
        assert false;
      } else if g[i].id == g[j].id {
        assert false;
      }
    }
  }

  /** A tile found at two slots occurs at least twice. */
  lemma TwiceInSeq(g: seq<Tile>, i: nat, j: nat)
    requires i < j < |g| && g[i] == g[j]
    ensures multiset(g)[g[i]] >= 2
  {
    var rest := g[..i] + g[i + 1..];
    assert g == g[..i] + [g[i]] + g[i + 1..];
    assert g[j] == rest[j - 1];
    assert g[j] in multiset(rest);
    assert multiset(g) == multiset(rest) + multiset{g[i]};
  }

  /** In a grid with distinct ids, each tile occurs at most once. */
  lemma {:induction false} OccursOnce(s: seq<Tile>, t: Tile)
    requires DistinctIds(s)
    ensures multiset(s)[t] <= 1
  {
    if |s| > 0 {
      var last := s[|s| - 1];
      var init := s[..|s| - 1];
      assert s == init + [last];
      assert DistinctIds(init);
      OccursOnce(init, t);
      if last == t && t in multiset(init) {
        assert false;
      }
    }
  }

  // ---------------------------------------------------------------------------
  // The slicing loop of preparePuzzle
  // ---------------------------------------------------------------------------

  /**
    The nested loop of preparePuzzle that gives the tiles their ids: one
    tile per (row, col) in row-major order, with id (row+1)-(col+1). A
    gameSize of zero or less makes no tiles.
   */
  method SliceTiles(gameSize: int) returns (imgPieces: seq<Tile>)
    ensures gameSize <= 0 ==> imgPieces == []
    ensures gameSize > 0 ==> imgPieces == SolvedGrid(gameSize)
  {
    imgPieces := [];
    var row := 0;
    while row < gameSize
      invariant 0 <= row && (gameSize > 0 ==> row <= gameSize)
      invariant gameSize <= 0 ==> imgPieces == []
      invariant gameSize > 0 ==> |imgPieces| == row * gameSize
      invariant forall k :: 0 <= k < |imgPieces| ==> gameSize > 0 && imgPieces[k] == SolvedTile(k, gameSize)
    {
      var col := 0;
      while col < gameSize
        invariant 0 <= col <= gameSize
        invariant |imgPieces| == row * gameSize + col
        invariant forall k :: 0 <= k < |imgPieces| ==> imgPieces[k] == SolvedTile(k, gameSize)
      {
        PushSlice(imgPieces, row, col, gameSize);
        imgPieces := imgPieces + [Tile(TransformRowAndCol(row + 1, col + 1), Crop(row, col))];
        col := col + 1;
      }
      assert row * gameSize + gameSize == (row + 1) * gameSize;
      row := row + 1;
    }
    if gameSize > 0 {
      AllSlicesSolved(imgPieces, gameSize);
    }
  }

  /** One push of the slicing loop keeps the pieces equal to the first slots of the solved grid. */
  lemma PushSlice(pieces: seq<Tile>, row: nat, col: nat, gameSize: nat)
    requires 0 < gameSize && col < gameSize && |pieces| == row * gameSize + col
    requires forall k :: 0 <= k < |pieces| ==> pieces[k] == SolvedTile(k, gameSize)
    ensures var next := pieces + [Tile(TransformRowAndCol(row + 1, col + 1), Crop(row, col))];
            forall k :: 0 <= k < |next| ==> next[k] == SolvedTile(k, gameSize)
  {
    var next := pieces + [Tile(TransformRowAndCol(row + 1, col + 1), Crop(row, col))];
    SolvedTileOfCell(row, col, gameSize);
    forall k | 0 <= k < |next| ensures next[k] == SolvedTile(k, gameSize) {
      if k < |pieces| {
        assert next[k] == pieces[k];
      }
    }
  }

  lemma AllSlicesSolved(pieces: seq<Tile>, gameSize: nat)
    requires 0 < gameSize && |pieces| == gameSize * gameSize
    requires forall k :: 0 <= k < |pieces| ==> pieces[k] == SolvedTile(k, gameSize)
    ensures pieces == SolvedGrid(gameSize)
  {
    forall k | 0 <= k < |pieces| ensures pieces[k] == SolvedGrid(gameSize)[k] {
      SolvedGridAt(gameSize, k);
    }
  }

  /** The slicer's tile for (row, col) is the tile of slot row * N + col. */
  lemma SolvedTileOfCell(row: nat, col: nat, gameSize: nat)
    requires 0 < gameSize && col < gameSize
    ensures SolvedTile(row * gameSize + col, gameSize) == Tile(TransformRowAndCol(row + 1, col + 1), Crop(row, col))
  {
    SlotIdOfCell(row, col, gameSize);
    DivModUnique(row * gameSize + col, gameSize, row, col);
  }

  // ---------------------------------------------------------------------------
  // Cells that hold their own tile
  // ---------------------------------------------------------------------------

  /** Slot i holds the tile that belongs there. */
  predicate AtHome(g: seq<Tile>, gameSize: nat, i: nat)
    requires gameSize > 0 && i < |g|
  {
    g[i].id == SlotId(i, gameSize)
  }

  /** The ids of the cells that hold their own tile. */
  function CorrectCells(g: seq<Tile>, gameSize: nat): set<string>
    requires gameSize > 0
  {
    set i | 0 <= i < |g| && AtHome(g, gameSize, i) :: g[i].id
  }

  /** Every cell of the sliced, unshuffled grid holds its own tile. */
  lemma SolvedGridAllCorrect(gameSize: nat)
    requires gameSize > 0
    ensures CorrectCells(SolvedGrid(gameSize), gameSize) == AllCells(gameSize)
  {
    var g := SolvedGrid(gameSize);
    forall id | id in AllCells(gameSize) ensures id in CorrectCells(g, gameSize) {
      var k :| 0 <= k < gameSize * gameSize && id == SlotId(k, gameSize);
      SolvedGridAt(gameSize, k);
      assert AtHome(g, gameSize, k);
    }
    forall id | id in CorrectCells(g, gameSize) ensures id in AllCells(gameSize) {
      var k :| 0 <= k < |g| && AtHome(g, gameSize, k) && g[k].id == id;
    }
  }

  /** Membership in CorrectCells, for a grid with distinct ids: the tile with that id is at home. */
  lemma CorrectCellsMember(g: seq<Tile>, gameSize: nat, i: nat)
    requires gameSize > 0 && DistinctIds(g) && i < |g|
    ensures g[i].id in CorrectCells(g, gameSize) <==> AtHome(g, gameSize, i)
  {
    if g[i].id in CorrectCells(g, gameSize) {
      var k :| 0 <= k < |g| && AtHome(g, gameSize, k) && g[k].id == g[i].id;
      if k != i {
        assert false;
      }
    }
  }

  // ---------------------------------------------------------------------------
  // shuffleGridArr
  // ---------------------------------------------------------------------------

  /** Math.floor(r * (i + 1)) for a draw r of Math.random(): an index in [0, i]. */
  function Draw(r: real, i: nat): (j: nat)
    requires 0.0 <= r < 1.0
    ensures j <= i
  {
    var x := Scaled(r, i + 1);
    assert x.Floor as real <= x;
    x.Floor
  }

  /**
    The product r * m, written as m additions of r so that the definition of
    Draw stays linear; ScaledIsProduct shows it is the product.
   */
  function Scaled(r: real, m: nat): (x: real)
    requires 0.0 <= r < 1.0
    ensures 0.0 <= x && (m > 0 ==> x < m as real)
    decreases m
  {
    if m == 0 then 0.0 else Scaled(r, m - 1) + r
  }

  lemma {:induction false} ScaledIsProduct(r: real, m: nat)
    requires 0.0 <= r < 1.0
    ensures Scaled(r, m) == r * m as real
    decreases m
  {
    if m > 0 {
      ScaledIsProduct(r, m - 1);
      assert r * m as real == r * (m - 1) as real + r;
    }
  }

  predicate ValidDraws(rands: seq<real>) {
    forall k :: 0 <= k < |rands| ==> 0.0 <= rands[k] < 1.0
  }

  /**
    The backward Fisher-Yates pass on iterations i, i-1, ..., 0, where
    iteration k swaps slot k with slot Draw(rands[k], k).
   */
  function ShufflePass(s: seq<Tile>, rands: seq<real>, i: int): seq<Tile>
    requires |rands| == |s| && ValidDraws(rands) && i < |s|
    decreases i + 1
  {
    if i < 0 then s else ShufflePass(Swap(s, i, Draw(rands[i], i)), rands, i - 1)
  }

  /** The shuffle is a permutation of its input. */
  lemma {:induction false} ShufflePassPermutes(s: seq<Tile>, rands: seq<real>, i: int)
    requires |rands| == |s| && ValidDraws(rands) && i < |s|
    ensures |ShufflePass(s, rands, i)| == |s|
    ensures multiset(ShufflePass(s, rands, i)) == multiset(s)
    decreases i + 1
  {
    if i >= 0 {
      SwapPermutes(s, i, Draw(rands[i], i));
      ShufflePassPermutes(Swap(s, i, Draw(rands[i], i)), rands, i - 1);
    }
  }

  /** Iterations i, ..., 0 never touch a slot above i. */
  lemma {:induction false} ShufflePassKeepsAbove(s: seq<Tile>, rands: seq<real>, i: int)
    requires |rands| == |s| && ValidDraws(rands) && -1 <= i < |s|
    ensures |ShufflePass(s, rands, i)| == |s|
    ensures ShufflePass(s, rands, i)[i + 1..] == s[i + 1..]
    decreases i + 1
  {
    ShufflePassPermutes(s, rands, i);
    if i >= 0 {
      var s' := Swap(s, i, Draw(rands[i], i));
      ShufflePassKeepsAbove(s', rands, i - 1);
      assert s'[i + 1..] == s[i + 1..];
    }
  }

  /**
    The values want[k], for k from the end down to lo, at the positions k
    where ids[k] equals want[k].
   */
  function Matches<T(==)>(ids: seq<T>, want: seq<T>, lo: nat): (r: seq<T>)
    requires |ids| == |want|
    ensures lo <= |ids| ==> |r| <= |ids| - lo
    decreases |ids| - lo
  {
    if lo >= |ids| then []
    else Matches(ids, want, lo + 1) + (if ids[lo] == want[lo] then [want[lo]] else [])
  }

  /** Matches reads only the positions from lo up. */
  lemma {:induction false} MatchesFrom<T>(ids: seq<T>, ids': seq<T>, want: seq<T>, lo: nat)
    requires |ids| == |ids'| == |want| && lo <= |ids|
    requires forall k :: lo <= k < |ids| ==> ids[k] == ids'[k]
    ensures Matches(ids, want, lo) == Matches(ids', want, lo)
    decreases |ids| - lo
  {
    if lo < |ids| {
      MatchesFrom(ids, ids', want, lo + 1);
    }
  }

  /** A matching position from lo up contributes its wanted value. */
  lemma {:induction false} MatchedIn<T>(ids: seq<T>, want: seq<T>, lo: nat, k: nat)
    requires |ids| == |want| && lo <= k < |ids| && ids[k] == want[k]
    ensures want[k] in Matches(ids, want, lo)
    decreases |ids| - lo
  {
    var later := Matches(ids, want, lo + 1);
    var here: seq<T> := if ids[lo] == want[lo] then [want[lo]] else [];
    assert Matches(ids, want, lo) == later + here;
    if lo < k {
      MatchedIn(ids, want, lo + 1, k);
      var j :| 0 <= j < |later| && later[j] == want[k];
      assert (later + here)[j] == want[k];
    } else {
      assert (later + here)[|later|] == want[k];
    }
  }

  /** Every element of Matches is the wanted value at a matching position from lo up. */
  lemma {:induction false} MatchIsHome<T>(ids: seq<T>, want: seq<T>, lo: nat, a: nat) returns (k: nat)
    requires |ids| == |want| && a < |Matches(ids, want, lo)|
    ensures lo <= k < |ids| && ids[k] == want[k] && Matches(ids, want, lo)[a] == want[k]
    decreases |ids| - lo
  {
    var later := Matches(ids, want, lo + 1);
    var here: seq<T> := if ids[lo] == want[lo] then [want[lo]] else [];
    assert Matches(ids, want, lo) == later + here;
    if a < |later| {
      k := MatchIsHome(ids, want, lo + 1, a);
      assert (later + here)[a] == later[a];
    } else {
      k := lo;
      assert (later + here)[a] == here[a - |later|];
    }
  }

  /** With distinct wanted values, no value occurs twice in Matches. */
  lemma {:induction false} MatchesDistinct<T>(ids: seq<T>, want: seq<T>, lo: nat)
    requires |ids| == |want|
    requires forall i, j :: 0 <= i < j < |want| ==> want[i] != want[j]
    ensures forall a, b :: 0 <= a < b < |Matches(ids, want, lo)| ==>
              Matches(ids, want, lo)[a] != Matches(ids, want, lo)[b]
    decreases |ids| - lo
  {
    if lo < |ids| {
      MatchesDistinct(ids, want, lo + 1);
      var rest := Matches(ids, want, lo + 1);
      if ids[lo] == want[lo] {
        var r := Matches(ids, want, lo);
        assert r == rest + [want[lo]];
        forall a | 0 <= a < |rest| ensures rest[a] != want[lo] {
          var k := MatchIsHome(ids, want, lo + 1, a);
        }
        forall a, b | 0 <= a < b < |r| ensures r[a] != r[b] {
          if b == |r| - 1 {
            assert r[a] == rest[a];
          } else {
            assert r[a] == rest[a] && r[b] == rest[b];
          }
        }
      }
    }
  }

  /** The tiles' ids, slot by slot. */
  function IdsOf(g: seq<Tile>): (ids: seq<string>)
    ensures |ids| == |g| && forall i :: 0 <= i < |g| ==> ids[i] == g[i].id
  {
    seq(|g|, i requires 0 <= i < |g| => g[i].id)
  }

  /** The canonical ids of slots 0, ..., m-1. */
  function CanonicalIds(m: nat, gameSize: nat): (ids: seq<string>)
    requires gameSize > 0
    ensures |ids| == m && forall i :: 0 <= i < m ==> ids[i] == SlotId(i, gameSize)
  {
    seq(m, i requires 0 <= i < m => SlotId(i, gameSize))
  }

  /**
    The ids reported at iterations |g|-1 down to lo, in call order: slot k is
    reported, with its canonical id, when it holds its own tile.
   */
  function Reports(g: seq<Tile>, gameSize: nat, lo: nat): (r: seq<string>)
    requires gameSize > 0
    ensures lo <= |g| ==> |r| <= |g| - lo
  {
    Matches(IdsOf(g), CanonicalIds(|g|, gameSize), lo)
  }

  /** Every slot, from lo up, that holds its own tile is reported with its canonical id. */
  lemma HomeSlotReported(g: seq<Tile>, gameSize: nat, lo: nat, k: nat)
    requires gameSize > 0 && lo <= k < |g| && AtHome(g, gameSize, k)
    ensures SlotId(k, gameSize) in Reports(g, gameSize, lo)
  {
    MatchedIn(IdsOf(g), CanonicalIds(|g|, gameSize), lo, k);
  }

  /** Every report is the canonical id of a slot, from lo up, that holds its own tile. */
  lemma ReportIsHomeSlot(g: seq<Tile>, gameSize: nat, lo: nat, a: nat) returns (k: nat)
    requires gameSize > 0 && a < |Reports(g, gameSize, lo)|
    ensures lo <= k < |g| && AtHome(g, gameSize, k)
    ensures Reports(g, gameSize, lo)[a] == SlotId(k, gameSize)
  {
    k := MatchIsHome(IdsOf(g), CanonicalIds(|g|, gameSize), lo, a);
  }

  /** No id is reported twice. */
  lemma ReportsDistinct(g: seq<Tile>, gameSize: nat, lo: nat)
    requires gameSize > 0
    ensures forall a, b :: 0 <= a < b < |Reports(g, gameSize, lo)| ==>
              Reports(g, gameSize, lo)[a] != Reports(g, gameSize, lo)[b]
  {
    var want := CanonicalIds(|g|, gameSize);
    forall i, j | 0 <= i < j < |want| ensures want[i] != want[j] {
      if want[i] == want[j] {
        SlotIdInjective(i, j, gameSize);
      }
    }
    MatchesDistinct(IdsOf(g), want, lo);
  }

  /** As a set, the report list of the whole pass is CorrectCells of the final grid. */
  lemma ReportsAreCorrectCells(g: seq<Tile>, gameSize: nat)
    requires gameSize > 0
    ensures forall id :: id in Reports(g, gameSize, 0) <==> id in CorrectCells(g, gameSize)
  {
    forall id | id in Reports(g, gameSize, 0) ensures id in CorrectCells(g, gameSize) {
      var a :| 0 <= a < |Reports(g, gameSize, 0)| && Reports(g, gameSize, 0)[a] == id;
      var k := ReportIsHomeSlot(g, gameSize, 0, a);
      assert g[k].id == id;
    }
    forall id | id in CorrectCells(g, gameSize) ensures id in Reports(g, gameSize, 0) {
      var k :| 0 <= k < |g| && AtHome(g, gameSize, k) && g[k].id == id;
      HomeSlotReported(g, gameSize, 0, k);
    }
  }

  /**
    One more iteration of the pass adds the report for slot i, if its tile is
    at home, after the earlier ones; stated with the comparison the loop makes.
   */
  lemma ReportsStep(after: seq<Tile>, before: seq<Tile>, gameSize: nat, i: nat, reported: seq<string>)
    requires gameSize > 0 && i < |after| == |before| && after[i + 1..] == before[i + 1..]
    requires reported == Reports(before, gameSize, i + 1)
    ensures Reports(after, gameSize, i) ==
              reported + (if after[i].id == GetActualRowAndCol(i + 1, gameSize) then [GetActualRowAndCol(i + 1, gameSize)] else [])
  {
    var want := CanonicalIds(|after|, gameSize);
    forall k | i + 1 <= k < |after| ensures IdsOf(after)[k] == IdsOf(before)[k] {
      assert after[k] == after[i + 1..][k - i - 1];
    }
    MatchesFrom(IdsOf(after), IdsOf(before), want, i + 1);
    assert want[i] == GetActualRowAndCol(i + 1, gameSize);
  }

  /**
    The list before iteration i of the backward pass (i = -1 once it is
    over): iterations |s|-1, ..., i+1 applied to s, in that order.
   */
  function ShuffleTo(s: seq<Tile>, rands: seq<real>, i: int): (r: seq<Tile>)
    requires |rands| == |s| && ValidDraws(rands) && -1 <= i < |s|
    ensures |r| == |s|
    decreases |s| - i
  {
    if i == |s| - 1 then s
    else Swap(ShuffleTo(s, rands, i + 1), i + 1, Draw(rands[i + 1], i + 1))
  }

  /** What is left of the pass after iteration i + 1 turns ShuffleTo into the whole pass. */
  lemma {:induction false} ShuffleToRest(s: seq<Tile>, rands: seq<real>, i: int)
    requires |rands| == |s| && ValidDraws(rands) && -1 <= i < |s|
    ensures ShufflePass(ShuffleTo(s, rands, i), rands, i) == ShufflePass(s, rands, |s| - 1)
    decreases |s| - i
  {
    if i < |s| - 1 {
      ShuffleToRest(s, rands, i + 1);
    }
  }

  /**
    The state of shuffleGridArr before iteration i (i = -1 once the loop is
    over): iterations |arr|-1, ..., i+1 have been applied, and the reports so
    far are those of the slots above i.
   */
  predicate ShuffleState(arr: seq<Tile>, rands: seq<real>, gameSize: nat, cur: seq<Tile>, i: int, reported: seq<string>) {
    && gameSize > 0 && |rands| == |arr| && ValidDraws(rands) && -1 <= i < |arr|
    && cur == ShuffleTo(arr, rands, i)
    && reported == Reports(cur, gameSize, i + 1)
  }

  /**
    Iteration i of shuffleGridArr: after the swap with the drawn slot, the
    state is the one before iteration i - 1, with slot i's own report added.
   */
  lemma ShuffleIteration(arr: seq<Tile>, rands: seq<real>, gameSize: nat, cur: seq<Tile>, i: nat,
                          reported: seq<string>, next: seq<string>)
    requires ShuffleState(arr, rands, gameSize, cur, i, reported)
    requires var after := Swap(cur, i, Draw(rands[i], i));
             var id := GetActualRowAndCol(i + 1, gameSize);
             next == reported + (if after[i].id == id then [id] else [])
    ensures ShuffleState(arr, rands, gameSize, Swap(cur, i, Draw(rands[i], i)), i - 1, next)
  {
    var after := Swap(cur, i, Draw(rands[i], i));
    assert after[i + 1..] == cur[i + 1..];
    ReportsStep(after, cur, gameSize, i, reported);
  }

  /** Once every iteration has run, the grid is the whole pass and the reports cover every slot. */
  lemma ShuffleDone(arr: seq<Tile>, rands: seq<real>, gameSize: nat, cur: seq<Tile>, reported: seq<string>)
    requires ShuffleState(arr, rands, gameSize, cur, -1, reported)
    ensures cur == ShufflePass(arr, rands, |arr| - 1)
    ensures |cur| == |arr| && multiset(cur) == multiset(arr)
    ensures reported == Reports(cur, gameSize, 0)
  {
    ShuffleToRest(arr, rands, -1);
    ShufflePassPermutes(arr, rands, |arr| - 1);
  }

  /**
    The body of shuffleGridArr's loop at iteration i, with j the drawn slot:
    the exchange through a temporary, then the report of slot i's canonical
    id when it now holds its own tile.
   */
  method ShuffleIterationStep(arrCopy: array<Tile>, i: nat, j: nat, sizeOfGame: nat, reported: seq<string>)
    returns (next: seq<string>)
    requires i < arrCopy.Length && j < arrCopy.Length && sizeOfGame > 0
    modifies arrCopy
    ensures arrCopy[..] == Swap(old(arrCopy[..]), i, j)
    ensures var id := GetActualRowAndCol(i + 1, sizeOfGame);
            next == reported + (if arrCopy[..][i].id == id then [id] else [])
  {
    var temp := arrCopy[j];
    arrCopy[j] := arrCopy[i];
    arrCopy[i] := temp;
    assert arrCopy[..] == old(arrCopy[..])[i := old(arrCopy[..])[j]][j := old(arrCopy[..])[i]];
    next := reported;
    var elCorrectPosition := arrCopy[i].id;
    var elActualPosition := GetActualRowAndCol(i + 1, sizeOfGame);
    if elCorrectPosition == elActualPosition {
      next := next + [elActualPosition];
    }
  }

  /**
    shuffleGridArr: a backward Fisher-Yates pass over a copy of `arr`
    (iteration i draws rands[i]), reporting, at each iteration i after the
    swap, the canonical id of slot i when it holds its own tile. Each report
    stands for one call updateCorrectTiles(update, id). The source also
    calls it with a size of 0, on the empty slice list, where the loop does
    not run and the empty list comes back with no report; the model's
    caller, PreparePuzzle, returns the empty list itself in that case.
   */
  method ShuffleGridArr(arr: seq<Tile>, rands: seq<real>, sizeOfGame: nat)
    returns (shuffled: seq<Tile>, reported: seq<string>)
    requires sizeOfGame > 0
    requires |rands| == |arr| && ValidDraws(rands)
    ensures shuffled == ShufflePass(arr, rands, |arr| - 1)
    ensures |shuffled| == |arr| && multiset(shuffled) == multiset(arr)
    ensures reported == Reports(shuffled, sizeOfGame, 0)
  {
    var arrCopy := new Tile[|arr|](k requires 0 <= k < |arr| => arr[k]);
    ghost var cur := arr;
    assert arrCopy[..] == cur;
    reported := [];
    var i := arrCopy.Length - 1;
    while i >= 0
      invariant arrCopy[..] == cur
      invariant ShuffleState(arr, rands, sizeOfGame, cur, i, reported)
    {
      var j := Draw(rands[i], i);
      ghost var before, prevReported := cur, reported;
      reported := ShuffleIterationStep(arrCopy, i, j, sizeOfGame, reported);
      cur := Swap(cur, i, j);
      ShuffleIteration(arr, rands, sizeOfGame, before, i, prevReported, reported);
      i := i - 1;
    }
    shuffled := arrCopy[..];
    ShuffleDone(arr, rands, sizeOfGame, shuffled, reported);
  }
}
