/**
  The App component's puzzle state and its handlers: loading a picture,
  changing the size or the template picture, and the drag-and-drop of
  tiles, which reorders the tiles in the game field and keeps the set of
  correct tiles up to date.
 */
module App {
  import opened Wrappers
  import opened Position
  import opened Dom
  import opened Puzzle
  import opened Tracker
  import CanvasFit

  /** getBoundingClientRect of the game field, in CSS pixels. */
  datatype Rect = Rect(left: real, top: real, width: real, height: real)

  predicate HasArea(r: Rect) {
    r.width > 0.0 && r.height > 0.0
  }

  /** imageFile.current: nothing yet (""), an uploaded File, or a template picture URL. */
  datatype ImageSource = NoImage | Upload(name: string) | Template(url: string)

  // ---------------------------------------------------------------------------
  // getRowAndCol: the cell under the pointer
  // ---------------------------------------------------------------------------

  /**
    The id of the cell under a pointer at (offsetX, offsetY) from the
    field's top-left corner: the field is cut into gameSize columns and rows
    and the 1-based column and row are counted with Math.floor. With a
    gameSize of 0 the cell size is Infinity, both quotients are 0 and the id
    is "1-1".
   */
  function CellUnderPointer(offsetX: real, offsetY: real, width: real, height: real, gameSize: nat): (id: string)
    requires width > 0.0 && height > 0.0
    ensures id != ""
  {
    if gameSize == 0 then TransformRowAndCol(1, 1)
    else
      var cellWidth := width / gameSize as real;
      var cellHeight := height / gameSize as real;
      var col := (offsetX / cellWidth).Floor + 1;
      var row := (offsetY / cellHeight).Floor + 1;
      TransformRowAndCol(row, col)
  }

  /** Math.floor(x / w) is c exactly when x lies in [c * w, (c + 1) * w). */
  lemma FloorOfQuotient(x: real, w: real, c: int)
    requires w > 0.0 && c as real * w <= x < (c + 1) as real * w
    ensures (x / w).Floor == c
  {
    var q := x / w;
    assert q * w == x;
    assert (q - c as real) * w == x - c as real * w;
    assert ((c + 1) as real - q) * w == (c + 1) as real * w - x;
    CanvasFit.ProductSign(q - c as real, w);
    CanvasFit.ProductSign((c + 1) as real - q, w);
  }

  /** The pointer is over the rectangle of slot k of the gameSize x gameSize field. */
  predicate PointerOverSlot(offsetX: real, offsetY: real, width: real, height: real, gameSize: nat, k: nat)
    requires gameSize > 0
  {
    var cellWidth := width / gameSize as real;
    var cellHeight := height / gameSize as real;
    var row, col := k / gameSize, k % gameSize;
    && col as real * cellWidth <= offsetX < (col + 1) as real * cellWidth
    && row as real * cellHeight <= offsetY < (row + 1) as real * cellHeight
  }

  /** Over the rectangle of slot k, getRowAndCol names slot k's own cell. */
  lemma PointerOverSlotCell(offsetX: real, offsetY: real, width: real, height: real, gameSize: nat, k: nat)
    requires width > 0.0 && height > 0.0 && gameSize > 0 && k < gameSize * gameSize
    requires PointerOverSlot(offsetX, offsetY, width, height, gameSize, k)
    ensures CellUnderPointer(offsetX, offsetY, width, height, gameSize) == SlotId(k, gameSize)
  {
    var n := gameSize as real;
    var cellWidth, cellHeight := width / n, height / n;
    FloorOfQuotient(offsetX, cellWidth, k % gameSize);
    FloorOfQuotient(offsetY, cellHeight, k / gameSize);
    SlotIdInGrid(k, gameSize);
  }

  /**
    A pointer inside the field names a cell of the grid: row and col are
    both in [1, gameSize].
   */
  lemma PointerInFieldCell(offsetX: real, offsetY: real, width: real, height: real, gameSize: nat)
    returns (row: int, col: int)
    requires width > 0.0 && height > 0.0 && gameSize > 0
    requires 0.0 <= offsetX < width && 0.0 <= offsetY < height
    ensures 1 <= row <= gameSize && 1 <= col <= gameSize
    ensures CellUnderPointer(offsetX, offsetY, width, height, gameSize) == TransformRowAndCol(row, col)
  {
    var c := FloorInField(offsetX, width, gameSize);
    var r := FloorInField(offsetY, height, gameSize);
    col, row := c + 1, r + 1;
  }

  /** Math.floor(x / (w / n)) for x in [0, w) is a column index in [0, n). */
  lemma FloorInField(x: real, w: real, n: nat) returns (c: int)
    requires w > 0.0 && n > 0 && 0.0 <= x < w
    ensures c == (x / (w / n as real)).Floor && 0 <= c < n
  {
    var cw := w / n as real;
    var q := x / cw;
    c := q.Floor;
    assert cw * n as real == w;
    assert q * cw == x;
    CanvasFit.ProductSign(q, cw);
    assert (n as real - q) * cw == w - x;
    CanvasFit.ProductSign(n as real - q, cw);
  }

  // ---------------------------------------------------------------------------
  // The component
  // ---------------------------------------------------------------------------

  class App {
    /** The `grid` state: the tiles in the order they were rendered. */
    var grid: seq<Tile>
    /** The tile elements of the game field, in their current DOM order. */
    var children: seq<Tile>
    /** The `correctTiles` state. */
    var correctTiles: set<string>
    /** The `gameSize` state; the select's empty default option makes it 0. */
    var gameSize: nat
    var imageFile: ImageSource
    var templateSelectValue: string
    /** The drag gesture: draggedTile, targetTile and draggedFrom. */
    var draggedTile: Option<Tile>
    var targetTile: Option<Tile>
    var draggedFrom: string
    /** Whether useFireworks returned its handles (a canvas with a 2D context). */
    const fireworksAvailable: bool
    /** How often launchFireworks and stopFireworks were called. */
    var launchCalls: nat
    var stopCalls: nat

    /** The tiles on the board: its state and its DOM order, and the size. */
    function Board(): (seq<Tile>, seq<Tile>, nat)
      reads this
    {
      (grid, children, gameSize)
    }

    function Gesture(): (Option<Tile>, Option<Tile>, string)
      reads this
    {
      (draggedTile, targetTile, draggedFrom)
    }

    function Sources(): (ImageSource, string)
      reads this
    {
      (imageFile, templateSelectValue)
    }

    /** The game field shows the tiles of the grid, each tile once. */
    predicate Valid()
      reads this`children, this`grid
    {
      DistinctIds(children) && multiset(children) == multiset(grid)
    }

    /** The tracker holds exactly the cells whose tile is at home. */
    predicate Exact()
      reads this
    {
      if gameSize == 0 then correctTiles == {} else correctTiles == CorrectCells(children, gameSize)
    }

    constructor(fireworksAvailable: bool)
      ensures this.fireworksAvailable == fireworksAvailable
      ensures grid == [] && children == [] && correctTiles == {} && gameSize == 3
      ensures imageFile == NoImage && templateSelectValue == ""
      ensures draggedTile == None && targetTile == None && draggedFrom == ""
      ensures launchCalls == 0 && stopCalls == 0
      ensures Valid() && Exact()
    {
      this.fireworksAvailable := fireworksAvailable;
      grid, children, correctTiles, gameSize := [], [], {}, 3;
      imageFile, templateSelectValue := NoImage, "";
      draggedTile, targetTile, draggedFrom := None, None, "";
      launchCalls, stopCalls := 0, 0;
    }

    /**
      updateCorrectTiles: the set becomes a copy of the previous one with
      `item` added or removed, and the fireworks are launched when it then
      holds gameSize * gameSize ids.
     */
    method UpdateCorrectTiles(action: Action, item: string)
      modifies this`correctTiles, this`launchCalls
      ensures correctTiles == Updated(old(correctTiles), action, item)
      ensures launchCalls == old(launchCalls) +
                (if fireworksAvailable && |correctTiles| == gameSize * gameSize then 1 else 0)
    {
      var updatedTiles := correctTiles;
      if action == Update {
        updatedTiles := updatedTiles + {item};
      } else {
        if item in updatedTiles {
          updatedTiles := updatedTiles - {item};
        }
      }
      if |updatedTiles| == gameSize * gameSize && fireworksAvailable {
        launchCalls := launchCalls + 1;
      }
      correctTiles := updatedTiles;
    }

    method StopFireworksIfAvailable()
      modifies this
      ensures stopCalls == old(stopCalls) + (if fireworksAvailable then 1 else 0)
      ensures Board() == old(Board()) && Gesture() == old(Gesture()) && Sources() == old(Sources())
      ensures correctTiles == old(correctTiles) && launchCalls == old(launchCalls)
    {
      if fireworksAvailable {
        stopCalls := stopCalls + 1;
      }
    }

    // -------------------------------------------------------------------------
    // Preparing a puzzle
    // -------------------------------------------------------------------------

    /**
      preparePuzzle once the picture is drawn: the slicing loop, then
      shuffleGridArr, whose reports are passed on to updateCorrectTiles in
      the order they are made. The result is the shuffled grid. At size 0
      the slicing loop yields no tile, and the shuffle of that empty list,
      which would return it unchanged with no report, is not called.
     */
    method PreparePuzzle(size: nat, rands: seq<real>) returns (tiles: seq<Tile>)
      requires |rands| == size * size && ValidDraws(rands)
      modifies this
      ensures IsArrangement(tiles, size)
      ensures size == 0 ==> tiles == [] && correctTiles == old(correctTiles) && launchCalls == old(launchCalls)
      ensures size > 0 ==> tiles == ShufflePass(SolvedGrid(size), rands, size * size - 1)
      ensures size > 0 ==> correctTiles == Seeded(old(correctTiles), Reports(tiles, size, 0))
      ensures size > 0 ==>
                launchCalls == old(launchCalls) +
                  (if fireworksAvailable then Launches(old(correctTiles), Reports(tiles, size, 0), gameSize * gameSize) else 0)
      ensures Board() == old(Board()) && Gesture() == old(Gesture()) && Sources() == old(Sources())
      ensures stopCalls == old(stopCalls)
    {
      var imgPieces := SliceTiles(size);
      if size == 0 {
        tiles := imgPieces;
        return;
      }
      var reported;
      tiles, reported := ShuffleGridArr(imgPieces, rands, size);
      ApplyReports(reported);
    }

    /** Each report of the shuffle is passed to updateCorrectTiles as an update, in order. */
    method ApplyReports(reported: seq<string>)
      modifies this`correctTiles, this`launchCalls
      ensures correctTiles == Seeded(old(correctTiles), reported)
      ensures launchCalls == old(launchCalls) +
                (if fireworksAvailable then Launches(old(correctTiles), reported, gameSize * gameSize) else 0)
    {
      var k := 0;
      while k < |reported|
        invariant 0 <= k <= |reported|
        invariant correctTiles == Seeded(old(correctTiles), reported[..k])
        invariant launchCalls == old(launchCalls) +
                    (if fireworksAvailable then Launches(old(correctTiles), reported[..k], gameSize * gameSize) else 0)
      {
        SeededStep(old(correctTiles), reported, k, gameSize * gameSize);
        UpdateCorrectTiles(Update, reported[k]);
        k := k + 1;
      }
      assert reported[..k] == reported;
    }

    /**
      The seeding of a new puzzle, started from the empty set: the set ends
      as the cells at home, and the launch count grows by one when the
      number of such cells reaches a positive gameSize * gameSize.
     */
    method SeedNewPuzzle(size: nat, rands: seq<real>) returns (tiles: seq<Tile>)
      requires |rands| == size * size && ValidDraws(rands)
      requires correctTiles == {}
      modifies this
      ensures IsArrangement(tiles, size) && DistinctIds(tiles)
      ensures size == 0 ==> tiles == [] && correctTiles == {}
      ensures size > 0 ==> tiles == ShufflePass(SolvedGrid(size), rands, size * size - 1)
      ensures size > 0 ==> correctTiles == CorrectCells(tiles, size)
      ensures launchCalls == old(launchCalls) +
                (if fireworksAvailable && size > 0 && 0 < gameSize * gameSize <= |correctTiles| then 1 else 0)
      ensures size == gameSize ==>
                launchCalls == old(launchCalls) +
                  (if fireworksAvailable && size > 0 && tiles == SolvedGrid(size) then 1 else 0)
      ensures Board() == old(Board()) && Gesture() == old(Gesture()) && Sources() == old(Sources())
      ensures stopCalls == old(stopCalls)
    {
      tiles := PreparePuzzle(size, rands);
      if size > 0 {
        ArrangementIds(tiles, size);
        var reports := Reports(tiles, size, 0);
        ReportsAreCorrectCells(tiles, size);
        ReportsDistinct(tiles, size, 0);
        assert correctTiles == CorrectCells(tiles, size);
        SeededSize(reports);
        LaunchesFromEmpty(reports, gameSize * gameSize);
        if size == gameSize {
          SeedingLaunchesIffSolved(tiles, size);
        }
      }
    }

    /**
      handleImageUpload: with no file chosen nothing happens; otherwise
      stopFireworks is called (when the hook handed out its handles), the
      template choice, the grid and the set are cleared, and the new picture
      is cut into a shuffled puzzle of the current size whose tracker is
      exact; at size 0 the grid stays empty.
     */
    method HandleImageUpload(files: seq<string>, rands: seq<real>)
      requires |rands| == gameSize * gameSize && ValidDraws(rands)
      modifies this
      ensures |files| == 0 ==>
                Board() == old(Board()) && correctTiles == old(correctTiles) && Sources() == old(Sources())
                && launchCalls == old(launchCalls) && stopCalls == old(stopCalls)
      ensures |files| > 0 ==> stopCalls == old(stopCalls) + (if fireworksAvailable then 1 else 0)
      ensures |files| > 0 ==> imageFile == Upload(files[0]) && templateSelectValue == ""
      ensures |files| > 0 ==> gameSize == old(gameSize) && children == grid && Valid() && Exact()
      ensures |files| > 0 && gameSize > 0 ==> grid == ShufflePass(SolvedGrid(gameSize), rands, gameSize * gameSize - 1)
      ensures |files| > 0 && gameSize == 0 ==> grid == []
      ensures |files| > 0 ==>
                launchCalls == old(launchCalls) +
                  (if fireworksAvailable && gameSize > 0 && grid == SolvedGrid(gameSize) then 1 else 0)
      ensures Gesture() == old(Gesture())
    {
      if |files| == 0 {
        return;
      }
      StopFireworksIfAvailable();
      templateSelectValue := "";
      grid, children := [], [];
      correctTiles := {};
      imageFile := Upload(files[0]);
      var puzzleData := SeedNewPuzzle(gameSize, rands);
      grid, children := puzzleData, puzzleData;
    }

    /**
      handleChangePuzzleSize: stopFireworks is called (when the hook handed
      out its handles), the grid and the set are cleared and the size
      changes; with a picture loaded it is cut anew at the new size, and the
      grid stays empty at size 0. The seeding's launch check still compares
      with the size the handler was created with (the closure's gameSize).
     */
    method HandleChangePuzzleSize(value: nat, rands: seq<real>)
      requires |rands| == value * value && ValidDraws(rands)
      modifies this
      ensures stopCalls == old(stopCalls) + (if fireworksAvailable then 1 else 0)
      ensures gameSize == value && children == grid && Sources() == old(Sources())
      ensures old(imageFile) == NoImage ==> grid == [] && correctTiles == {} && launchCalls == old(launchCalls)
      ensures old(imageFile) != NoImage && value > 0 ==>
                grid == ShufflePass(SolvedGrid(value), rands, value * value - 1)
      ensures old(imageFile) != NoImage && value == 0 ==> grid == []
      ensures old(imageFile) != NoImage ==>
                launchCalls == old(launchCalls) +
                  (if fireworksAvailable && value > 0 && 0 < old(gameSize) * old(gameSize) <= |correctTiles| then 1 else 0)
      ensures Valid() && Exact()
      ensures Gesture() == old(Gesture())
    {
      StopFireworksIfAvailable();
      grid, children := [], [];
      correctTiles := {};
      if imageFile != NoImage {
        var puzzleData := SeedNewPuzzle(value, rands);
        grid, children := puzzleData, puzzleData;
      }
      gameSize := value;
    }

    /**
      handleChangeTemplateSelect: the empty choice does nothing; otherwise
      stopFireworks is called (when the hook handed out its handles), the
      grid and the set are cleared, and the chosen template picture is cut
      into a shuffled puzzle of the current size whose tracker is exact; at
      size 0 the grid stays empty.
     */
    method HandleChangeTemplateSelect(targetVal: string, rands: seq<real>)
      requires |rands| == gameSize * gameSize && ValidDraws(rands)
      modifies this
      ensures targetVal == "" ==>
                Board() == old(Board()) && correctTiles == old(correctTiles) && Sources() == old(Sources())
                && launchCalls == old(launchCalls) && stopCalls == old(stopCalls)
      ensures targetVal != "" ==> stopCalls == old(stopCalls) + (if fireworksAvailable then 1 else 0)
      ensures targetVal != "" ==> imageFile == Template(targetVal) && templateSelectValue == targetVal
      ensures targetVal != "" ==> gameSize == old(gameSize) && children == grid && Valid() && Exact()
      ensures targetVal != "" && gameSize > 0 ==> grid == ShufflePass(SolvedGrid(gameSize), rands, gameSize * gameSize - 1)
      ensures targetVal != "" && gameSize == 0 ==> grid == []
      ensures targetVal != "" ==>
                launchCalls == old(launchCalls) +
                  (if fireworksAvailable && gameSize > 0 && grid == SolvedGrid(gameSize) then 1 else 0)
      ensures Gesture() == old(Gesture())
    {
      if targetVal == "" {
        return;
      }
      StopFireworksIfAvailable();
      grid, children := [], [];
      correctTiles := {};
      templateSelectValue := targetVal;
      var puzzleData := SeedNewPuzzle(gameSize, rands);
      grid, children := puzzleData, puzzleData;
      imageFile := Template(targetVal);
    }

    // -------------------------------------------------------------------------
    // Drag and drop
    // -------------------------------------------------------------------------

    /** handleDragStart: the tile being dragged is recorded. */
    method HandleDragStart(tile: Tile)
      modifies this
      ensures draggedTile == Some(tile) && targetTile == old(targetTile) && draggedFrom == old(draggedFrom)
      ensures Board() == old(Board()) && Sources() == old(Sources()) && correctTiles == old(correctTiles)
      ensures launchCalls == old(launchCalls) && stopCalls == old(stopCalls)
    {
      draggedTile := Some(tile);
    }

    /** handleDragOver (on a tile): the tile under the pointer is recorded. */
    method HandleDragOver(tile: Tile)
      modifies this
      ensures targetTile == Some(tile) && draggedTile == old(draggedTile) && draggedFrom == old(draggedFrom)
      ensures Board() == old(Board()) && Sources() == old(Sources()) && correctTiles == old(correctTiles)
      ensures launchCalls == old(launchCalls) && stopCalls == old(stopCalls)
    {
      targetTile := Some(tile);
    }

    /**
      getRowAndCol: the id of the cell under the pointer, or "" when no tile
      is being dragged or the game field is not mounted.
     */
    function GetRowAndCol(clientX: real, clientY: real, field: Option<Rect>): (res: string)
      requires field.Some? ==> HasArea(field.value)
      reads this`draggedTile, this`gameSize
      ensures res == "" <==> draggedTile.None? || field.None?
      ensures draggedTile.Some? && field.Some? ==>
                res == CellUnderPointer(clientX - field.value.left, clientY - field.value.top,
                                        field.value.width, field.value.height, gameSize)
    {
      if draggedTile.Some? && field.Some? then
        var r := field.value;
        CellUnderPointer(clientX - r.left, clientY - r.top, r.width, r.height, gameSize)
      else ""
    }

    /**
      handleDragOverGetStartPosition (on the field): a dragover latches the
      cell under the pointer into draggedFrom when draggedFrom is empty, and
      otherwise leaves it. Only handleDrop empties it again, so a drag that
      ends without a drop leaves its cell latched for the next gesture
      (see DropAfterCancelledDrag).
     */
    method HandleDragOverGetStartPosition(clientX: real, clientY: real, field: Option<Rect>)
      requires field.Some? ==> HasArea(field.value)
      modifies this
      ensures draggedFrom == if old(draggedFrom) == "" then GetRowAndCol(clientX, clientY, field) else old(draggedFrom)
      ensures draggedTile == old(draggedTile) && targetTile == old(targetTile)
      ensures Board() == old(Board()) && Sources() == old(Sources()) && correctTiles == old(correctTiles)
      ensures launchCalls == old(launchCalls) && stopCalls == old(stopCalls)
    {
      var rowAndCol := GetRowAndCol(clientX, clientY, field);
      if draggedFrom == "" {
        draggedFrom := rowAndCol;
      }
    }

    /**
      handleDrop (on a tile): unless both a dragged and a target tile are
      recorded nothing happens. Otherwise the dropped-on tile becomes the
      target, the dragged and the target tile exchange places among the
      field's children, the target tile is marked correct when it belongs
      in the cell the drag started from (draggedFrom, when set, which is
      then cleared), and the target is forgotten.
     */
    method HandleDrop(tile: Tile)
      requires Valid()
      modifies this
      ensures Valid()
      ensures old(draggedTile).None? || old(targetTile).None? ==>
                grid == old(grid) && children == old(children)
                && draggedTile == old(draggedTile) && targetTile == old(targetTile) && draggedFrom == old(draggedFrom)
                && correctTiles == old(correctTiles) && launchCalls == old(launchCalls)
      ensures old(draggedTile).Some? && old(targetTile).Some? ==>
                draggedTile == old(draggedTile) && targetTile == None && draggedFrom == ""
      ensures old(draggedTile).Some? && old(targetTile).Some? ==>
                children == DropOrder(old(children), old(draggedTile).value, tile)
      ensures old(draggedTile).Some? && old(targetTile).Some? && old(draggedFrom) == "" ==>
                correctTiles == old(correctTiles) && launchCalls == old(launchCalls)
      ensures old(draggedTile).Some? && old(targetTile).Some? && old(draggedFrom) != "" ==>
                correctTiles == Updated(old(correctTiles), ActionFor(tile.id == old(draggedFrom)), tile.id)
      ensures old(draggedTile).Some? && old(targetTile).Some? && old(draggedFrom) != "" ==>
                launchCalls == old(launchCalls) + (if fireworksAvailable && |correctTiles| == gameSize * gameSize then 1 else 0)
      ensures grid == old(grid) && gameSize == old(gameSize)
      ensures imageFile == old(imageFile) && templateSelectValue == old(templateSelectValue)
      ensures stopCalls == old(stopCalls)
    {
      if draggedTile.None? || targetTile.None? {
        return;
      }
      targetTile := Some(tile);
      ExchangeTiles(draggedTile.value, tile);
      MarkDropTarget(tile);
    }

    /**
      The end of handleDrop: the dropped-on tile is marked correct when it
      belongs in the cell the drag started from (draggedFrom, when set,
      which is then cleared), and the target is forgotten.
     */
    method MarkDropTarget(tile: Tile)
      modifies this`correctTiles, this`launchCalls, this`draggedFrom, this`targetTile
      ensures targetTile == None
      ensures old(draggedFrom) == "" ==>
                correctTiles == old(correctTiles) && launchCalls == old(launchCalls) && draggedFrom == ""
      ensures old(draggedFrom) != "" ==>
                correctTiles == Updated(old(correctTiles), ActionFor(tile.id == old(draggedFrom)), tile.id)
                && draggedFrom == ""
      ensures old(draggedFrom) != "" ==>
                launchCalls == old(launchCalls) + (if fireworksAvailable && |correctTiles| == gameSize * gameSize then 1 else 0)
    {
      if draggedFrom != "" {
        UpdateCorrectTiles(ActionFor(tile.id == draggedFrom), tile.id);
        draggedFrom := "";
      }
      targetTile := None;
    }

    /**
      The DOM part of handleDrop: when both tiles are children of the field,
      the dragged tile is inserted before the target's next sibling and the
      target before the dragged tile's former next sibling.
     */
    method ExchangeTiles(dragged: Tile, tile: Tile)
      requires Valid()
      modifies this`children
      ensures Valid() && children == DropOrder(old(children), dragged, tile)
    {
      if dragged in children && tile in children {
        var s := children;
        DropReordersToSwap(s, dragged, tile);
        var next1 := NextSibling(s, dragged);
        var next2 := NextSibling(s, tile);
        NextSiblingIsChild(s, tile);
        var s1 := InsertBefore(s, dragged, next2);
        assert tile in s1 && (next1.Some? ==> next1.value in s1);
        children := InsertBefore(s1, tile, next1);
        assert children == DropOrder(s, dragged, tile);
      }
    }

    /**
      handleDropGetFinishPosition (on the field, after the tile's handler):
      with no dragged tile or no field nothing happens; otherwise the
      dragged tile is marked correct exactly when its id is the cell under
      the pointer, and the dragged tile is forgotten.
     */
    method HandleDropGetFinishPosition(clientX: real, clientY: real, field: Option<Rect>)
      requires field.Some? ==> HasArea(field.value)
      modifies this
      ensures old(draggedTile).None? || field.None? ==>
                Gesture() == old(Gesture()) && correctTiles == old(correctTiles) && launchCalls == old(launchCalls)
      ensures old(draggedTile).Some? && field.Some? ==>
                && correctTiles == Updated(old(correctTiles),
                     ActionFor(old(draggedTile).value.id == old(GetRowAndCol(clientX, clientY, field))),
                     old(draggedTile).value.id)
                && launchCalls == old(launchCalls) +
                     (if fireworksAvailable && |correctTiles| == gameSize * gameSize then 1 else 0)
                && draggedTile == None && targetTile == old(targetTile) && draggedFrom == old(draggedFrom)
      ensures Board() == old(Board()) && Sources() == old(Sources()) && stopCalls == old(stopCalls)
    {
      var rowAndCol := GetRowAndCol(clientX, clientY, field);
      if draggedTile.None? || field.None? {
        return;
      }
      var dragged := draggedTile.value;
      UpdateCorrectTiles(ActionFor(dragged.id == rowAndCol), dragged.id);
      draggedTile := None;
    }

    /**
      A dragover on a tile: the tile's handler and then, as the event
      bubbles, the field's. When the gesture has not latched a start cell
      yet and the pointer is over slot k, draggedFrom becomes slot k's cell.
     */
    method DragOverTile(tile: Tile, clientX: real, clientY: real, field: Option<Rect>)
      requires field.Some? ==> HasArea(field.value)
      modifies this
      ensures targetTile == Some(tile) && draggedTile == old(draggedTile)
      ensures draggedFrom == if old(draggedFrom) == "" then GetRowAndCol(clientX, clientY, field) else old(draggedFrom)
      ensures forall k: nat ::
                old(draggedFrom) == "" && draggedTile.Some? && field.Some? && gameSize > 0 && k < gameSize * gameSize
                && PointerOverSlot(clientX - field.value.left, clientY - field.value.top,
                                   field.value.width, field.value.height, gameSize, k)
                ==> draggedFrom == SlotId(k, gameSize)
      ensures Board() == old(Board()) && Sources() == old(Sources()) && correctTiles == old(correctTiles)
      ensures launchCalls == old(launchCalls) && stopCalls == old(stopCalls)
    {
      HandleDragOver(tile);
      HandleDragOverGetStartPosition(clientX, clientY, field);
      forall k: nat | old(draggedFrom) == "" && draggedTile.Some? && field.Some? && gameSize > 0
                      && k < gameSize * gameSize
                      && PointerOverSlot(clientX - field.value.left, clientY - field.value.top,
                                         field.value.width, field.value.height, gameSize, k)
        ensures draggedFrom == SlotId(k, gameSize)
      {
        var r := field.value;
        PointerOverSlotCell(clientX - r.left, clientY - r.top, r.width, r.height, gameSize, k);
      }
    }

    /**
      The state a drop on `tile` starts from in a well-formed gesture: the
      tracker is exact, the dragged tile sits in slot p and the dropped-on
      tile in slot q, draggedFrom is slot p's cell and the pointer is over
      slot q.
     */
    predicate DropSetUp(tile: Tile, clientX: real, clientY: real, field: Option<Rect>)
      reads this
    {
      && Valid() && Exact() && gameSize > 0 && IsArrangement(children, gameSize)
      && draggedTile.Some? && targetTile.Some? && field.Some? && HasArea(field.value)
      && draggedTile.value in children && tile in children
      && draggedFrom == SlotId(IndexOf(children, draggedTile.value), gameSize)
      && GetRowAndCol(clientX, clientY, field) == SlotId(IndexOf(children, tile), gameSize)
    }

    /**
      A drop on a tile: the tile's handleDrop and then, as the event
      bubbles, the field's handleDropGetFinishPosition. From a well-formed
      gesture the two tiles have exchanged slots, the tracker is still
      exact, and the gesture is over.
     */
    method DropOnTile(tile: Tile, clientX: real, clientY: real, field: Option<Rect>)
      requires Valid() && (field.Some? ==> HasArea(field.value))
      modifies this
      ensures Valid()
      ensures old(DropSetUp(tile, clientX, clientY, field)) ==>
                children == Swap(old(children), old(IndexOf(children, draggedTile.value)), old(IndexOf(children, tile)))
      ensures old(DropSetUp(tile, clientX, clientY, field)) ==>
                Exact() && draggedTile == None && targetTile == None && draggedFrom == ""
      ensures old(DropSetUp(tile, clientX, clientY, field)) ==>
                launchCalls == old(launchCalls)
                  + (if fireworksAvailable && |Updated(old(correctTiles), ActionFor(tile.id == old(draggedFrom)), tile.id)|
                          == gameSize * gameSize then 1 else 0)
                  + (if fireworksAvailable && children == SolvedGrid(gameSize) then 1 else 0)
      ensures grid == old(grid) && gameSize == old(gameSize)
      ensures Sources() == old(Sources()) && stopCalls == old(stopCalls)
    {
      ghost var setUp := DropSetUp(tile, clientX, clientY, field);
      ghost var dragged := draggedTile;
      ghost var cell := GetRowAndCol(clientX, clientY, field);
      if setUp {
        var p, q := IndexOf(children, draggedTile.value), IndexOf(children, tile);
        DropKeepsTrackerExact(children, gameSize, p, q, correctTiles, draggedFrom, cell);
      }
      HandleDrop(tile);
      ghost var afterTarget := correctTiles;
      HandleDropGetFinishPosition(clientX, clientY, field);
      if setUp {
        assert correctTiles == Updated(afterTarget, ActionFor(dragged.value.id == cell), dragged.value.id);
      }
    }

    /**
      A drop on a tile after a drag that ended without a drop. Nothing but
      handleDrop clears draggedFrom, so the cell that drag latched is still
      there, and the dragovers of this gesture have kept it. When it is not
      the cell of slot p, where the dragged tile sits, and the dropped-on
      tile belongs in slot p, the exchange brings that tile home but the
      tracker drops its id: the tracker is no longer exact.
     */
    method DropAfterCancelledDrag(tile: Tile, clientX: real, clientY: real, field: Option<Rect>)
      requires Valid() && Exact() && gameSize > 0 && IsArrangement(children, gameSize)
      requires draggedTile.Some? && targetTile.Some? && field.Some? && HasArea(field.value)
      requires draggedTile.value in children && tile in children && draggedTile.value != tile
      requires tile.id == SlotId(IndexOf(children, draggedTile.value), gameSize)
      requires draggedFrom != "" && draggedFrom != SlotId(IndexOf(children, draggedTile.value), gameSize)
      modifies this
      ensures children == Swap(old(children), old(IndexOf(children, draggedTile.value)), old(IndexOf(children, tile)))
      ensures Valid() && !Exact()
    {
      var p, q := IndexOf(children, draggedTile.value), IndexOf(children, tile);
      ghost var g, stale := children, draggedFrom;
      ghost var cell := GetRowAndCol(clientX, clientY, field);
      ArrangementIds(g, gameSize);
      StaleStartCellLosesTarget(g, gameSize, p, q, stale, cell);
      HandleDrop(tile);
      HandleDropGetFinishPosition(clientX, clientY, field);
      assert tile.id !in correctTiles;
    }
  }

  /**
    A well-formed drop keeps the tracker exact: the tile from slot p is
    dropped onto the tile in slot q, with draggedFrom naming slot p and the
    pointer over slot q's cell; the target tile is marked against
    draggedFrom, then the dragged tile against the cell under the pointer.
    The set that was the cells at home becomes the cells at home of the
    exchanged grid, which is still an arrangement, and it is full exactly
    when that grid is solved.
   */
  lemma DropKeepsTrackerExact(g: seq<Tile>, gameSize: nat, p: nat, q: nat, correct: set<string>,
                              draggedFrom: string, pointerCell: string)
    requires gameSize > 0 && IsArrangement(g, gameSize) && correct == CorrectCells(g, gameSize)
    requires p < |g| && q < |g| && draggedFrom == SlotId(p, gameSize) && pointerCell == SlotId(q, gameSize)
    ensures IsArrangement(Swap(g, p, q), gameSize)
    ensures
      var afterTarget := Updated(correct, ActionFor(g[q].id == draggedFrom), g[q].id);
      var final := Updated(afterTarget, ActionFor(g[p].id == pointerCell), g[p].id);
      && final == CorrectCells(Swap(g, p, q), gameSize)
      && (|final| == gameSize * gameSize <==> Swap(g, p, q) == SolvedGrid(gameSize))
  {
    ArrangementIds(g, gameSize);
    DropKeepsExact(g, gameSize, p, q, draggedFrom, pointerCell);
    SwapPermutes(g, p, q);
    FullIffSolved(Swap(g, p, q), gameSize);
  }

  /** The order handleDrop leaves the children in. */
  function DropOrder(s: seq<Tile>, dragged: Tile, tile: Tile): (r: seq<Tile>)
    requires DistinctIds(s)
    ensures multiset(r) == multiset(s) && DistinctIds(r)
  {
    if dragged in s && tile in s then
      var p, q := IndexOf(s, dragged), IndexOf(s, tile);
      SwapKeepsDistinct(s, p, q);
      SwapPermutes(s, p, q);
      Swap(s, p, q)
    else s
  }

  /**
    On distinct tiles, the two insertBefore calls of handleDrop leave the
    children in DropOrder: the dragged and the dropped-on tile exchanged.
   */
  lemma DropReordersToSwap(s: seq<Tile>, dragged: Tile, tile: Tile)
    requires DistinctIds(s) && dragged in s && tile in s
    ensures DropReorderIs(s, dragged, tile, DropOrder(s, dragged, tile))
    ensures var s1 := InsertBefore(s, dragged, NextSibling(s, tile));
            var next1 := NextSibling(s, dragged);
            && tile in s1 && (next1.Some? ==> next1.value in s1)
            && InsertBefore(s1, tile, next1) == DropOrder(s, dragged, tile)
  {
    var p, q := IndexOf(s, dragged), IndexOf(s, tile);
    assert Distinct(s);
    DropReorderSwaps(s, p, q);
  }
}
