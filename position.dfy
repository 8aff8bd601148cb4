/**
  The position codec of the puzzle: a grid cell (row, col), both 1-based, is
  named by the string "row-col"; a 1-based linear slot number of an N x N grid
  is decoded to the id of the cell it stands for, in row-major order.
 */
module Position {
  import opened Wrappers

  // ---------------------------------------------------------------------------
  // Decimal rendering of integers, as JavaScript's template literals do it for
  // integral numbers.
  // ---------------------------------------------------------------------------

  predicate IsDigit(c: char) {
    '0' <= c <= '9'
  }

  predicate AllDigits(s: string) {
    forall i :: 0 <= i < |s| ==> IsDigit(s[i])
  }

  function DigitChar(d: int): (c: char)
    requires 0 <= d < 10
    ensures IsDigit(c) && c as int - '0' as int == d
  {
    (d + '0' as int) as char
  }

  function DigitValue(c: char): int
    requires IsDigit(c)
  {
    c as int - '0' as int
  }

  /** The shortest decimal numeral of `n` (no sign, no leading zero). */
  function NatToString(n: nat): string
    decreases n
  {
    if n < 10 then [DigitChar(n)] else NatToString(n / 10) + [DigitChar(n % 10)]
  }

  /** A numeral is a non-empty string of digits. */
  lemma {:induction false} NatToStringDigits(n: nat)
    ensures |NatToString(n)| > 0 && AllDigits(NatToString(n))
    decreases n
  {
    if n >= 10 {
      NatToStringDigits(n / 10);
      var s := NatToString(n / 10);
      assert forall i :: 0 <= i < |s| ==> (s + [DigitChar(n % 10)])[i] == s[i];
    }
  }

  /** The value of a string of decimal digits. */
  function ParseNat(s: string): nat
    requires AllDigits(s)
  {
    if |s| == 0 then 0 else ParseNat(s[..|s| - 1]) * 10 + DigitValue(s[|s| - 1])
  }

  /** How `${i}` renders an integral number: a minus sign, then the digits. */
  function IntToString(i: int): string {
    if i < 0 then "-" + NatToString(-i) else NatToString(i)
  }

  /** Reading a numeral gives back its number. */
  lemma {:induction false} ParseNatToString(n: nat)
    ensures AllDigits(NatToString(n)) && ParseNat(NatToString(n)) == n
    decreases n
  {
    var s := NatToString(n);
    NatToStringDigits(n);
    if n < 10 {
      assert s[..|s| - 1] == [];
    } else {
      assert s[..|s| - 1] == NatToString(n / 10);
      ParseNatToString(n / 10);
    }
  }

  // ---------------------------------------------------------------------------
  // transformRowAndCol and its inverse
  // ---------------------------------------------------------------------------

  /** transformRowAndCol: the canonical id "row-col". */
  function TransformRowAndCol(row: int, col: int): string {
    IntToString(row) + "-" + IntToString(col)
  }

  /** Index of the first '-' in `s`, or |s| when there is none. */
  function FirstDash(s: string): (k: nat)
    ensures k <= |s|
    ensures forall i :: 0 <= i < k ==> s[i] != '-'
    ensures k < |s| ==> s[k] == '-'
  {
    if |s| == 0 then 0
    else if s[0] == '-' then 0
    else 1 + FirstDash(s[1..])
  }

  /**
    Reads an id "row-col" with non-negative row and col back into the pair;
    None for any string that is not of that shape.
   */
  function ParseRowAndCol(id: string): Option<(nat, nat)> {
    var k := FirstDash(id);
    if k == |id| then None
    else
      var rowText, colText := id[..k], id[k + 1..];
      if |rowText| > 0 && |colText| > 0 && AllDigits(rowText) && AllDigits(colText)
      then Some((ParseNat(rowText), ParseNat(colText)))
      else None
  }

  /** ParseRowAndCol undoes TransformRowAndCol on non-negative cells. */
  lemma ParseTransformRoundTrip(row: nat, col: nat)
    ensures ParseRowAndCol(TransformRowAndCol(row, col)) == Some((row, col))
  {
    var r, c := NatToString(row), NatToString(col);
    NatToStringDigits(row);
    NatToStringDigits(col);
    var id := TransformRowAndCol(row, col);
    assert id == r + "-" + c;
    assert forall i :: 0 <= i < |r| ==> id[i] == r[i] && id[i] != '-';
    assert id[|r|] == '-';
    assert FirstDash(id) == |r|;
    assert id[..|r|] == r;
    assert id[|r| + 1..] == c;
    ParseNatToString(row);
    ParseNatToString(col);
  }

  /** Distinct non-negative cells have distinct ids. */
  lemma TransformInjective(r1: nat, c1: nat, r2: nat, c2: nat)
    requires TransformRowAndCol(r1, c1) == TransformRowAndCol(r2, c2)
    ensures r1 == r2 && c1 == c2
  {
    ParseTransformRoundTrip(r1, c1);
    ParseTransformRoundTrip(r2, c2);
  }

  // ---------------------------------------------------------------------------
  // getActualRowAndCol: linear slot number to cell id
  // ---------------------------------------------------------------------------

  /**
    Math.ceil(a / b) for integers a and b > 0, counted off in steps of b:
    the r with (r - 1) * b < a <= r * b.
   */
  function CeilDiv(a: int, b: int): (r: int)
    requires b > 0
    ensures (r - 1) * b < a <= r * b
    decreases if a > 0 then a + b else -a
  {
    if a > 0 then
      var r := CeilDiv(a - b, b);
      assert (r + 1) * b == r * b + b;
      r + 1
    else if a <= -b then
      var r := CeilDiv(a + b, b);
      assert (r - 1) * b == r * b - b;
      assert (r - 2) * b == (r - 1) * b - b;
      r - 1
    else 0
  }

  /** The ceiling is the only r with (r - 1) * b < a <= r * b. */
  lemma CeilDivUnique(a: int, b: int, r: int)
    requires b > 0 && (r - 1) * b < a <= r * b
    ensures CeilDiv(a, b) == r
  {
    var c := CeilDiv(a, b);
    if c < r {
      MulMonotone(c, r - 1, b);
      assert false;
    } else if c > r {
      MulMonotone(r, c - 1, b);
      assert false;
    }
  }

  /**
    The (row, col) that getActualRowAndCol computes for 1-based slot `indx`:
    row = ceil(indx / N), and col = indx on the first row, otherwise what is
    left of `indx` after the rows above.
   */
  function ActualRowAndCol(indx: int, gameSize: int): (int, int)
    requires gameSize > 0
  {
    var row := CeilDiv(indx, gameSize);
    var col := if indx <= gameSize then indx else indx - (row - 1) * gameSize;
    (row, col)
  }

  /** getActualRowAndCol */
  function GetActualRowAndCol(indx: int, gameSize: int): string
    requires gameSize > 0
  {
    var (row, col) := ActualRowAndCol(indx, gameSize);
    TransformRowAndCol(row, col)
  }

  /** The canonical id of the 0-based slot `k` of an N x N grid. */
  function SlotId(k: nat, gameSize: nat): string
    requires gameSize > 0
  {
    GetActualRowAndCol(k + 1, gameSize)
  }

  /**
    For every slot number indx >= 1, getActualRowAndCol is row-major
    decoding: row (indx-1) div N + 1 and col (indx-1) mod N + 1; the col is
    always in [1, N] and, for indx <= N*N, so is the row.
   */
  lemma ActualRowAndColIsRowMajor(indx: int, gameSize: int)
    requires gameSize > 0 && indx >= 1
    ensures ActualRowAndCol(indx, gameSize) == ((indx - 1) / gameSize + 1, (indx - 1) % gameSize + 1)
    ensures 1 <= ActualRowAndCol(indx, gameSize).1 <= gameSize
    ensures 1 <= ActualRowAndCol(indx, gameSize).0
    ensures indx <= gameSize * gameSize ==> ActualRowAndCol(indx, gameSize).0 <= gameSize
  {
    var n := gameSize;
    var q, m := (indx - 1) / n, (indx - 1) % n;
    DivMod(indx - 1, n);
    assert (q + 1) * n == q * n + n;
    CeilDivUnique(indx, n, q + 1);
    if indx <= n {
      DivModUnique(indx - 1, n, 0, indx - 1);
    }
    if indx <= n * n {
      if q >= n {
        MulMonotone(n, q, n);
        assert false;
      }
    }
  }

  /** Slot row * N + col (0-based row and col in [0, N)) is cell (row+1, col+1). */
  lemma SlotIdOfCell(row: nat, col: nat, gameSize: nat)
    requires 0 < gameSize && col < gameSize
    ensures SlotId(row * gameSize + col, gameSize) == TransformRowAndCol(row + 1, col + 1)
  {
    DivModUnique(row * gameSize + col, gameSize, row, col);
    ActualRowAndColIsRowMajor(row * gameSize + col + 1, gameSize);
  }

  /** Distinct slots have distinct canonical ids. */
  lemma SlotIdInjective(i: nat, j: nat, gameSize: nat)
    requires gameSize > 0
    requires SlotId(i, gameSize) == SlotId(j, gameSize)
    ensures i == j
  {
    var n := gameSize;
    ActualRowAndColIsRowMajor(i + 1, n);
    ActualRowAndColIsRowMajor(j + 1, n);
    TransformInjective(i / n + 1, i % n + 1, j / n + 1, j % n + 1);
    DivMod(i, n);
    DivMod(j, n);
  }

  /** Every slot id of the N x N grid is a cell (r, c) with r, c in [1, N]. */
  lemma SlotIdInGrid(k: nat, gameSize: nat)
    requires 0 < gameSize && k < gameSize * gameSize
    ensures SlotId(k, gameSize) == TransformRowAndCol(k / gameSize + 1, k % gameSize + 1)
    ensures 1 <= k / gameSize + 1 <= gameSize && 1 <= k % gameSize + 1 <= gameSize
  {
    ActualRowAndColIsRowMajor(k + 1, gameSize);
  }

  // ---------------------------------------------------------------------------
  // Arithmetic helpers
  // ---------------------------------------------------------------------------

  lemma DivMod(a: int, b: int)
    requires b > 0
    ensures a == (a / b) * b + a % b && 0 <= a % b < b
  {
  }

  lemma MulMonotone(a: int, b: int, c: int)
    requires 0 <= c && a <= b
    ensures a * c <= b * c
  {
  }

  /** Quotient and remainder are the only ones with 0 <= rem < b. */
  lemma DivModUnique(a: int, b: int, q: int, m: int)
    requires b > 0 && 0 <= m < b && a == q * b + m
    ensures a / b == q && a % b == m
  {
    DivMod(a, b);
    var q', m' := a / b, a % b;
    if q' < q {
      MulMonotone(q' + 1, q, b);
      assert false;
    } else if q < q' {
      MulMonotone(q + 1, q', b);
      assert false;
    }
  }
}
