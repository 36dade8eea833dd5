/**
 * The N-queens encoder of n-queens/src/main.rs.  Variable `queen_x{x}_y{y}_q{q}`
 * says that queen `q` stands on cell (x, y); there are n³ of them, created
 * queen by queen, row by row, cell by cell.  The restrictions are
 * cardinality groups over those variables: each queen stands on exactly one
 * cell, and each row, column and diagonal holds at most one queen.
 */
module NQueens {
  import opened Wrappers
  import opened Text
  import opened Clauses
  import opened DimacsFormat
  import opened Cnf

  // ---------------------------------------------------------------- names

  /** `queen_pos`: the name of the variable "queen `queen` stands on (x, y)". */
  function QueenPos(queen: nat, x: nat, y: nat): string {
    "queen_x" + NatToString(x) + "_y" + NatToString(y) + "_q" + NatToString(queen)
  }

  /** The number of decimal digits a string starts with. */
  function DigitRun(s: string): (k: nat)
    ensures k <= |s|
  {
    if |s| > 0 && IsDigit(s[0]) then 1 + DigitRun(s[1..]) else 0
  }

  lemma {:induction false} DigitRunOfSplit(a: string, rest: string)
    requires AllDigits(a) && |rest| > 0 && !IsDigit(rest[0])
    ensures DigitRun(a + rest) == |a|
  {
    if |a| > 0 {
      assert (a + rest)[0] == a[0];
      assert (a + rest)[1..] == a[1..] + rest;
      DigitRunOfSplit(a[1..], rest);
    } else {
      assert a + rest == rest;
    }
  }

  /** A run of digits followed by a non-digit is read back unambiguously. */
  lemma DigitsSplit(a: string, ra: string, b: string, rb: string)
    requires AllDigits(a) && AllDigits(b)
    requires |ra| > 0 && !IsDigit(ra[0]) && |rb| > 0 && !IsDigit(rb[0])
    requires a + ra == b + rb
    ensures a == b && ra == rb
  {
    DigitRunOfSplit(a, ra);
    DigitRunOfSplit(b, rb);
    assert a == (a + ra)[..|a|];
    assert b == (b + rb)[..|b|];
    assert ra == (a + ra)[|a|..];
    assert rb == (b + rb)[|b|..];
  }

  /** Equal sequences with a common prefix have equal remainders. */
  lemma CancelPrefix<T>(p: seq<T>, a: seq<T>, b: seq<T>)
    requires p + a == p + b
    ensures a == b
  {
    assert a == (p + a)[|p|..];
    assert b == (p + b)[|p|..];
  }

  /** Helper for `QueenPosInjective`: the layout of a variable name. */
  lemma QueenPosShape(queen: nat, x: nat, y: nat)
    ensures QueenPos(queen, x, y)
            == "queen_x" + (NatToString(x) + ("_y" + (NatToString(y) + ("_q" + NatToString(queen)))))
  {
  }

  /** Different (queen, x, y) triples get different names. */
  lemma QueenPosInjective(q1: nat, x1: nat, y1: nat, q2: nat, x2: nat, y2: nat)
    requires QueenPos(q1, x1, y1) == QueenPos(q2, x2, y2)
    ensures q1 == q2 && x1 == x2 && y1 == y2
  {
    QueenPosShape(q1, x1, y1);
    QueenPosShape(q2, x2, y2);
    var u1 := NatToString(y1) + ("_q" + NatToString(q1));
    var u2 := NatToString(y2) + ("_q" + NatToString(q2));
    CancelPrefix("queen_x", NatToString(x1) + ("_y" + u1), NatToString(x2) + ("_y" + u2));
    DigitsSplit(NatToString(x1), "_y" + u1, NatToString(x2), "_y" + u2);
    CancelPrefix("_y", u1, u2);
    DigitsSplit(NatToString(y1), "_q" + NatToString(q1), NatToString(y2), "_q" + NatToString(q2));
    CancelPrefix("_q", NatToString(q1), NatToString(q2));
    NatToStringInjective(x1, x2);
    NatToStringInjective(y1, y2);
    NatToStringInjective(q1, q2);
  }

  /** The first `width` names of row `y` of `queen`'s board, x ascending. */
  function RowNames(queen: nat, y: nat, width: nat): (r: seq<string>)
    ensures |r| == width
  {
    if width == 0 then [] else RowNames(queen, y, width - 1) + [QueenPos(queen, width - 1, y)]
  }

  lemma {:induction false} RowNamesIndex(queen: nat, y: nat, width: nat, x: nat)
    requires x < width
    ensures RowNames(queen, y, width)[x] == QueenPos(queen, x, y)
  {
    if x < width - 1 {
      RowNamesIndex(queen, y, width - 1, x);
    }
  }

  /** The names of the first `rows` rows of `queen`'s n-by-n board. */
  function BoardNames(n: nat, queen: nat, rows: nat): seq<string> {
    if rows == 0 then [] else BoardNames(n, queen, rows - 1) + RowNames(queen, rows - 1, n)
  }

  /** The names `add_queen_vars` creates for the first `queens` queens, in creation order. */
  function QueenNames(n: nat, queens: nat): seq<string> {
    if queens == 0 then [] else QueenNames(n, queens - 1) + BoardNames(n, queens - 1, n)
  }

  /** Helper (arithmetic for the id formula): one more row of `a` cells. */
  lemma MulStep(k: nat, a: nat)
    ensures (k + 1) * a == k * a + a
  {
  }

  /** Helper (arithmetic): products of naturals are naturals. */
  lemma MulNat(a: nat, b: nat)
    ensures a * b >= 0
  {
  }

  /** Helper (arithmetic): multiplication by a natural is monotone. */
  lemma MulLe(a: nat, b: nat, n: nat)
    requires a <= b
    ensures a * n <= b * n
  {
  }

  lemma {:induction false} BoardNamesLength(n: nat, queen: nat, rows: nat)
    ensures |BoardNames(n, queen, rows)| == rows * n
  {
    if rows > 0 {
      BoardNamesLength(n, queen, rows - 1);
      MulStep(rows - 1, n);
    }
  }

  /** `add_queen_vars` creates n² variables per queen. */
  lemma {:induction false} QueenNamesLength(n: nat, queens: nat)
    ensures |QueenNames(n, queens)| == queens * (n * n)
  {
    if queens > 0 {
      QueenNamesLength(n, queens - 1);
      BoardNamesLength(n, queens - 1, n);
      MulStep(queens - 1, n * n);
    }
  }

  lemma NotInRow(queen: nat, y: nat, width: nat, q: nat, x: nat, y': nat)
    requires q != queen || y' != y || x >= width
    ensures QueenPos(q, x, y') !in RowNames(queen, y, width)
  {
    forall i | 0 <= i < width ensures RowNames(queen, y, width)[i] != QueenPos(q, x, y') {
      RowNamesIndex(queen, y, width, i);
      if QueenPos(queen, i, y) == QueenPos(q, x, y') {
        QueenPosInjective(queen, i, y, q, x, y');
      }
    }
  }

  lemma {:induction false} NotInBoard(n: nat, queen: nat, rows: nat, q: nat, x: nat, y: nat)
    requires q != queen || y >= rows
    ensures QueenPos(q, x, y) !in BoardNames(n, queen, rows)
  {
    if rows > 0 {
      NotInBoard(n, queen, rows - 1, q, x, y);
      NotInRow(queen, rows - 1, n, q, x, y);
    }
  }

  lemma {:induction false} NotInQueens(n: nat, queens: nat, q: nat, x: nat, y: nat)
    requires q >= queens
    ensures QueenPos(q, x, y) !in QueenNames(n, queens)
  {
    if queens > 0 {
      NotInQueens(n, queens - 1, q, x, y);
      NotInBoard(n, queens - 1, n, q, x, y);
    }
  }

  // ------------------------------------------------------------------ ids

  /** The id `add_queen_vars` gives the variable of queen `queen` on (x, y). */
  function QueenId(n: nat, queen: nat, x: nat, y: nat): nat {
    queen * (n * n) + y * n + x
  }

  lemma {:induction false} BoardNamesIndex(n: nat, queen: nat, rows: nat, x: nat, y: nat)
    requires x < n && y < rows
    ensures |BoardNames(n, queen, rows)| == rows * n
    ensures 0 <= y * n + x < rows * n
    ensures BoardNames(n, queen, rows)[y * n + x] == QueenPos(queen, x, y)
  {
    MulNat(y, n);
    var prev := BoardNames(n, queen, rows - 1);
    BoardNamesLength(n, queen, rows);
    BoardNamesLength(n, queen, rows - 1);
    MulStep(y, n);
    MulLe(y + 1, rows, n);
    if y < rows - 1 {
      BoardNamesIndex(n, queen, rows - 1, x, y);
    } else {
      assert y * n == |prev|;
      RowNamesIndex(queen, y, n, x);
    }
  }

  /** Where the ids of queen `queen` lie among those of the first `queens` queens. */
  lemma IdBound(queen: nat, queens: nat, area: nat, j: nat)
    requires queen < queens && j < area
    ensures queen * area + j < queens * area
    ensures queen < queens - 1 ==> queen * area + j < (queens - 1) * area
  {
    MulStep(queen, area);
    MulLe(queen + 1, queens, area);
    if queen < queens - 1 {
      MulLe(queen + 1, queens - 1, area);
    }
  }

  /** The id formula: the name of (queen, x, y) sits at position queen·n² + y·n + x of the creation order. */
  lemma {:induction false} QueenNamesIndex(n: nat, queens: nat, queen: nat, x: nat, y: nat)
    requires queen < queens && x < n && y < n
    ensures |QueenNames(n, queens)| == queens * (n * n)
    ensures QueenId(n, queen, x, y) < queens * (n * n)
    ensures QueenNames(n, queens)[QueenId(n, queen, x, y)] == QueenPos(queen, x, y)
  {
    var prev := QueenNames(n, queens - 1);
    var board := BoardNames(n, queens - 1, n);
    MulNat(y, n);
    var j := y * n + x;
    QueenNamesLength(n, queens);
    QueenNamesLength(n, queens - 1);
    BoardNamesLength(n, queens - 1, n);
    BoardNamesIndex(n, queen, n, x, y);
    IdBound(queen, queens, n * n, j);
    assert QueenNames(n, queens) == prev + board;
    var k := QueenId(n, queen, x, y);
    assert k == queen * (n * n) + j;
    if queen < queens - 1 {
      QueenNamesIndex(n, queens - 1, queen, x, y);
      assert k < |prev|;
      ConcatIndex(prev, board, k);
    } else {
      assert |prev| == queen * (n * n);
      ConcatIndex(prev, board, k);
      assert k - |prev| == j;
    }
  }

  /**
   * `add_queen_vars`: on an empty clause set, creates the n³ variables
   * queen by queen, row by row, cell by cell; no name is created twice.
   */
  method AddQueenVars(sat: CnfSat, n: nat)
    requires sat.Valid() && sat.order == []
    modifies sat
    ensures sat.Valid() && sat.clauses == old(sat.clauses)
    ensures sat.order == QueenNames(n, n)
  {
    for queen := 0 to n
      invariant sat.Valid() && sat.clauses == old(sat.clauses)
      invariant sat.order == QueenNames(n, queen)
    {
      AddBoardVars(sat, n, queen);
    }
  }

  /** The middle loop of `add_queen_vars`: the rows of `queen`'s board, y ascending. */
  method AddBoardVars(sat: CnfSat, n: nat, queen: nat)
    requires sat.Valid() && sat.order == QueenNames(n, queen)
    modifies sat
    ensures sat.Valid() && sat.clauses == old(sat.clauses)
    ensures sat.order == QueenNames(n, queen + 1)
  {
    for y := 0 to n
      invariant sat.Valid() && sat.clauses == old(sat.clauses)
      invariant sat.order == QueenNames(n, queen) + BoardNames(n, queen, y)
    {
      forall x | 0 <= x < n ensures QueenPos(queen, x, y) !in sat.order {
        NotInQueens(n, queen, queen, x, y);
        NotInBoard(n, queen, y, queen, x, y);
      }
      AddRowVars(sat, queen, y, n);
      ConcatAssoc(QueenNames(n, queen), BoardNames(n, queen, y), RowNames(queen, y, n));
    }
  }

  /** The innermost loop of `add_queen_vars`: the cells of row `y` of `queen`'s board, x ascending. */
  method AddRowVars(sat: CnfSat, queen: nat, y: nat, width: nat)
    requires sat.Valid()
    requires forall x :: 0 <= x < width ==> QueenPos(queen, x, y) !in sat.order
    modifies sat
    ensures sat.Valid() && sat.clauses == old(sat.clauses)
    ensures sat.order == old(sat.order) + RowNames(queen, y, width)
  {
    for x := 0 to width
      invariant sat.Valid() && sat.clauses == old(sat.clauses)
      invariant sat.order == old(sat.order) + RowNames(queen, y, x)
    {
      var name := QueenPos(queen, x, y);
      NotInRow(queen, y, x, queen, x, y);
      assert name !in sat.order;
      assert forall other :: other in sat.variables ==> other in sat.order;
      sat.CreateVariable(name);
      ConcatAssoc(old(sat.order), RowNames(queen, y, x), [name]);
    }
  }

  // ------------------------------------------------------------- groups

  /** A cell of one queen's board: the meaning of one variable. */
  datatype Cell = Cell(queen: nat, x: nat, y: nat)

  /** The name of a cell's variable. */
  function CellName(c: Cell): string {
    QueenPos(c.queen, c.x, c.y)
  }

  predicate OnBoard(n: nat, c: Cell) {
    c.queen < n && c.x < n && c.y < n
  }

  /** `iproduct!(0..outer, 0..inner)` mapped through `f`: the outer index varies slowest. */
  function Product(outer: nat, inner: nat, f: (nat, nat) -> Cell): seq<Cell> {
    if outer == 0 then []
    else Product(outer - 1, inner, f) + seq(inner, b requires 0 <= b => f(outer - 1, b))
  }

  lemma {:induction false} ProductMembers(outer: nat, inner: nat, f: (nat, nat) -> Cell, c: Cell)
    ensures c in Product(outer, inner, f) <==> exists a: nat, b: nat :: a < outer && b < inner && f(a, b) == c
  {
    if outer > 0 {
      ProductMembers(outer - 1, inner, f, c);
      var row := seq(inner, b requires 0 <= b => f(outer - 1, b));
      if c in row {
        var b :| 0 <= b < inner && row[b] == c;
        assert f(outer - 1, b) == c;
      }
      if exists a: nat, b: nat :: a < outer && b < inner && f(a, b) == c {
        var a: nat, b: nat :| a < outer && b < inner && f(a, b) == c;
        if a == outer - 1 {
          assert row[b] == c;
        }
      }
    }
  }

  lemma {:induction false} ProductLength(outer: nat, inner: nat, f: (nat, nat) -> Cell)
    ensures |Product(outer, inner, f)| == outer * inner
  {
    if outer > 0 {
      ProductLength(outer - 1, inner, f);
      MulStep(outer - 1, inner);
    }
  }

  /** The cell maps of the seven loops, from the two `iproduct!` indices. */
  function QueenCell(queen: nat): (nat, nat) -> Cell {
    (x: nat, y: nat) => Cell(queen, x, y)
  }

  function RowCell(y: nat): (nat, nat) -> Cell {
    (x: nat, queen: nat) => Cell(queen, x, y)
  }

  function ColumnCell(x: nat): (nat, nat) -> Cell {
    (y: nat, queen: nat) => Cell(queen, x, y)
  }

  function DownLeftCell(start: nat): (nat, nat) -> Cell {
    (queen: nat, i: nat) => Cell(queen, i, start + i)
  }

  function DownTopCell(start: nat): (nat, nat) -> Cell {
    (queen: nat, i: nat) => Cell(queen, start + i, i)
  }

  function UpLeftCell(start: nat): (nat, nat) -> Cell {
    (queen: nat, i: nat) => Cell(queen, i, if i <= start then start - i else 0)
  }

  function UpBottomCell(n: nat, start: nat): (nat, nat) -> Cell {
    (queen: nat, i: nat) => Cell(queen, start + i, if i < n then n - 1 - i else 0)
  }

  /** Lines 54-56: every cell of one queen, x varying slowest. */
  function QueenCells(n: nat, queen: nat): seq<Cell> {
    Product(n, n, QueenCell(queen))
  }

  /** Lines 63-65: every queen on every cell of row `y`, x varying slowest. */
  function RowCells(n: nat, y: nat): seq<Cell> {
    Product(n, n, RowCell(y))
  }

  /** Lines 71-73: every queen on every cell of column `x`, y varying slowest. */
  function ColumnCells(n: nat, x: nat): seq<Cell> {
    Product(n, n, ColumnCell(x))
  }

  /** Lines 79-83: every queen on the `\` diagonal from (0, start): cells (i, start + i). */
  function DownFromLeft(n: nat, start: nat): seq<Cell>
    requires start <= n
  {
    Product(n, n - start, DownLeftCell(start))
  }

  /** Lines 91-95: every queen on the `\` diagonal from (start, 0): cells (start + i, i). */
  function DownFromTop(n: nat, start: nat): seq<Cell>
    requires start <= n
  {
    Product(n, n - start, DownTopCell(start))
  }

  /** Lines 102-106: every queen on the `/` diagonal from (0, start): cells (i, start - i). */
  function UpFromLeft(n: nat, start: nat): seq<Cell> {
    Product(n, start + 1, UpLeftCell(start))
  }

  /** Lines 113-117: every queen on the `/` diagonal from (start, n - 1): cells (start + i, n - 1 - i). */
  function UpFromBottom(n: nat, start: nat): seq<Cell>
    requires start <= n
  {
    Product(n, n - start, UpBottomCell(n, start))
  }

  /** A queen's group holds exactly that queen's n² cells. */
  lemma QueenCellsMembers(n: nat, queen: nat, c: Cell)
    requires queen < n
    ensures |QueenCells(n, queen)| == n * n
    ensures c in QueenCells(n, queen) <==> OnBoard(n, c) && c.queen == queen
  {
    ProductLength(n, n, QueenCell(queen));
    ProductMembers(n, n, QueenCell(queen), c);
    if OnBoard(n, c) && c.queen == queen {
      assert QueenCell(queen)(c.x, c.y) == c;
    }
  }

  /** A row group holds every queen on every cell of that row: n² variables. */
  lemma RowCellsMembers(n: nat, y: nat, c: Cell)
    requires y < n
    ensures |RowCells(n, y)| == n * n
    ensures c in RowCells(n, y) <==> OnBoard(n, c) && c.y == y
  {
    ProductLength(n, n, RowCell(y));
    ProductMembers(n, n, RowCell(y), c);
    if OnBoard(n, c) && c.y == y {
      assert RowCell(y)(c.x, c.queen) == c;
    }
  }

  /** A column group holds every queen on every cell of that column: n² variables. */
  lemma ColumnCellsMembers(n: nat, x: nat, c: Cell)
    requires x < n
    ensures |ColumnCells(n, x)| == n * n
    ensures c in ColumnCells(n, x) <==> OnBoard(n, c) && c.x == x
  {
    ProductLength(n, n, ColumnCell(x));
    ProductMembers(n, n, ColumnCell(x), c);
    if OnBoard(n, c) && c.x == x {
      assert ColumnCell(x)(c.y, c.queen) == c;
    }
  }

  /** The `\` diagonal from (0, start) holds the board cells with y − x = start. */
  lemma DownFromLeftMembers(n: nat, start: nat, c: Cell)
    requires start < n
    ensures c in DownFromLeft(n, start) <==> OnBoard(n, c) && c.y == c.x + start
  {
    ProductMembers(n, n - start, DownLeftCell(start), c);
    if OnBoard(n, c) && c.y == c.x + start {
      assert DownLeftCell(start)(c.queen, c.x) == c;
    }
  }

  /** The `\` diagonal from (start, 0) holds the board cells with x − y = start. */
  lemma DownFromTopMembers(n: nat, start: nat, c: Cell)
    requires start < n
    ensures c in DownFromTop(n, start) <==> OnBoard(n, c) && c.x == c.y + start
  {
    ProductMembers(n, n - start, DownTopCell(start), c);
    if OnBoard(n, c) && c.x == c.y + start {
      assert DownTopCell(start)(c.queen, c.y) == c;
    }
  }

  /** The `/` diagonal from (0, start) holds the board cells with x + y = start. */
  lemma UpFromLeftMembers(n: nat, start: nat, c: Cell)
    requires start < n
    ensures c in UpFromLeft(n, start) <==> OnBoard(n, c) && c.x + c.y == start
  {
    ProductMembers(n, start + 1, UpLeftCell(start), c);
    if OnBoard(n, c) && c.x + c.y == start {
      assert UpLeftCell(start)(c.queen, c.x) == c;
    }
  }

  /** The `/` diagonal from (start, n − 1) holds the board cells with x + y = start + n − 1. */
  lemma UpFromBottomMembers(n: nat, start: nat, c: Cell)
    requires 1 <= start < n
    ensures c in UpFromBottom(n, start) <==> OnBoard(n, c) && c.x + c.y == start + n - 1
  {
    ProductMembers(n, n - start, UpBottomCell(n, start), c);
    if OnBoard(n, c) && c.x + c.y == start + n - 1 {
      assert UpBottomCell(n, start)(c.queen, c.x - start) == c;
    }
  }

  /** The groups of the seven loops of `add_queen_restrictions`, in loop order. */
  function QueenGroups(n: nat): seq<seq<Cell>> {
    seq(n, queen requires 0 <= queen => QueenCells(n, queen))
  }

  function RowGroups(n: nat): seq<seq<Cell>> {
    seq(n, y requires 0 <= y => RowCells(n, y))
  }

  function ColumnGroups(n: nat): seq<seq<Cell>> {
    seq(n, x requires 0 <= x => ColumnCells(n, x))
  }

  /** `for y_start in 0..n` */
  function DownFromLeftGroups(n: nat): seq<seq<Cell>> {
    seq(n, start requires 0 <= start < n => DownFromLeft(n, start))
  }

  /** `for x_start in 1..n` */
  function DownFromTopGroups(n: nat): seq<seq<Cell>> {
    seq(if n == 0 then 0 else n - 1, i requires 0 <= i < n - 1 => DownFromTop(n, i + 1))
  }

  function UpFromLeftGroups(n: nat): seq<seq<Cell>> {
    seq(n, start requires 0 <= start < n => UpFromLeft(n, start))
  }

  function UpFromBottomGroups(n: nat): seq<seq<Cell>> {
    seq(if n == 0 then 0 else n - 1, i requires 0 <= i < n - 1 => UpFromBottom(n, i + 1))
  }

  /** All `\` diagonals, as the two loops of lines 77-98 produce them. */
  function DownDiagonals(n: nat): seq<seq<Cell>> {
    DownFromLeftGroups(n) + DownFromTopGroups(n)
  }

  /** All `/` diagonals, as the two loops of lines 100-120 produce them. */
  function UpDiagonals(n: nat): seq<seq<Cell>> {
    UpFromLeftGroups(n) + UpFromBottomGroups(n)
  }

  /** Every board cell lies on exactly one `\` diagonal: the one with index `DownIndex`. */
  function DownIndex(n: nat, c: Cell): nat {
    if c.x <= c.y then c.y - c.x else n + (c.x - c.y) - 1
  }

  lemma DownDiagonalOf(n: nat, c: Cell, g: nat)
    requires OnBoard(n, c) && g < |DownDiagonals(n)|
    ensures DownIndex(n, c) < |DownDiagonals(n)|
    ensures c in DownDiagonals(n)[g] <==> g == DownIndex(n, c)
  {
    if g < n {
      DownFromLeftMembers(n, g, c);
    } else {
      DownFromTopMembers(n, g - n + 1, c);
    }
  }

  /** Every board cell lies on exactly one `\` diagonal group. */
  lemma EachCellOnOneDownDiagonal(n: nat, c: Cell)
    requires OnBoard(n, c)
    ensures exists g :: 0 <= g < |DownDiagonals(n)| && c in DownDiagonals(n)[g]
    ensures forall g, h ::
              (0 <= g < |DownDiagonals(n)| && 0 <= h < |DownDiagonals(n)| && c in DownDiagonals(n)[g] && c in DownDiagonals(n)[h]) ==> g == h
  {
    DownDiagonalOf(n, c, 0);
    DownDiagonalOf(n, c, DownIndex(n, c));
    forall g, h | 0 <= g < |DownDiagonals(n)| && 0 <= h < |DownDiagonals(n)|
                  && c in DownDiagonals(n)[g] && c in DownDiagonals(n)[h]
      ensures g == h
    {
      DownDiagonalOf(n, c, g);
      DownDiagonalOf(n, c, h);
    }
  }

  lemma UpDiagonalOf(n: nat, c: Cell, g: nat)
    requires OnBoard(n, c) && g < |UpDiagonals(n)|
    ensures c.x + c.y < |UpDiagonals(n)|
    ensures c in UpDiagonals(n)[g] <==> g == c.x + c.y
  {
    if g < n {
      UpFromLeftMembers(n, g, c);
    } else {
      UpFromBottomMembers(n, g - n + 1, c);
    }
  }

  /** Every board cell lies on exactly one `/` diagonal group: the one with index x + y. */
  lemma EachCellOnOneUpDiagonal(n: nat, c: Cell)
    requires OnBoard(n, c)
    ensures exists g :: 0 <= g < |UpDiagonals(n)| && c in UpDiagonals(n)[g]
    ensures forall g, h ::
              (0 <= g < |UpDiagonals(n)| && 0 <= h < |UpDiagonals(n)| && c in UpDiagonals(n)[g] && c in UpDiagonals(n)[h]) ==> g == h
  {
    UpDiagonalOf(n, c, 0);
    UpDiagonalOf(n, c, c.x + c.y);
    forall g, h | 0 <= g < |UpDiagonals(n)| && 0 <= h < |UpDiagonals(n)|
                  && c in UpDiagonals(n)[g] && c in UpDiagonals(n)[h]
      ensures g == h
    {
      UpDiagonalOf(n, c, g);
      UpDiagonalOf(n, c, h);
    }
  }

  // ---------------------------------------------------------------------
  // From cells to variable ids
  // ---------------------------------------------------------------------

  /** The id `add_queen_vars` gives the variable of cell `c`. */
  function CellId(n: nat, c: Cell): nat {
    QueenId(n, c.queen, c.x, c.y)
  }

  function Ids(n: nat, cells: seq<Cell>): seq<nat> {
    seq(|cells|, k requires 0 <= k < |cells| => CellId(n, cells[k]))
  }

  predicate AllOnBoard(n: nat, cells: seq<Cell>) {
    forall k :: 0 <= k < |cells| ==> OnBoard(n, cells[k])
  }

  predicate AllNamed(sat: CnfSat, cells: seq<Cell>)
    reads sat
  {
    forall k :: 0 <= k < |cells| ==> CellName(cells[k]) in sat.variables
  }

  /** `.map(|..| sat.get_variable(&queen_pos(..))).collect()` over a cell list. */
  function GroupVars(sat: CnfSat, cells: seq<Cell>): (vars: seq<nat>)
    requires sat.Valid() && AllNamed(sat, cells)
    reads sat
    ensures |vars| == |cells|
  {
    if |cells| == 0 then []
    else
      var init := cells[..|cells| - 1];
      assert forall k :: 0 <= k < |init| ==> init[k] == cells[k];
      GroupVars(sat, init) + [sat.GetVariable(CellName(cells[|cells| - 1]))]
  }

  /** After `add_queen_vars`, looking up a board cell by name yields its id. */
  lemma CellVariable(sat: CnfSat, n: nat, c: Cell)
    requires sat.Valid() && sat.order == QueenNames(n, n)
    requires OnBoard(n, c)
    ensures CellName(c) in sat.variables && sat.GetVariable(CellName(c)) == CellId(n, c)
  {
    QueenNamesIndex(n, n, c.queen, c.x, c.y);
    var id := CellId(n, c);
    assert sat.order[id] == CellName(c);
    assert sat.variables[sat.order[id]] == SatVariable(sat.order[id], id);
  }

  /** After `add_queen_vars`, every group of board cells is looked up to its ids. */
  lemma {:induction false} GroupVarsAreIds(sat: CnfSat, n: nat, cells: seq<Cell>)
    requires sat.Valid() && sat.order == QueenNames(n, n)
    requires AllOnBoard(n, cells)
    ensures AllNamed(sat, cells)
    ensures GroupVars(sat, cells) == Ids(n, cells)
  {
    forall k | 0 <= k < |cells| ensures CellName(cells[k]) in sat.variables {
      CellVariable(sat, n, cells[k]);
    }
    if |cells| > 0 {
      var init := cells[..|cells| - 1];
      GroupVarsAreIds(sat, n, init);
      CellVariable(sat, n, cells[|cells| - 1]);
      IdsSnoc(n, cells);
    }
  }

  lemma IdsSnoc(n: nat, cells: seq<Cell>)
    requires |cells| > 0
    ensures Ids(n, cells) == Ids(n, cells[..|cells| - 1]) + [CellId(n, cells[|cells| - 1])]
  {
    var init := cells[..|cells| - 1];
    var whole := Ids(n, cells);
    var parts := Ids(n, init) + [CellId(n, cells[|cells| - 1])];
    forall k | 0 <= k < |whole| ensures whole[k] == parts[k] {
      if k < |init| {
        assert init[k] == cells[k];
      }
    }
  }

  // ---------------------------------------------------------------------
  // The clauses of add_queen_restrictions
  // ---------------------------------------------------------------------

  /** `ensure_at_least_one_set` then `ensure_max_one_set` for every group, in order. */
  function ExactlyOneGroups(n: nat, groups: seq<seq<Cell>>): seq<Clause> {
    if |groups| == 0 then []
    else
      var vars := Ids(n, groups[|groups| - 1]);
      ExactlyOneGroups(n, groups[..|groups| - 1]) + ([AtLeastOneClause(vars)] + AtMostOneClauses(vars))
  }

  /** `ensure_max_one_set` for every group, in order. */
  function AtMostOneGroups(n: nat, groups: seq<seq<Cell>>): seq<Clause> {
    if |groups| == 0 then []
    else AtMostOneGroups(n, groups[..|groups| - 1]) + AtMostOneClauses(Ids(n, groups[|groups| - 1]))
  }

  /** Every clause `add_queen_restrictions` adds for a board of size `n`, in order. */
  function QueenClauses(n: nat): seq<Clause> {
    ExactlyOneGroups(n, QueenGroups(n))
    + AtMostOneGroups(n, RowGroups(n))
    + AtMostOneGroups(n, ColumnGroups(n))
    + AtMostOneGroups(n, DownFromLeftGroups(n))
    + AtMostOneGroups(n, DownFromTopGroups(n))
    + AtMostOneGroups(n, UpFromLeftGroups(n))
    + AtMostOneGroups(n, UpFromBottomGroups(n))
  }

  predicate GroupsOnBoard(n: nat, groups: seq<seq<Cell>>) {
    forall i :: 0 <= i < |groups| ==> AllOnBoard(n, groups[i])
  }

  /** The ids of cells on the board are below n³, the number of variables `add_queen_vars` creates. */
  lemma CellIdsBelow(n: nat, cells: seq<Cell>)
    requires AllOnBoard(n, cells)
    ensures forall k :: 0 <= k < |Ids(n, cells)| ==> Ids(n, cells)[k] < n * (n * n)
  {
    forall k | 0 <= k < |cells| ensures Ids(n, cells)[k] < n * (n * n) {
      QueenNamesIndex(n, n, cells[k].queen, cells[k].x, cells[k].y);
    }
  }

  /** The exactly-one clauses of groups on the board mention only declared variables. */
  lemma {:induction false} ExactlyOneGroupsBelow(n: nat, groups: seq<seq<Cell>>)
    requires GroupsOnBoard(n, groups)
    ensures IdsBelow(ExactlyOneGroups(n, groups), n * (n * n))
  {
    if |groups| > 0 {
      var init := groups[..|groups| - 1];
      assert GroupsOnBoard(n, init) by {
        forall i | 0 <= i < |init| ensures AllOnBoard(n, init[i]) {
          assert init[i] == groups[i];
        }
      }
      ExactlyOneGroupsBelow(n, init);
      var vars := Ids(n, groups[|groups| - 1]);
      CellIdsBelow(n, groups[|groups| - 1]);
      AtLeastOneBelow(vars, n * (n * n));
      AtMostOneBelow(vars, n * (n * n));
      IdsBelowConcat([AtLeastOneClause(vars)], AtMostOneClauses(vars), n * (n * n));
      IdsBelowConcat(ExactlyOneGroups(n, init), [AtLeastOneClause(vars)] + AtMostOneClauses(vars), n * (n * n));
    }
  }

  /** The at-most-one clauses of groups on the board mention only declared variables. */
  lemma {:induction false} AtMostOneGroupsBelow(n: nat, groups: seq<seq<Cell>>)
    requires GroupsOnBoard(n, groups)
    ensures IdsBelow(AtMostOneGroups(n, groups), n * (n * n))
  {
    if |groups| > 0 {
      var init := groups[..|groups| - 1];
      assert GroupsOnBoard(n, init) by {
        forall i | 0 <= i < |init| ensures AllOnBoard(n, init[i]) {
          assert init[i] == groups[i];
        }
      }
      AtMostOneGroupsBelow(n, init);
      var vars := Ids(n, groups[|groups| - 1]);
      CellIdsBelow(n, groups[|groups| - 1]);
      AtMostOneBelow(vars, n * (n * n));
      IdsBelowConcat(AtMostOneGroups(n, init), AtMostOneClauses(vars), n * (n * n));
    }
  }

  /** Every clause of the board mentions only the n³ variables the header declares. */
  lemma QueenClausesBelow(n: nat)
    ensures IdsBelow(QueenClauses(n), n * (n * n))
  {
    var bound := n * (n * n);
    AllGroupsOnBoard(n);
    var c0 := ExactlyOneGroups(n, QueenGroups(n));
    var c1 := AtMostOneGroups(n, RowGroups(n));
    var c2 := AtMostOneGroups(n, ColumnGroups(n));
    var c3 := AtMostOneGroups(n, DownFromLeftGroups(n));
    var c4 := AtMostOneGroups(n, DownFromTopGroups(n));
    var c5 := AtMostOneGroups(n, UpFromLeftGroups(n));
    var c6 := AtMostOneGroups(n, UpFromBottomGroups(n));
    ExactlyOneGroupsBelow(n, QueenGroups(n));
    AtMostOneGroupsBelow(n, RowGroups(n));
    AtMostOneGroupsBelow(n, ColumnGroups(n));
    AtMostOneGroupsBelow(n, DownFromLeftGroups(n));
    AtMostOneGroupsBelow(n, DownFromTopGroups(n));
    AtMostOneGroupsBelow(n, UpFromLeftGroups(n));
    AtMostOneGroupsBelow(n, UpFromBottomGroups(n));
    IdsBelowConcat(c0, c1, bound);
    IdsBelowConcat(c0 + c1, c2, bound);
    IdsBelowConcat(c0 + c1 + c2, c3, bound);
    IdsBelowConcat(c0 + c1 + c2 + c3, c4, bound);
    IdsBelowConcat(c0 + c1 + c2 + c3 + c4, c5, bound);
    IdsBelowConcat(c0 + c1 + c2 + c3 + c4 + c5, c6, bound);
  }

  /** Every cell any of the seven loops names is on the board. */
  lemma AllGroupsOnBoard(n: nat)
    ensures GroupsOnBoard(n, QueenGroups(n)) && GroupsOnBoard(n, RowGroups(n))
    ensures GroupsOnBoard(n, ColumnGroups(n))
    ensures GroupsOnBoard(n, DownFromLeftGroups(n)) && GroupsOnBoard(n, DownFromTopGroups(n))
    ensures GroupsOnBoard(n, UpFromLeftGroups(n)) && GroupsOnBoard(n, UpFromBottomGroups(n))
  {
    forall i, k | 0 <= i < n && 0 <= k < |QueenCells(n, i)| ensures OnBoard(n, QueenCells(n, i)[k]) {
      QueenCellsMembers(n, i, QueenCells(n, i)[k]);
    }
    forall i, k | 0 <= i < n && 0 <= k < |RowCells(n, i)| ensures OnBoard(n, RowCells(n, i)[k]) {
      RowCellsMembers(n, i, RowCells(n, i)[k]);
    }
    forall i, k | 0 <= i < n && 0 <= k < |ColumnCells(n, i)| ensures OnBoard(n, ColumnCells(n, i)[k]) {
      ColumnCellsMembers(n, i, ColumnCells(n, i)[k]);
    }
    forall i, k | 0 <= i < n && 0 <= k < |DownFromLeft(n, i)| ensures OnBoard(n, DownFromLeft(n, i)[k]) {
      DownFromLeftMembers(n, i, DownFromLeft(n, i)[k]);
    }
    forall i, k | 1 <= i < n && 0 <= k < |DownFromTop(n, i)| ensures OnBoard(n, DownFromTop(n, i)[k]) {
      DownFromTopMembers(n, i, DownFromTop(n, i)[k]);
    }
    forall i, k | 0 <= i < n && 0 <= k < |UpFromLeft(n, i)| ensures OnBoard(n, UpFromLeft(n, i)[k]) {
      UpFromLeftMembers(n, i, UpFromLeft(n, i)[k]);
    }
    forall i, k | 1 <= i < n && 0 <= k < |UpFromBottom(n, i)| ensures OnBoard(n, UpFromBottom(n, i)[k]) {
      UpFromBottomMembers(n, i, UpFromBottom(n, i)[k]);
    }
  }

  lemma ExactlyOneGroupsStep(n: nat, groups: seq<seq<Cell>>, i: nat)
    requires i < |groups|
    ensures ExactlyOneGroups(n, groups[..i + 1])
            == ExactlyOneGroups(n, groups[..i]) + ([AtLeastOneClause(Ids(n, groups[i]))] + AtMostOneClauses(Ids(n, groups[i])))
  {
    assert groups[..i + 1][..i] == groups[..i];
  }

  lemma AtMostOneGroupsStep(n: nat, groups: seq<seq<Cell>>, i: nat)
    requires i < |groups|
    ensures AtMostOneGroups(n, groups[..i + 1]) == AtMostOneGroups(n, groups[..i]) + AtMostOneClauses(Ids(n, groups[i]))
  {
    assert groups[..i + 1][..i] == groups[..i];
  }

  /** The body of the first loop of `add_queen_restrictions`, for a list of groups. */
  method AddExactlyOneGroups(sat: CnfSat, n: nat, groups: seq<seq<Cell>>)
    requires sat.Valid() && sat.order == QueenNames(n, n)
    requires GroupsOnBoard(n, groups)
    modifies sat
    ensures sat.Valid() && sat.variables == old(sat.variables) && sat.order == old(sat.order)
    ensures sat.clauses == old(sat.clauses) + ExactlyOneGroups(n, groups)
  {
    for i := 0 to |groups|
      invariant sat.Valid() && sat.variables == old(sat.variables) && sat.order == old(sat.order)
      invariant sat.clauses == old(sat.clauses) + ExactlyOneGroups(n, groups[..i])
    {
      GroupVarsAreIds(sat, n, groups[i]);
      var vars := GroupVars(sat, groups[i]);
      ghost var before := sat.clauses;
      sat.EnsureAtLeastOneSet(vars);
      sat.EnsureMaxOneSet(vars);
      ExactlyOneGroupsStep(n, groups, i);
      ConcatAssoc(before, [AtLeastOneClause(vars)], AtMostOneClauses(vars));
      ConcatAssoc(old(sat.clauses), ExactlyOneGroups(n, groups[..i]), [AtLeastOneClause(vars)] + AtMostOneClauses(vars));
    }
    assert groups[..|groups|] == groups;
  }

  /** The body of the other six loops of `add_queen_restrictions`, for a list of groups. */
  method AddAtMostOneGroups(sat: CnfSat, n: nat, groups: seq<seq<Cell>>)
    requires sat.Valid() && sat.order == QueenNames(n, n)
    requires GroupsOnBoard(n, groups)
    modifies sat
    ensures sat.Valid() && sat.variables == old(sat.variables) && sat.order == old(sat.order)
    ensures sat.clauses == old(sat.clauses) + AtMostOneGroups(n, groups)
  {
    for i := 0 to |groups|
      invariant sat.Valid() && sat.variables == old(sat.variables) && sat.order == old(sat.order)
      invariant sat.clauses == old(sat.clauses) + AtMostOneGroups(n, groups[..i])
    {
      GroupVarsAreIds(sat, n, groups[i]);
      var vars := GroupVars(sat, groups[i]);
      sat.EnsureMaxOneSet(vars);
      AtMostOneGroupsStep(n, groups, i);
      ConcatAssoc(old(sat.clauses), AtMostOneGroups(n, groups[..i]), AtMostOneClauses(vars));
    }
    assert groups[..|groups|] == groups;
  }

  /** `add_queen_restrictions`: appends exactly `QueenClauses(n)` and creates no variable. */
  method AddQueenRestrictions(sat: CnfSat, n: nat)
    requires sat.Valid() && sat.order == QueenNames(n, n)
    modifies sat
    ensures sat.Valid() && sat.variables == old(sat.variables) && sat.order == old(sat.order)
    ensures sat.clauses == old(sat.clauses) + QueenClauses(n)
  {
    AllGroupsOnBoard(n);
    var c0 := sat.clauses;
    var parts := [ExactlyOneGroups(n, QueenGroups(n)),
                  AtMostOneGroups(n, RowGroups(n)),
                  AtMostOneGroups(n, ColumnGroups(n)),
                  AtMostOneGroups(n, DownFromLeftGroups(n)),
                  AtMostOneGroups(n, DownFromTopGroups(n)),
                  AtMostOneGroups(n, UpFromLeftGroups(n)),
                  AtMostOneGroups(n, UpFromBottomGroups(n))];
    AddExactlyOneGroups(sat, n, QueenGroups(n));
    AddAtMostOneGroups(sat, n, RowGroups(n));
    ConcatAssoc(c0, parts[0], parts[1]);
    AddAtMostOneGroups(sat, n, ColumnGroups(n));
    ConcatAssoc(c0, parts[0] + parts[1], parts[2]);
    AddAtMostOneGroups(sat, n, DownFromLeftGroups(n));
    ConcatAssoc(c0, parts[0] + parts[1] + parts[2], parts[3]);
    AddAtMostOneGroups(sat, n, DownFromTopGroups(n));
    ConcatAssoc(c0, parts[0] + parts[1] + parts[2] + parts[3], parts[4]);
    AddAtMostOneGroups(sat, n, UpFromLeftGroups(n));
    ConcatAssoc(c0, parts[0] + parts[1] + parts[2] + parts[3] + parts[4], parts[5]);
    AddAtMostOneGroups(sat, n, UpFromBottomGroups(n));
    ConcatAssoc(c0, parts[0] + parts[1] + parts[2] + parts[3] + parts[4] + parts[5], parts[6]);
  }

  // ---------------------------------------------------------------------
  // What the clauses mean
  // ---------------------------------------------------------------------

  /** No cell occurs twice in the list. */
  predicate Distinct(cells: seq<Cell>) {
    forall p, q :: 0 <= p < q < |cells| ==> cells[p] != cells[q]
  }

  predicate InjectiveOn(outer: nat, inner: nat, f: (nat, nat) -> Cell) {
    forall a: nat, b: nat, a2: nat, b2: nat ::
      a < outer && b < inner && a2 < outer && b2 < inner && f(a, b) == f(a2, b2) ==> a == a2 && b == b2
  }

  /** A product through an injective cell map lists no cell twice. */
  lemma {:induction false} ProductDistinct(outer: nat, inner: nat, f: (nat, nat) -> Cell)
    requires InjectiveOn(outer, inner, f)
    ensures Distinct(Product(outer, inner, f))
  {
    if outer > 0 {
      var prev := Product(outer - 1, inner, f);
      var row := seq(inner, b requires 0 <= b => f(outer - 1, b));
      var all := prev + row;
      ProductDistinct(outer - 1, inner, f);
      forall p, q | 0 <= p < q < |all| ensures all[p] != all[q] {
        if q >= |prev| && p < |prev| {
          assert all[q] == f(outer - 1, q - |prev|);
          ProductMembers(outer - 1, inner, f, all[p]);
        } else if p >= |prev| {
          assert all[p] == f(outer - 1, p - |prev|) && all[q] == f(outer - 1, q - |prev|);
        } else {
          assert all[p] == prev[p] && all[q] == prev[q];
        }
      }
    }
  }

  /** None of the groups of the seven loops names a variable twice. */
  lemma GroupsDistinct(n: nat, i: nat)
    ensures i < n ==> Distinct(QueenCells(n, i)) && Distinct(RowCells(n, i)) && Distinct(ColumnCells(n, i))
    ensures i <= n ==> Distinct(DownFromLeft(n, i)) && Distinct(DownFromTop(n, i)) && Distinct(UpFromBottom(n, i))
    ensures Distinct(UpFromLeft(n, i))
  {
    ProductDistinct(n, n, QueenCell(i));
    ProductDistinct(n, n, RowCell(i));
    ProductDistinct(n, n, ColumnCell(i));
    if i <= n {
      ProductDistinct(n, n - i, DownLeftCell(i));
      ProductDistinct(n, n - i, DownTopCell(i));
      ProductDistinct(n, n - i, UpBottomCell(n, i));
    }
    ProductDistinct(n, i + 1, UpLeftCell(i));
  }

  /** The variable of cell `c` is true under `a`. */
  predicate Placed(n: nat, a: Assignment, c: Cell) {
    CellId(n, c) in a && a[CellId(n, c)]
  }

  /** `a` gives a value to every variable of the board. */
  ghost predicate Covers(n: nat, a: Assignment) {
    forall c :: OnBoard(n, c) ==> CellId(n, c) in a
  }

  predicate SomePlaced(n: nat, a: Assignment, cells: seq<Cell>) {
    exists k :: 0 <= k < |cells| && Placed(n, a, cells[k])
  }

  predicate NoTwoPlaced(n: nat, a: Assignment, cells: seq<Cell>) {
    forall p, q :: 0 <= p < q < |cells| ==> !(Placed(n, a, cells[p]) && Placed(n, a, cells[q]))
  }

  /** The at-least-one clause of a group holds iff some cell of the group is placed. */
  lemma GroupAtLeastOne(n: nat, a: Assignment, cells: seq<Cell>)
    ensures SatisfiesClause(a, AtLeastOneClause(Ids(n, cells))) <==> SomePlaced(n, a, cells)
  {
    var ids := Ids(n, cells);
    AtLeastOneMeaning(a, ids);
    if SomePlaced(n, a, cells) {
      var k :| 0 <= k < |cells| && Placed(n, a, cells[k]);
      assert ids[k] in a && a[ids[k]];
    }
  }

  /** The at-most-one clauses of a group hold iff no two of its positions are placed. */
  lemma GroupAtMostOne(n: nat, a: Assignment, cells: seq<Cell>)
    requires Covers(n, a) && AllOnBoard(n, cells)
    ensures SatisfiesAll(a, AtMostOneClauses(Ids(n, cells))) <==> NoTwoPlaced(n, a, cells)
  {
    var ids := Ids(n, cells);
    assert forall k :: 0 <= k < |ids| ==> ids[k] in a by {
      forall k | 0 <= k < |ids| ensures ids[k] in a {
        assert OnBoard(n, cells[k]);
      }
    }
    AtMostOneMeaning(a, ids);
    assert forall p :: 0 <= p < |ids| ==> (a[ids[p]] <==> Placed(n, a, cells[p]));
  }

  /** For a group without repeats: no two distinct member cells are both placed. */
  lemma NoTwoPlacedMembers(n: nat, a: Assignment, cells: seq<Cell>)
    requires Distinct(cells)
    ensures NoTwoPlaced(n, a, cells) <==>
            forall c1, c2 :: c1 in cells && c2 in cells && c1 != c2 ==> !(Placed(n, a, c1) && Placed(n, a, c2))
  {
    if NoTwoPlaced(n, a, cells) {
      forall c1, c2 | c1 in cells && c2 in cells && c1 != c2
        ensures !(Placed(n, a, c1) && Placed(n, a, c2))
      {
        var p :| 0 <= p < |cells| && cells[p] == c1;
        var q :| 0 <= q < |cells| && cells[q] == c2;
        if p > q {
          assert !(Placed(n, a, cells[q]) && Placed(n, a, cells[p]));
        }
      }
    }
  }

  /** The clauses of a run of at-most-one groups hold iff each group has at most one placed position. */
  lemma {:induction false} AtMostOneGroupsHold(n: nat, a: Assignment, groups: seq<seq<Cell>>)
    requires Covers(n, a) && GroupsOnBoard(n, groups)
    ensures SatisfiesAll(a, AtMostOneGroups(n, groups)) <==>
            forall i :: 0 <= i < |groups| ==> NoTwoPlaced(n, a, groups[i])
  {
    if |groups| > 0 {
      var init := groups[..|groups| - 1];
      var last := groups[|groups| - 1];
      AtMostOneGroupsHold(n, a, init);
      SatisfiesConcat(a, AtMostOneGroups(n, init), AtMostOneClauses(Ids(n, last)));
      GroupAtMostOne(n, a, last);
      assert forall i :: 0 <= i < |init| ==> init[i] == groups[i];
    }
  }

  predicate OnePlaced(n: nat, a: Assignment, cells: seq<Cell>) {
    SomePlaced(n, a, cells) && NoTwoPlaced(n, a, cells)
  }

  /** The exactly-one clauses of a group hold iff exactly one of its positions is placed. */
  lemma GroupExactlyOne(n: nat, a: Assignment, cells: seq<Cell>)
    requires Covers(n, a) && AllOnBoard(n, cells)
    ensures SatisfiesAll(a, [AtLeastOneClause(Ids(n, cells))] + AtMostOneClauses(Ids(n, cells))) <==>
            OnePlaced(n, a, cells)
  {
    var ids := Ids(n, cells);
    SatisfiesConcat(a, [AtLeastOneClause(ids)], AtMostOneClauses(ids));
    GroupAtLeastOne(n, a, cells);
    GroupAtMostOne(n, a, cells);
    assert SatisfiesAll(a, [AtLeastOneClause(ids)]) <==> SatisfiesClause(a, AtLeastOneClause(ids)) by {
      assert [AtLeastOneClause(ids)][0] == AtLeastOneClause(ids);
    }
  }

  /** The clauses of a run of exactly-one groups hold iff each group has exactly one placed position. */
  lemma {:induction false} ExactlyOneGroupsHold(n: nat, a: Assignment, groups: seq<seq<Cell>>)
    requires Covers(n, a) && GroupsOnBoard(n, groups)
    ensures SatisfiesAll(a, ExactlyOneGroups(n, groups)) <==>
            forall i :: 0 <= i < |groups| ==> OnePlaced(n, a, groups[i])
  {
    if |groups| > 0 {
      var init := groups[..|groups| - 1];
      var last := groups[|groups| - 1];
      var ids := Ids(n, last);
      var group := [AtLeastOneClause(ids)] + AtMostOneClauses(ids);
      assert GroupsOnBoard(n, init) by {
        assert forall i :: 0 <= i < |init| ==> init[i] == groups[i];
      }
      ExactlyOneGroupsHold(n, a, init);
      assert ExactlyOneGroups(n, groups) == ExactlyOneGroups(n, init) + group;
      SatisfiesConcat(a, ExactlyOneGroups(n, init), group);
      GroupExactlyOne(n, a, last);
      AllOnePlacedSplit(n, a, groups, init);
    }
  }

  lemma AllOnePlacedSplit(n: nat, a: Assignment, groups: seq<seq<Cell>>, init: seq<seq<Cell>>)
    requires |groups| > 0 && init == groups[..|groups| - 1]
    ensures (forall i :: 0 <= i < |groups| ==> OnePlaced(n, a, groups[i])) <==>
            (forall i :: 0 <= i < |init| ==> OnePlaced(n, a, init[i])) && OnePlaced(n, a, groups[|groups| - 1])
  {
    if forall i :: 0 <= i < |init| ==> OnePlaced(n, a, init[i]) {
      forall i | 0 <= i < |init| ensures OnePlaced(n, a, groups[i]) {
        assert init[i] == groups[i];
      }
    }
  }

  /** The five ways two placed cells can clash. */
  datatype Line = SameQueen | SameRow | SameColumn | SameDown | SameUp

  predicate Shares(line: Line, c1: Cell, c2: Cell) {
    match line
    case SameQueen => c1.queen == c2.queen
    case SameRow => c1.y == c2.y
    case SameColumn => c1.x == c2.x
    case SameDown => c1.y + c2.x == c2.y + c1.x
    case SameUp => c1.x + c1.y == c2.x + c2.y
  }

  /** No two distinct placed board cells share `line`. */
  ghost predicate Clear(n: nat, a: Assignment, line: Line) {
    forall c1, c2 :: OnBoard(n, c1) && OnBoard(n, c2) && c1 != c2 && Placed(n, a, c1) && Placed(n, a, c2)
                     ==> !Shares(line, c1, c2)
  }

  /** Queen `queen` stands on some cell of the board. */
  ghost predicate Stands(n: nat, a: Assignment, queen: nat) {
    exists x: nat, y: nat :: x < n && y < n && Placed(n, a, Cell(queen, x, y))
  }

  ghost predicate EveryQueenPlaced(n: nat, a: Assignment) {
    forall queen: nat :: queen < n ==> Stands(n, a, queen)
  }

  /**
   * A solution of the n-queens puzzle: every queen stands on some cell, and no
   * two placed cells belong to one queen or share a row, a column or a diagonal.
   */
  ghost predicate Solution(n: nat, a: Assignment) {
    EveryQueenPlaced(n, a)
    && Clear(n, a, SameQueen) && Clear(n, a, SameRow) && Clear(n, a, SameColumn)
    && Clear(n, a, SameDown) && Clear(n, a, SameUp)
  }

  /** The index of the group along `line` that holds cell `c`. */
  function Key(n: nat, line: Line, c: Cell): nat {
    match line
    case SameQueen => c.queen
    case SameRow => c.y
    case SameColumn => c.x
    case SameDown => DownIndex(n, c)
    case SameUp => c.x + c.y
  }

  lemma SharesKey(n: nat, line: Line, c1: Cell, c2: Cell)
    requires OnBoard(n, c1) && OnBoard(n, c2)
    ensures Shares(line, c1, c2) <==> Key(n, line, c1) == Key(n, line, c2)
  {
  }

  /** Group `i` holds exactly the board cells whose key along `line` is `i`. */
  ghost predicate Partitions(n: nat, line: Line, groups: seq<seq<Cell>>) {
    (forall c :: OnBoard(n, c) ==> Key(n, line, c) < |groups|)
    && (forall i, c :: 0 <= i < |groups| ==> (c in groups[i] <==> OnBoard(n, c) && Key(n, line, c) == i))
  }

  ghost predicate AllDistinct(groups: seq<seq<Cell>>) {
    forall i :: 0 <= i < |groups| ==> Distinct(groups[i])
  }

  /** At most one placed position per group of a partition means no clash along its line. */
  lemma FamilyMeaning(n: nat, a: Assignment, line: Line, groups: seq<seq<Cell>>)
    requires Partitions(n, line, groups) && AllDistinct(groups)
    ensures (forall i :: 0 <= i < |groups| ==> NoTwoPlaced(n, a, groups[i])) <==> Clear(n, a, line)
  {
    if forall i :: 0 <= i < |groups| ==> NoTwoPlaced(n, a, groups[i]) {
      forall c1, c2 | OnBoard(n, c1) && OnBoard(n, c2) && c1 != c2 && Placed(n, a, c1) && Placed(n, a, c2)
        ensures !Shares(line, c1, c2)
      {
        SharesKey(n, line, c1, c2);
        var k := Key(n, line, c1);
        NoTwoPlacedMembers(n, a, groups[k]);
        assert c1 in groups[k] ==> c2 !in groups[k];
      }
    }
    if Clear(n, a, line) {
      forall i | 0 <= i < |groups| ensures NoTwoPlaced(n, a, groups[i]) {
        NoTwoPlacedMembers(n, a, groups[i]);
        forall c1, c2 | c1 in groups[i] && c2 in groups[i] && c1 != c2
          ensures !(Placed(n, a, c1) && Placed(n, a, c2))
        {
          SharesKey(n, line, c1, c2);
        }
      }
    }
  }

  lemma QueenGroupsPartition(n: nat)
    ensures Partitions(n, SameQueen, QueenGroups(n)) && AllDistinct(QueenGroups(n))
  {
    forall i, c | 0 <= i < n ensures c in QueenCells(n, i) <==> OnBoard(n, c) && c.queen == i {
      QueenCellsMembers(n, i, c);
    }
    forall i | 0 <= i < n ensures Distinct(QueenCells(n, i)) {
      GroupsDistinct(n, i);
    }
  }

  lemma RowGroupsPartition(n: nat)
    ensures Partitions(n, SameRow, RowGroups(n)) && AllDistinct(RowGroups(n))
  {
    forall i, c | 0 <= i < n ensures c in RowCells(n, i) <==> OnBoard(n, c) && c.y == i {
      RowCellsMembers(n, i, c);
    }
    forall i | 0 <= i < n ensures Distinct(RowCells(n, i)) {
      GroupsDistinct(n, i);
    }
  }

  lemma ColumnGroupsPartition(n: nat)
    ensures Partitions(n, SameColumn, ColumnGroups(n)) && AllDistinct(ColumnGroups(n))
  {
    forall i, c | 0 <= i < n ensures c in ColumnCells(n, i) <==> OnBoard(n, c) && c.x == i {
      ColumnCellsMembers(n, i, c);
    }
    forall i | 0 <= i < n ensures Distinct(ColumnCells(n, i)) {
      GroupsDistinct(n, i);
    }
  }

  lemma DownDiagonalsPartition(n: nat)
    ensures Partitions(n, SameDown, DownDiagonals(n)) && AllDistinct(DownDiagonals(n))
  {
    var groups := DownDiagonals(n);
    forall c | OnBoard(n, c) ensures DownIndex(n, c) < |groups| {
      DownDiagonalOf(n, c, 0);
    }
    forall i, c | 0 <= i < |groups| ensures c in groups[i] <==> OnBoard(n, c) && DownIndex(n, c) == i {
      if OnBoard(n, c) {
        DownDiagonalOf(n, c, i);
      } else if i < n {
        DownFromLeftMembers(n, i, c);
      } else {
        DownFromTopMembers(n, i - n + 1, c);
      }
    }
    forall i | 0 <= i < |groups| ensures Distinct(groups[i]) {
      if i < n {
        GroupsDistinct(n, i);
      } else {
        GroupsDistinct(n, i - n + 1);
      }
    }
  }

  lemma UpDiagonalsPartition(n: nat)
    ensures Partitions(n, SameUp, UpDiagonals(n)) && AllDistinct(UpDiagonals(n))
  {
    var groups := UpDiagonals(n);
    forall c | OnBoard(n, c) ensures c.x + c.y < |groups| {
      UpDiagonalOf(n, c, 0);
    }
    forall i, c | 0 <= i < |groups| ensures c in groups[i] <==> OnBoard(n, c) && c.x + c.y == i {
      if OnBoard(n, c) {
        UpDiagonalOf(n, c, i);
      } else if i < n {
        UpFromLeftMembers(n, i, c);
      } else {
        UpFromBottomMembers(n, i - n + 1, c);
      }
    }
    forall i | 0 <= i < |groups| ensures Distinct(groups[i]) {
      if i < n {
        GroupsDistinct(n, i);
      } else {
        GroupsDistinct(n, i - n + 1);
      }
    }
  }

  /** The first loop's groups each hold a placed position iff every queen stands somewhere. */
  lemma QueensSomewhere(n: nat, a: Assignment)
    ensures (forall i :: 0 <= i < |QueenGroups(n)| ==> SomePlaced(n, a, QueenGroups(n)[i])) <==> EveryQueenPlaced(n, a)
  {
    forall i, c | 0 <= i < n ensures c in QueenCells(n, i) <==> OnBoard(n, c) && c.queen == i {
      QueenCellsMembers(n, i, c);
    }
    assert forall i :: 0 <= i < n ==> QueenGroups(n)[i] == QueenCells(n, i);
    if forall i :: 0 <= i < n ==> SomePlaced(n, a, QueenCells(n, i)) {
      forall queen: nat | queen < n ensures Stands(n, a, queen) {
        var k :| 0 <= k < |QueenCells(n, queen)| && Placed(n, a, QueenCells(n, queen)[k]);
        var c := QueenCells(n, queen)[k];
        assert c in QueenCells(n, queen);
        assert Cell(queen, c.x, c.y) == c;
      }
    }
    if EveryQueenPlaced(n, a) {
      forall i | 0 <= i < |QueenGroups(n)| ensures SomePlaced(n, a, QueenGroups(n)[i]) {
        assert Stands(n, a, i);
        var x: nat, y: nat :| x < n && y < n && Placed(n, a, Cell(i, x, y));
        assert Cell(i, x, y) in QueenCells(n, i);
        var k :| 0 <= k < |QueenCells(n, i)| && QueenCells(n, i)[k] == Cell(i, x, y);
      }
    }
  }

  lemma NoTwoPlacedConcat(n: nat, a: Assignment, first: seq<seq<Cell>>, second: seq<seq<Cell>>)
    ensures (forall i :: 0 <= i < |first + second| ==> NoTwoPlaced(n, a, (first + second)[i])) <==>
            (forall i :: 0 <= i < |first| ==> NoTwoPlaced(n, a, first[i]))
            && (forall i :: 0 <= i < |second| ==> NoTwoPlaced(n, a, second[i]))
  {
    var all := first + second;
    assert forall i :: 0 <= i < |first| ==> all[i] == first[i];
    assert forall i :: 0 <= i < |second| ==> all[|first| + i] == second[i];
  }

  lemma OnePlacedSplit(n: nat, a: Assignment, groups: seq<seq<Cell>>)
    ensures (forall i :: 0 <= i < |groups| ==> OnePlaced(n, a, groups[i])) <==>
            (forall i :: 0 <= i < |groups| ==> SomePlaced(n, a, groups[i]))
            && (forall i :: 0 <= i < |groups| ==> NoTwoPlaced(n, a, groups[i]))
  {
  }

  /** Lines 53-59 mean: every queen stands on exactly one cell. */
  lemma QueenPartMeaning(n: nat, a: Assignment)
    requires Covers(n, a)
    ensures SatisfiesAll(a, ExactlyOneGroups(n, QueenGroups(n))) <==>
            EveryQueenPlaced(n, a) && Clear(n, a, SameQueen)
  {
    var groups := QueenGroups(n);
    AllGroupsOnBoard(n);
    ExactlyOneGroupsHold(n, a, groups);
    OnePlacedSplit(n, a, groups);
    QueenGroupsPartition(n);
    FamilyMeaning(n, a, SameQueen, groups);
    QueensSomewhere(n, a);
  }

  /** Lines 62-67 mean: no two queens share a row. */
  lemma RowPartMeaning(n: nat, a: Assignment)
    requires Covers(n, a)
    ensures SatisfiesAll(a, AtMostOneGroups(n, RowGroups(n))) <==> Clear(n, a, SameRow)
  {
    AllGroupsOnBoard(n);
    AtMostOneGroupsHold(n, a, RowGroups(n));
    RowGroupsPartition(n);
    FamilyMeaning(n, a, SameRow, RowGroups(n));
  }

  /** Lines 70-75 mean: no two queens share a column. */
  lemma ColumnPartMeaning(n: nat, a: Assignment)
    requires Covers(n, a)
    ensures SatisfiesAll(a, AtMostOneGroups(n, ColumnGroups(n))) <==> Clear(n, a, SameColumn)
  {
    AllGroupsOnBoard(n);
    AtMostOneGroupsHold(n, a, ColumnGroups(n));
    ColumnGroupsPartition(n);
    FamilyMeaning(n, a, SameColumn, ColumnGroups(n));
  }

  /** Lines 78-98 mean: no two queens share a `\` diagonal. */
  lemma DownPartMeaning(n: nat, a: Assignment)
    requires Covers(n, a)
    ensures (SatisfiesAll(a, AtMostOneGroups(n, DownFromLeftGroups(n)))
             && SatisfiesAll(a, AtMostOneGroups(n, DownFromTopGroups(n)))) <==> Clear(n, a, SameDown)
  {
    AllGroupsOnBoard(n);
    AtMostOneGroupsHold(n, a, DownFromLeftGroups(n));
    AtMostOneGroupsHold(n, a, DownFromTopGroups(n));
    NoTwoPlacedConcat(n, a, DownFromLeftGroups(n), DownFromTopGroups(n));
    DownDiagonalsPartition(n);
    FamilyMeaning(n, a, SameDown, DownDiagonals(n));
  }

  /** Lines 101-120 mean: no two queens share a `/` diagonal. */
  lemma UpPartMeaning(n: nat, a: Assignment)
    requires Covers(n, a)
    ensures (SatisfiesAll(a, AtMostOneGroups(n, UpFromLeftGroups(n)))
             && SatisfiesAll(a, AtMostOneGroups(n, UpFromBottomGroups(n)))) <==> Clear(n, a, SameUp)
  {
    AllGroupsOnBoard(n);
    AtMostOneGroupsHold(n, a, UpFromLeftGroups(n));
    AtMostOneGroupsHold(n, a, UpFromBottomGroups(n));
    NoTwoPlacedConcat(n, a, UpFromLeftGroups(n), UpFromBottomGroups(n));
    UpDiagonalsPartition(n);
    FamilyMeaning(n, a, SameUp, UpDiagonals(n));
  }

  /**
   * The encoding is exact: an assignment of every board variable satisfies the
   * clauses of `add_queen_restrictions` iff it places n non-attacking queens.
   */
  lemma QueenClausesMeaning(n: nat, a: Assignment)
    requires Covers(n, a)
    ensures SatisfiesAll(a, QueenClauses(n)) <==> Solution(n, a)
  {
    var p0 := ExactlyOneGroups(n, QueenGroups(n));
    var p1 := AtMostOneGroups(n, RowGroups(n));
    var p2 := AtMostOneGroups(n, ColumnGroups(n));
    var p3 := AtMostOneGroups(n, DownFromLeftGroups(n));
    var p4 := AtMostOneGroups(n, DownFromTopGroups(n));
    var p5 := AtMostOneGroups(n, UpFromLeftGroups(n));
    var p6 := AtMostOneGroups(n, UpFromBottomGroups(n));
    SatisfiesConcat(a, p0, p1);
    SatisfiesConcat(a, p0 + p1, p2);
    SatisfiesConcat(a, p0 + p1 + p2, p3);
    SatisfiesConcat(a, p0 + p1 + p2 + p3, p4);
    SatisfiesConcat(a, p0 + p1 + p2 + p3 + p4, p5);
    SatisfiesConcat(a, p0 + p1 + p2 + p3 + p4 + p5, p6);
    QueenPartMeaning(n, a);
    RowPartMeaning(n, a);
    ColumnPartMeaning(n, a);
    DownPartMeaning(n, a);
    UpPartMeaning(n, a);
  }

  // ---------------------------------------------------------------------
  // queen_map_from_model
  // ---------------------------------------------------------------------

  /** The model sets queen `queen` on cell (x, y). */
  predicate SetIn(model: SatModel, queen: nat, x: nat, y: nat) {
    model.GetResultByName(QueenPos(queen, x, y)) == Some(true)
  }

  /** What the innermost loop pushes for cell (x, y) after `queens` queens. */
  function Marks(model: SatModel, x: nat, y: nat, queens: nat): string {
    if queens == 0 then ""
    else Marks(model, x, y, queens - 1) + (if SetIn(model, queens - 1, x, y) then "Q" else "")
  }

  /** The text of one board cell: its marks, or "." when no queen was placed. */
  function CellText(model: SatModel, n: nat, x: nat, y: nat): string {
    var marks := Marks(model, x, y, n);
    if marks == "" then "." else marks
  }

  /** The cells 0..width of row y, in order. */
  function RowText(model: SatModel, n: nat, y: nat, width: nat): string {
    if width == 0 then "" else RowText(model, n, y, width - 1) + CellText(model, n, width - 1, y)
  }

  function MapRows(model: SatModel, n: nat, rows: nat): (r: seq<string>)
    ensures |r| == rows
  {
    if rows == 0 then [] else MapRows(model, n, rows - 1) + [RowText(model, n, rows - 1, n)]
  }

  /** The text `queen_map_from_model` returns: one line per row, top row first. */
  function QueenMap(model: SatModel, n: nat): string {
    Terminated(MapRows(model, n, n))
  }

  /** Every board name is in the model: the `unwrap` at line 130 does not panic. */
  predicate NamesBoard(model: SatModel, n: nat) {
    forall queen: nat, x: nat, y: nat :: queen < n && x < n && y < n ==> QueenPos(queen, x, y) in model.resultsByName
  }

  /** One cell of `queen_map_from_model`: a 'Q' per queen placed on (x, y), or "." for none. */
  method AppendCell(model: SatModel, n: nat, x: nat, y: nat, text: string) returns (output: string)
    requires x < n && y < n && NamesBoard(model, n)
    ensures output == text + CellText(model, n, x, y)
  {
    output := text;
    var queenPlaced := false;
    for queen: nat := 0 to n
      invariant output == text + Marks(model, x, y, queen)
      invariant queenPlaced <==> Marks(model, x, y, queen) != ""
    {
      var result := model.GetResultByName(QueenPos(queen, x, y));
      if result.value {
        output := output + "Q";
        queenPlaced := true;
      }
    }
    if !queenPlaced {
      output := output + ".";
    }
  }

  /** One row of `queen_map_from_model`: its cells left to right, then a line feed. */
  method AppendRow(model: SatModel, n: nat, y: nat, text: string) returns (output: string)
    requires y < n && NamesBoard(model, n)
    ensures output == text + RowText(model, n, y, n) + "\n"
  {
    output := text;
    for x: nat := 0 to n
      invariant output == text + RowText(model, n, y, x)
    {
      output := AppendCell(model, n, x, y, output);
      ConcatAssoc(text, RowText(model, n, y, x), CellText(model, n, x, y));
    }
    output := output + "\n";
  }

  /** `queen_map_from_model`: draws the board row by row. */
  method QueenMapFromModel(model: SatModel, n: nat) returns (output: string)
    requires NamesBoard(model, n)
    ensures output == QueenMap(model, n)
  {
    output := "";
    for y: nat := 0 to n
      invariant output == Terminated(MapRows(model, n, y))
    {
      output := AppendRow(model, n, y, output);
      TerminatedAppend(MapRows(model, n, y), RowText(model, n, y, n));
    }
  }

  /** The queens the model sets on cell (x, y), among the first `queens`. */
  ghost function QueensAt(model: SatModel, x: nat, y: nat, queens: nat): set<nat> {
    set queen: nat | queen < queens && SetIn(model, queen, x, y)
  }

  /** A cell's marks are one 'Q' per queen the model sets there. */
  lemma QRunStep(k: nat)
    ensures seq(k + 1, _ => 'Q') == seq(k, _ => 'Q') + "Q"
  {
  }

  lemma {:induction false} MarksCount(model: SatModel, x: nat, y: nat, queens: nat)
    ensures Marks(model, x, y, queens) == seq(|QueensAt(model, x, y, queens)|, _ => 'Q')
  {
    if queens > 0 {
      MarksCount(model, x, y, queens - 1);
      var prev := QueensAt(model, x, y, queens - 1);
      if SetIn(model, queens - 1, x, y) {
        assert queens - 1 !in prev;
        assert QueensAt(model, x, y, queens) == prev + {queens - 1};
        QRunStep(|prev|);
      } else {
        assert QueensAt(model, x, y, queens) == prev;
      }
    }
  }

  /** A cell reads "." iff the model sets no queen on it, and otherwise one 'Q' per queen set there. */
  lemma CellTextMeaning(model: SatModel, n: nat, x: nat, y: nat)
    ensures CellText(model, n, x, y) == "." <==> QueensAt(model, x, y, n) == {}
    ensures QueensAt(model, x, y, n) != {} ==>
              CellText(model, n, x, y) == seq(|QueensAt(model, x, y, n)|, _ => 'Q')
  {
    MarksCount(model, x, y, n);
    var marks := Marks(model, x, y, n);
    if marks != "" {
      assert marks[0] == 'Q' != "."[0];
    }
    if QueensAt(model, x, y, n) == {} {
      assert |marks| == 0;
    }
  }

  /** The model's name lookups agree with assignment `a` on every board variable. */
  ghost predicate Depicts(model: SatModel, n: nat, a: Assignment) {
    forall c :: OnBoard(n, c) ==> CellId(n, c) in a && model.GetResultByName(CellName(c)) == Some(a[CellId(n, c)])
  }

  /** Some queen stands on cell (x, y) under `a`. */
  ghost predicate Occupied(n: nat, a: Assignment, x: nat, y: nat) {
    exists queen: nat :: queen < n && Placed(n, a, Cell(queen, x, y))
  }

  /** The queens the model sets on a board cell are those `a` places there. */
  lemma QueensAtDepicted(model: SatModel, n: nat, a: Assignment, x: nat, y: nat)
    requires Depicts(model, n, a) && x < n && y < n
    ensures forall queen: nat :: queen in QueensAt(model, x, y, n) <==> queen < n && Placed(n, a, Cell(queen, x, y))
  {
    forall queen: nat | queen < n ensures SetIn(model, queen, x, y) <==> Placed(n, a, Cell(queen, x, y)) {
      assert OnBoard(n, Cell(queen, x, y));
    }
  }

  /** With no two placed cells in one row, at most one queen stands on a cell. */
  lemma OneQueenAt(n: nat, a: Assignment, x: nat, y: nat, q: nat, other: nat)
    requires Clear(n, a, SameRow) && x < n && y < n && q < n && other < n
    requires Placed(n, a, Cell(q, x, y)) && Placed(n, a, Cell(other, x, y))
    ensures other == q
  {
    assert OnBoard(n, Cell(q, x, y)) && OnBoard(n, Cell(other, x, y));
    assert Shares(SameRow, Cell(q, x, y), Cell(other, x, y));
  }

  /** On a solution, a cell reads "Q" when a queen stands on it and "." otherwise. */
  lemma CellOfSolution(model: SatModel, n: nat, a: Assignment, x: nat, y: nat)
    requires Depicts(model, n, a) && Solution(n, a) && x < n && y < n
    ensures CellText(model, n, x, y) == if Occupied(n, a, x, y) then "Q" else "."
  {
    var at := QueensAt(model, x, y, n);
    QueensAtDepicted(model, n, a, x, y);
    CellTextMeaning(model, n, x, y);
    if at != {} {
      var other :| other in at;
      assert Placed(n, a, Cell(other, x, y));
    }
    if Occupied(n, a, x, y) {
      var q: nat :| q < n && Placed(n, a, Cell(q, x, y));
      assert q in at;
      assert at == {q} by {
        forall other | other in at ensures other == q {
          OneQueenAt(n, a, x, y, q, other);
        }
      }
      assert seq(|at|, _ => 'Q') == "Q";
    }
  }

  /** The character a solved board shows at (x, y). */
  ghost function Square(n: nat, a: Assignment, x: nat, y: nat): char {
    if Occupied(n, a, x, y) then 'Q' else '.'
  }

  lemma {:induction false} RowOfSolution(model: SatModel, n: nat, a: Assignment, y: nat, width: nat)
    requires Depicts(model, n, a) && Solution(n, a) && y < n && width <= n
    ensures |RowText(model, n, y, width)| == width
    ensures forall x :: 0 <= x < width ==> RowText(model, n, y, width)[x] == Square(n, a, x, y)
  {
    if width > 0 {
      RowOfSolution(model, n, a, y, width - 1);
      CellOfSolution(model, n, a, width - 1, y);
    }
  }

  lemma {:induction false} MapRowsIndex(model: SatModel, n: nat, rows: nat, y: nat)
    requires y < rows
    ensures MapRows(model, n, rows)[y] == RowText(model, n, y, n)
  {
    if y < rows - 1 {
      MapRowsIndex(model, n, rows - 1, y);
    }
  }

  /**
   * For a model depicting a solution, the printed map is n lines of n
   * characters, with 'Q' exactly on the cells where a queen stands.
   */
  lemma QueenMapOfSolution(model: SatModel, n: nat, a: Assignment)
    requires Depicts(model, n, a) && Solution(n, a)
    ensures Lines(QueenMap(model, n)) == MapRows(model, n, n)
    ensures forall y :: 0 <= y < n ==> |MapRows(model, n, n)[y]| == n
    ensures forall x, y :: 0 <= x < n && 0 <= y < n ==> MapRows(model, n, n)[y][x] == Square(n, a, x, y)
  {
    var rows := MapRows(model, n, n);
    forall y | 0 <= y < n
      ensures |rows[y]| == n && forall x :: 0 <= x < n ==> rows[y][x] == Square(n, a, x, y)
    {
      MapRowsIndex(model, n, n, y);
      RowOfSolution(model, n, a, y, n);
    }
    forall k | 0 <= k < n ensures PlainLine(rows[k]) {
      assert forall j :: 0 <= j < |rows[k]| ==> rows[k][j] == Square(n, a, j, k);
    }
    LinesOfTerminated(rows);
  }

  /** The board a solution shows: row y, column x is 'Q' iff a queen stands there. */
  ghost function Picture(n: nat, a: Assignment): seq<string> {
    seq(n, y requires 0 <= y < n => seq(n, x requires 0 <= x < n => Square(n, a, x, y)))
  }

  lemma PictureOfSolution(model: SatModel, n: nat, a: Assignment)
    requires Depicts(model, n, a) && Solution(n, a)
    ensures Lines(QueenMap(model, n)) == Picture(n, a)
  {
    QueenMapOfSolution(model, n, a);
    var rows := MapRows(model, n, n);
    forall y | 0 <= y < n ensures rows[y] == Picture(n, a)[y] {
    }
  }

  // ---------------------------------------------------------------------
  // One round of main
  // ---------------------------------------------------------------------

  /** What a round prints after the solver answers. */
  datatype Answer =
    | Board(picture: string)  // "model:" and the queen map
    | NoSolution              // "UNSAT"
    | Panic                   // `unwrap` on a variable the model does not name

  /** The counts of the "Starting" line, and the answer. */
  datatype Attempt = Attempt(variableCount: nat, clauseCount: nat, answer: Answer)

  /**
   * After `add_queen_vars`, a model read from a correct reply gives every
   * board variable a value, under its name as under its id.
   */
  lemma ModelDepicts(order: seq<string>, n: nat, model: SatModel, pairs: seq<(nat, bool)>)
    requires order == QueenNames(n, n)
    requires forall i, j :: 0 <= i < j < |order| ==> order[i] != order[j]
    requires forall k :: 0 <= k < |pairs| ==> pairs[k].0 < |order|
    requires model == ModelFromPairs(order, pairs)
    requires forall id :: 0 <= id < |order| ==> id in model.resultsById
    ensures Covers(n, model.resultsById) && Depicts(model, n, model.resultsById)
  {
    forall c | OnBoard(n, c)
      ensures CellId(n, c) in model.resultsById
      ensures model.GetResultByName(CellName(c)) == Some(model.resultsById[CellId(n, c)])
    {
      QueenNamesIndex(n, n, c.queen, c.x, c.y);
      ResultsByNameAgrees(order, pairs, CellId(n, c));
    }
  }

  /** A model that gives every board variable a value names every board cell. */
  lemma DepictsNamesBoard(model: SatModel, n: nat, a: Assignment)
    requires Depicts(model, n, a)
    ensures NamesBoard(model, n)
  {
    forall queen: nat, x: nat, y: nat | queen < n && x < n && y < n
      ensures QueenPos(queen, x, y) in model.resultsByName
    {
      assert OnBoard(n, Cell(queen, x, y));
      assert model.GetResultByName(CellName(Cell(queen, x, y))).Some?;
    }
  }

  /** Lines 12-14 of `main`: the formula for board size n. */
  method BuildFormula(n: nat) returns (sat: CnfSat)
    ensures fresh(sat) && sat.Valid()
    ensures sat.order == QueenNames(n, n) && sat.clauses == QueenClauses(n)
  {
    sat := new CnfSat();
    AddQueenVars(sat, n);
    AddQueenRestrictions(sat, n);
  }

  /**
   * Lines 23-31 of `main`: the answer printed for the solver's result.
   * `sound` says the result answers the satisfiability of the clauses
   * correctly and, when satisfiable, with a model of every variable.
   */
  method Draw(ghost order: seq<string>, n: nat, result: EvaluationResult, ghost sound: bool)
    returns (answer: Answer, ghost a: Assignment)
    requires order == QueenNames(n, n)
    requires forall i, j :: 0 <= i < j < |order| ==> order[i] != order[j]
    requires ReplyReadable(|order|, result.dimacs)
    requires result.Sat? <==> StatusOf(Lines(result.dimacs))
    requires result.Sat? ==> result.model == ModelFromPairs(order, ModelPairs(Lines(result.dimacs)))
    requires sound ==> (result.Sat? <==> Satisfiable(QueenClauses(n)))
    requires sound && result.Sat? ==>
               SatisfiesAll(result.model.resultsById, QueenClauses(n))
               && forall id :: 0 <= id < |order| ==> id in result.model.resultsById
    ensures sound ==> answer != Panic
    ensures sound ==> (answer.Board? <==> exists b :: Covers(n, b) && Solution(n, b))
    ensures sound && answer.Board? ==> Covers(n, a) && Solution(n, a) && Lines(answer.picture) == Picture(n, a)
  {
    a := map[];
    match result {
      case Sat(_, model) => {
        ghost var pairs := ModelPairs(Lines(result.dimacs));
        if sound {
          ModelDepicts(order, n, model, pairs);
          DepictsNamesBoard(model, n, model.resultsById);
        }
        if NamesBoard(model, n) {
          var picture := QueenMapFromModel(model, n);
          answer := Board(picture);
          if sound {
            a := model.resultsById;
            QueenClausesMeaning(n, a);
            PictureOfSolution(model, n, a);
          }
        } else {
          answer := Panic;
        }
      }
      case Unsat(_) => {
        answer := NoSolution;
        NoSolutionMeansUnsat(n);
      }
    }
  }

  /**
   * Lines 12-31 of `main` for board size n: build the formula, report its
   * size, ask the solver, and draw the board when it answers satisfiable.
   * A correct solver draws a board exactly when n queens can be placed
   * without attacking each other, and the board it draws is such a placement.
   */
  method SolveBoard(n: nat, solver: string -> string) returns (r: Attempt, ghost a: Assignment)
    requires ReadableSolver(solver)
    ensures r.variableCount == n * (n * n) && r.clauseCount == |QueenClauses(n)|
    ensures SoundSolver(solver) && n * (n * n) <= I64Max ==> r.answer != Panic
    ensures SoundSolver(solver) && n * (n * n) <= I64Max ==> (r.answer.Board? <==> exists b :: Covers(n, b) && Solution(n, b))
    ensures SoundSolver(solver) && n * (n * n) <= I64Max && r.answer.Board? ==>
              Covers(n, a) && Solution(n, a) && Lines(r.answer.picture) == Picture(n, a)
  {
    var sat := BuildFormula(n);
    QueenNamesLength(n, n);
    sat.OrderDistinct();
    var variableCount := sat.VariableCount();
    var clauseCount := sat.ClauseCount();
    var result;
    ghost var orders;
    result, orders := sat.Evaluate(solver);
    ghost var sound := SoundSolver(solver) && n * (n * n) <= I64Max;
    if sound {
      QueenClausesBelow(n);
      SoundEvaluation(solver, sat.order, sat.clauses, orders, result);
    }
    var answer;
    answer, a := Draw(sat.order, n, result, sound);
    r := Attempt(variableCount, clauseCount, answer);
  }

  /** A placement of n non-attacking queens is a model of the clauses. */
  lemma NoSolutionMeansUnsat(n: nat)
    ensures !Satisfiable(QueenClauses(n)) ==> !exists b :: Covers(n, b) && Solution(n, b)
  {
    if exists b :: Covers(n, b) && Solution(n, b) {
      var b :| Covers(n, b) && Solution(n, b);
      QueenClausesMeaning(n, b);
    }
  }
}
