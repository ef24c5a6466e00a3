/**
 * Geometry of a Sudoku grid stored as a flat array of `maxDigit * maxDigit`
 * cells. A position `p` lies in row `p / maxDigit` and column `p % maxDigit`.
 * The solver and the pre-check both enumerate the members of a position's
 * row, column and box with the integer formulas below; the coordinate
 * predicate `InUnit` is an independent description of the same sets.
 */
module Geometry {

  /** The two grid sizes the solver supports: 4x4 and 9x9. */
  predicate ValidMaxDigit(m: int) {
    m == 4 || m == 9
  }

  /** The size selector maps 4 to 4 and every other value to 9. */
  function MaxDigitFor(selector: int): (m: int)
    ensures ValidMaxDigit(m)
    ensures m == 4 <==> selector == 4
  {
    if selector == 4 then 4 else 9
  }

  /** The side of one box: the integer square root of `m`. */
  function BoxSize(m: int): (s: int)
    requires ValidMaxDigit(m)
    ensures 0 < s && s * s == m
  {
    if m == 4 then 2 else 3
  }

  /** Number of cells in the grid. */
  function PuzzleSize(m: int): int {
    m * m
  }

  /** The three kinds of constraint unit a position belongs to. */
  datatype Unit = Row | Column | Box

  function RowOf(m: int, p: int): int
    requires ValidMaxDigit(m)
  {
    p / m
  }

  function ColumnOf(m: int, p: int): int
    requires ValidMaxDigit(m)
  {
    p % m
  }

  /** Index of the box holding position `p`, numbered row-major from 0. */
  function BoxOf(m: int, p: int): int
    requires ValidMaxDigit(m)
  {
    var s := BoxSize(m);
    s * (p / (m * s)) + (p % m) / s
  }

  /** The `j`-th position of box number `box`. */
  function BoxMember(m: int, box: int, j: int): int
    requires ValidMaxDigit(m)
  {
    var s := BoxSize(m);
    (box / s) * (m * s) + (box % s) * s + (j / s) * m + j % s
  }

  /**
   * Coordinate description of "q lies in the same unit as p": same row,
   * same column, or same band of rows and stack of columns.
   */
  predicate InUnit(m: int, u: Unit, p: int, q: int)
    requires ValidMaxDigit(m)
  {
    match u
    case Row => RowOf(m, p) == RowOf(m, q)
    case Column => ColumnOf(m, p) == ColumnOf(m, q)
    case Box =>
      RowOf(m, p) / BoxSize(m) == RowOf(m, q) / BoxSize(m)
      && ColumnOf(m, p) / BoxSize(m) == ColumnOf(m, q) / BoxSize(m)
  }

  /** Two distinct positions that share a row, a column or a box. */
  predicate Peers(m: int, p: int, q: int)
    requires ValidMaxDigit(m)
  {
    p != q && (InUnit(m, Row, p, q) || InUnit(m, Column, p, q) || InUnit(m, Box, p, q))
  }

  lemma PeersSymmetric(m: int, p: int, q: int)
    requires ValidMaxDigit(m)
    ensures Peers(m, p, q) <==> Peers(m, q, p)
  {
  }

  /**
   * The `j`-th member of the unit `u` of position `p`, computed exactly as the
   * scans of the solver and of the pre-check do. Every member is a position of
   * the grid and lies in the unit of `p`.
   */
  function Member(m: int, u: Unit, p: int, j: int): (q: int)
    requires ValidMaxDigit(m)
    requires 0 <= p < m * m && 0 <= j < m
    ensures 0 <= q < m * m
    ensures InUnit(m, u, p, q)
  {
    match u
    case Row => RowMemberInUnit(m, p, j); RowOf(m, p) * m + j
    case Column => ColumnMemberInUnit(m, p, j); ColumnOf(m, p) + m * j
    case Box => BoxMemberInUnit(m, p, j); BoxMember(m, BoxOf(m, p), j)
  }

  /** The row of a grid position is a row of the grid. */
  lemma RowInRange(m: int, p: int)
    requires ValidMaxDigit(m) && 0 <= p < m * m
    ensures 0 <= RowOf(m, p) < m
  {
    if m == 4 {
      assert p / 4 < 4;
    } else {
      assert p / 9 < 9;
    }
  }

  lemma RowMemberInUnit(m: int, p: int, j: int)
    requires ValidMaxDigit(m)
    requires 0 <= p < m * m && 0 <= j < m
    ensures 0 <= RowOf(m, p) * m + j < m * m
    ensures InUnit(m, Row, p, RowOf(m, p) * m + j)
  {
    var r := RowOf(m, p);
    RowInRange(m, p);
    CoordInRange(m, r, j);
    DivModUnique(r * m + j, m, r, j);
  }

  lemma ColumnMemberInUnit(m: int, p: int, j: int)
    requires ValidMaxDigit(m)
    requires 0 <= p < m * m && 0 <= j < m
    ensures 0 <= ColumnOf(m, p) + m * j < m * m
    ensures InUnit(m, Column, p, ColumnOf(m, p) + m * j)
  {
    var c := ColumnOf(m, p);
    CoordInRange(m, j, c);
    DivModUnique(c + m * j, m, j, c);
  }

  /** Row `r` and column `c` of a grid of side `m` give a position of the grid. */
  lemma CoordInRange(m: int, r: int, c: int)
    requires 0 < m && 0 <= r < m && 0 <= c < m
    ensures 0 <= m * r + c < m * m
  {
    MulGap(m, r, m);
    if r > 0 {
      MulAtLeast(m, r);
    }
  }

  lemma MulAtLeast(d: int, k: int)
    requires d > 0 && k >= 1
    ensures d * k >= d
  {
    if k > 1 {
      MulAtLeast(d, k - 1);
      assert d * k == d * (k - 1) + d;
    }
  }

  /** Division with remainder is unique. */
  lemma DivModUnique(x: int, d: int, a: int, b: int)
    requires d > 0 && 0 <= b < d && x == d * a + b
    ensures x / d == a && x % d == b
  {
    var a', b' := x / d, x % d;
    assert x == d * a' + b';
    if a < a' {
      MulGap(d, a, a');
    } else if a' < a {
      MulGap(d, a', a);
    }
  }

  lemma MulGap(d: int, a: int, a2: int)
    requires d > 0 && a < a2
    ensures d * a2 >= d * a + d
  {
    MulAtLeast(d, a2 - a);
    assert d * a2 == d * a + d * (a2 - a);
  }


  /**
   * The box formulas in coordinates: for `p` in row `r` and column `c`, the
   * `j`-th member of its box lies in row `s * (r / s) + j / s` and column
   * `s * (c / s) + j % s`.
   */
  lemma BoxMemberValue(m: int, p: int, j: int)
    requires ValidMaxDigit(m)
    requires 0 <= p < m * m && 0 <= j < m
    ensures var s := BoxSize(m);
      BoxMember(m, BoxOf(m, p), j)
      == m * (s * ((p / m) / s) + j / s) + (s * ((p % m) / s) + j % s)
  {
    if m == 4 {
      assert BoxSize(m) == 2;
      var r, c := p / 4, p % 4;
      var br, ri, bc := r / 2, r % 2, c / 2;
      DivModUnique(p, 8, br, 4 * ri + c);
      DivModUnique(2 * br + bc, 2, br, bc);
    } else {
      assert BoxSize(m) == 3;
      var r, c := p / 9, p % 9;
      var br, ri, bc := r / 3, r % 3, c / 3;
      DivModUnique(p, 27, br, 9 * ri + c);
      DivModUnique(3 * br + bc, 3, br, bc);
    }
  }

  lemma BoxMemberInUnit(m: int, p: int, j: int)
    requires ValidMaxDigit(m)
    requires 0 <= p < m * m && 0 <= j < m
    ensures 0 <= BoxMember(m, BoxOf(m, p), j) < m * m
    ensures InUnit(m, Box, p, BoxMember(m, BoxOf(m, p), j))
  {
    var s := BoxSize(m);
    var r, c := p / m, p % m;
    var br, bc, jr, jc := r / s, c / s, j / s, j % s;
    assert br < s && bc < s && jr < s && jc < s by {
      RowInRange(m, p);
      if m == 4 {
        assert s == 2;
      } else {
        assert s == 3;
      }
    }
    BoxMemberValue(m, p, j);
    var rq, cq := s * br + jr, s * bc + jc;
    CoordInRange(s, br, jr);
    CoordInRange(s, bc, jc);
    CoordInRange(m, rq, cq);
    DivModUnique(m * rq + cq, m, rq, cq);
    DivModUnique(rq, s, br, jr);
    DivModUnique(cq, s, bc, jc);
  }

  /** Every position of the box of `p` is produced by the box member formula. */
  lemma BoxMemberComplete(m: int, p: int, q: int) returns (j: int)
    requires ValidMaxDigit(m)
    requires 0 <= p < m * m && 0 <= q < m * m
    requires InUnit(m, Box, p, q)
    ensures 0 <= j < m && BoxMember(m, BoxOf(m, p), j) == q
  {
    var s := BoxSize(m);
    var r, c := q / m, q % m;
    j := s * (r % s) + c % s;
    if m == 4 {
      DivModUnique(j, 2, r % 2, c % 2);
    } else {
      DivModUnique(j, 3, r % 3, c % 3);
    }
    BoxMemberValue(m, p, j);
  }

  /**
   * The member formulas enumerate the whole unit: every position `q` in the
   * unit of `p` (in particular `p` itself) is produced for some index `j`.
   */
  lemma MemberComplete(m: int, u: Unit, p: int, q: int) returns (j: int)
    requires ValidMaxDigit(m)
    requires 0 <= p < m * m && 0 <= q < m * m
    requires InUnit(m, u, p, q)
    ensures 0 <= j < m && Member(m, u, p, j) == q
  {
    match u
    case Row =>
      j := q % m;
    case Column =>
      j := q / m;
    case Box =>
      j := BoxMemberComplete(m, p, q);
  }

  /** Every unit scan visits the scanned position itself. */
  lemma SelfIsMember(m: int, u: Unit, p: int)
    requires ValidMaxDigit(m)
    requires 0 <= p < m * m
    ensures exists j :: 0 <= j < m && Member(m, u, p, j) == p
  {
    var j := MemberComplete(m, u, p, p);
  }

  /** Worked example: in a 9x9 grid, position 40 lies in box 4. */
  lemma CentreBoxExample()
    ensures BoxOf(9, 40) == 4
    ensures seq(9, j requires 0 <= j < 9 => Member(9, Box, 40, j))
         == [30, 31, 32, 39, 40, 41, 48, 49, 50]
  {
    assert BoxSize(9) == 3;
    assert BoxOf(9, 40) == 4;
    forall j | 0 <= j < 9
      ensures Member(9, Box, 40, j) == BoxMember(9, 4, j) == 30 + (j / 3) * 9 + j % 3
    {
    }
  }
}
