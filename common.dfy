/** Shared vocabulary of the habitat grid engine: optional values, integer
    cells (Unity's Vector2Int), and the C#/Unity arithmetic helpers the engine
    relies on (truncating integer division, Mathf rounding and clamping). */
module Common {

  datatype Option<+T> = Null | Some(value: T)  // C# null or a value

  /** A grid cell coordinate. */
  datatype Cell = Cell(x: int, y: int)

  function Abs(n: int): (r: nat)
    ensures r == n || r == -n
  {
    if n < 0 then -n else n
  }

  function Max(a: int, b: int): (r: int)
    ensures r >= a && r >= b && (r == a || r == b)
  {
    if a >= b then a else b
  }

  function Min(a: int, b: int): (r: int)
    ensures r <= a && r <= b && (r == a || r == b)
  {
    if a <= b then a else b
  }

  /** Mathf.Clamp on integers. */
  function Clamp(v: int, lo: int, hi: int): (r: int)
    requires lo <= hi
    ensures lo <= r <= hi
    ensures lo <= v <= hi ==> r == v
  {
    if v < lo then lo else if v > hi then hi else v
  }

  /** Mathf.Clamp on reals; Unity tests the lower bound first. */
  function ClampReal(v: real, lo: real, hi: real): (r: real)
    ensures lo <= hi ==> lo <= r <= hi
    ensures lo <= v <= hi ==> r == v
    ensures v < lo ==> r == lo
  {
    if v < lo then lo else if v > hi then hi else v
  }

  function MaxReal(a: real, b: real): real
  {
    if a >= b then a else b
  }

  /** The length of each wall piece beside a door gap of width doorW on a
      side of length cs (both wall builders). */
  function PieceLength(cs: real, doorW: real): (len: real)
    ensures len >= 0.0
    ensures len > 0.0 ==> len + len + doorW == cs
  {
    MaxReal(0.0, cs * 0.5 - doorW * 0.5)
  }

  /** Real multiplication, kept behind a name: facts about products are
      argued from small lemmas rather than left to the solver's nonlinear
      arithmetic. */
  function Mul(a: real, b: real): real
  {
    a * b
  }

  lemma ProductPositive(a: real, b: real)
    requires a > 0.0 && b > 0.0
    ensures Mul(a, b) > 0.0
  {
  }

  lemma NegSquare(a: real)
    ensures Mul(-a, -a) == Mul(a, a)
  {
  }

  /** A square is never negative, and positive away from 0. */
  lemma SquarePositive(c: real)
    ensures Mul(c, c) >= 0.0
    ensures c != 0.0 ==> Mul(c, c) > 0.0
  {
    if c > 0.0 {
      ProductPositive(c, c);
    } else if c < 0.0 {
      ProductPositive(-c, -c);
      NegSquare(c);
    }
  }

  /** Manhattan distance between two cells. */
  function Manhattan(a: Cell, b: Cell): nat
  {
    Abs(a.x - b.x) + Abs(a.y - b.y)
  }

  /** The engine's 4-neighbourhood table, in its order (+x, -x, +y, -y). */
  const N4: seq<(int, int)> := [(1, 0), (-1, 0), (0, 1), (0, -1)]

  /** The k-th 4-neighbour of a cell. */
  function Step(c: Cell, k: int): Cell
    requires 0 <= k < 4
  {
    Cell(c.x + N4[k].0, c.y + N4[k].1)
  }

  predicate Adjacent(a: Cell, b: Cell)
  {
    Manhattan(a, b) == 1
  }

  lemma StepIsAdjacent(c: Cell, k: int)
    requires 0 <= k < 4
    ensures Adjacent(c, Step(c, k)) && Adjacent(Step(c, k), c)
  {
  }

  /** Every 4-neighbour of a cell is produced by one entry of the N4 table. */
  lemma AdjacentIsStep(a: Cell, b: Cell) returns (k: int)
    requires Adjacent(a, b)
    ensures 0 <= k < 4 && b == Step(a, k)
  {
    if b.x == a.x + 1 { k := 0; }
    else if b.x == a.x - 1 { k := 1; }
    else if b.y == a.y + 1 { k := 2; }
    else { k := 3; }
  }

  lemma ManhattanTriangle(a: Cell, b: Cell, c: Cell)
    ensures Manhattan(a, c) <= Manhattan(a, b) + Manhattan(b, c)
  {
  }

  // ---------------------------------------------------------------------
  // C# integer division and remainder truncate toward zero.

  function CsDiv(a: int, b: int): (q: int)
    requires b > 0
    ensures a >= 0 ==> q == a / b
    ensures a < 0 ==> q == -((-a) / b)
    ensures (a >= 0 ==> q >= 0) && (a <= 0 ==> q <= 0)
    ensures Abs(q) * b <= Abs(a) < Abs(q) * b + b
  {
    if a >= 0 then DivBounds(a, b); a / b
    else DivBounds(-a, b); -((-a) / b)
  }

  /** Euclidean division of a non-negative number brackets it between
      consecutive multiples of the divisor. */
  lemma DivBounds(n: nat, b: int)
    requires b > 0
    ensures n / b >= 0 && (n / b) * b <= n < (n / b) * b + b
  {
    assert n == b * (n / b) + n % b;
  }

  function CsRem(a: int, b: int): (r: int)
    requires b > 0
    ensures a == b * CsDiv(a, b) + r
    ensures -b < r < b
    ensures a >= 0 ==> 0 <= r
    ensures a < 0 ==> r <= 0
  {
    a - b * CsDiv(a, b)
  }

  // ---------------------------------------------------------------------
  // Unity's Mathf rounding of float values, here on reals.

  /** Mathf.FloorToInt. */
  function FloorToInt(r: real): (n: int)
    ensures n as real <= r < n as real + 1.0
  {
    r.Floor
  }

  /** Mathf.CeilToInt. */
  function CeilToInt(r: real): (n: int)
    ensures n as real - 1.0 < r <= n as real
  {
    -((-r).Floor)
  }

  /** Mathf.RoundToInt: to the nearest integer, halves to the even one. */
  function RoundToInt(r: real): (n: int)
    ensures n as real - 0.5 <= r <= n as real + 0.5
    ensures r == n as real - 0.5 || r == n as real + 0.5 ==> n % 2 == 0
  {
    var f := r.Floor;
    var frac := r - f as real;
    if frac < 0.5 then f
    else if frac > 0.5 then f + 1
    else if f % 2 == 0 then f else f + 1
  }

  lemma RoundToIntOfInt(n: int)
    ensures RoundToInt(n as real) == n
  {
  }

  lemma CeilToIntOfInt(n: int)
    ensures CeilToInt(n as real) == n
  {
  }
}
