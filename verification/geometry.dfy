/** Coordinates on the 8x8 grid and the arithmetic the rules engine does on them.
    The source uses one two-element array `[row, col]` both for squares and for
    translations; so does this model. */
module Geometry {

  datatype Option<T> = None | Some(value: T)

  /** A square `(row, col)` or a translation `(dr, dc)`. */
  datatype Pos = Pos(row: int, col: int)

  type Vec = Pos

  /** Component-wise difference; the inverse of `Add`. */
  function Sub(a: Pos, b: Vec): Pos
  {
    Pos(a.row - b.row, a.col - b.col)
  }

  /** `sum_pos`: component-wise addition of two coordinate pairs. */
  function Add(a: Pos, b: Vec): (r: Pos)
    ensures Sub(r, b) == a
    ensures r.row - a.row == b.row && r.col - a.col == b.col
  {
    Pos(a.row + b.row, a.col + b.col)
  }

  /** `trans.map { |x| x * i }` */
  function Scale(t: Vec, i: int): Vec
  {
    Pos(t.row * i, t.col * i)
  }

  predicate InBounds(p: Pos)
  {
    0 <= p.row < 8 && 0 <= p.col < 8
  }

  /** The square reached from `from` after `i` steps of `t`. */
  function Step(from: Pos, t: Vec, i: int): Pos
  {
    Add(from, Scale(t, i))
  }

  /** The first multiple `i` in `lo..8` with `from + i*t == to`: the walk of
      `free_path?` and `free_check_path?`, which try the multiples 0..8 in order. */
  function RayIndex(from: Pos, to: Pos, t: Vec, lo: nat): (r: Option<nat>)
    requires lo <= 9
    decreases 9 - lo
    ensures r.Some? ==> lo <= r.value <= 8 && Step(from, t, r.value) == to
    ensures r.Some? ==> forall j :: lo <= j < r.value ==> Step(from, t, j) != to
    ensures r.None? ==> forall j :: lo <= j <= 8 ==> Step(from, t, j) != to
  {
    if lo == 9 then None
    else if Step(from, t, lo) == to then Some(lo)
    else RayIndex(from, to, t, lo + 1)
  }

  /** The number of steps of `t` that lead from `from` to `to`, if `to` lies on
      that ray within eight steps. */
  function Reach(from: Pos, to: Pos, t: Vec): Option<nat>
  {
    RayIndex(from, to, t, 0)
  }

  lemma {:induction false} ReachFromHit(from: Pos, to: Pos, t: Vec, i: int)
    requires 0 <= i <= 8 && Step(from, t, i) == to
    ensures Reach(from, to, t).Some? && Reach(from, to, t).value <= i
  {
  }

  lemma MulNonneg(x: int, y: int)
    requires 0 <= x && 0 <= y
    ensures 0 <= x * y
  {
  }

  /** A coordinate that starts and ends on the board stays on it in between. */
  lemma {:induction false} Between(a: int, d: int, k: int, i: int)
    requires 0 <= a < 8 && 0 <= a + d * k < 8 && 0 <= i <= k
    ensures 0 <= a + d * i < 8
  {
    if d >= 0 {
      MulNonneg(d, i);
      MulNonneg(d, k - i);
      assert d * k == d * i + d * (k - i);
    } else {
      MulNonneg(-d, i);
      MulNonneg(-d, k - i);
      assert (-d) * k == (-d) * i + (-d) * (k - i);
    }
  }

  /** Every square of a ray between two on-board squares is on the board. */
  lemma {:induction false} RayInBounds(from: Pos, t: Vec, k: int)
    requires InBounds(from) && InBounds(Step(from, t, k)) && 0 <= k
    ensures forall i :: 0 <= i <= k ==> InBounds(Step(from, t, i))
  {
    forall i | 0 <= i <= k
      ensures InBounds(Step(from, t, i))
    {
      Between(from.row, t.row, k, i);
      Between(from.col, t.col, k, i);
    }
  }

  /** Ruby's `array[i]` on an array of length `len`: negative indices count from
      the end, anything outside `-len..len-1` reads `nil`. */
  function RubyIndex(i: int, len: nat): (r: Option<nat>)
    ensures r.Some? ==> r.value < len && (r.value == i || r.value == i + len)
    ensures r.None? <==> i + len < 0 || len <= i
  {
    if 0 <= i < len then Some(i)
    else if 0 <= i + len && i < 0 then Some(i + len)
    else None
  }
}
