/** Move execution: `move`, `king_move`, `castle` with its
    `free_check_path?`, `fill_en_passant` and `eat_en_passant`. */
module Moves {
  import opened Geometry
  import opened Pieces
  import opened ChessBoard

  /** A cell as a query may leave it: same occupancy, the piece evolved. */
  predicate CellEvolved(c: Cell, c': Cell)
  {
    (c.Empty? <==> c'.Empty?) && (c.Occupied? && c'.Occupied? ==> PieceEvolved(c.piece, c'.piece))
  }

  /** A pawn of either colour stands on `q`. */
  predicate IsPawnAt(b: Board, q: Pos)
    requires |b| == Cells && InBounds(q)
  {
    At(b, q).Occupied? && At(b, q).piece.kind == Pawn
  }

  // ---------------------------------------------------------------------------
  // fill_en_passant

  /** The square `get_piece([row, col])` reads: Ruby counts a negative column
      from the end of the row and reads `nil` past either end. */
  function Neighbour(row: int, col: int): (r: Option<Pos>)
    requires 0 <= row < 8
    ensures r.Some? <==> -8 <= col < 8
    ensures r.Some? ==> InBounds(r.value) && r.value.row == row
    ensures r.Some? ==> r.value.col == (if col < 0 then col + 8 else col)
  {
    match RubyIndex(col, 8)
    case None => None
    case Some(c) => Some(Pos(row, c))
  }

  /** Sets one en-passant flag on the pawn standing on `n`, if any. */
  function Flag(b: Board, n: Option<Pos>, right: bool): (r: Board)
    requires Wf(b) && (n.Some? ==> InBounds(n.value))
    ensures Wf(r) && SameOccupancy(b, r)
    ensures forall q :: InBounds(q) && (n != Some(q) || !IsPawnAt(b, q)) ==> At(r, q) == At(b, q)
    ensures n.Some? && IsPawnAt(b, n.value) ==>
      At(r, n.value) == Occupied(if right then At(b, n.value).piece.(epRight := true)
                                 else At(b, n.value).piece.(epLeft := true))
  {
    if n.Some? && IsPawnAt(b, n.value) then
      var p := At(b, n.value).piece;
      var r := Put(b, n.value, Occupied(if right then p.(epRight := true) else p.(epLeft := true)));
      assert forall k :: 0 <= k < Cells && k != Idx(n.value) ==> r[k] == b[k];
      r
    else b
  }

  /** `fill_en_passant(to)`: the pawn (of either colour) to the right of `to`
      gets `en_passant_left`, the one to its left `en_passant_right`; column
      -1 reads column 7 and column 8 reads nothing. */
  function FillEnPassant(b: Board, to: Pos): (r: Board)
    requires Wf(b) && InBounds(to)
    ensures Wf(r) && SameOccupancy(b, r)
    ensures forall q :: InBounds(q) && Neighbour(to.row, to.col + 1) != Some(q) && Neighbour(to.row, to.col - 1) != Some(q) ==>
      At(r, q) == At(b, q)
    ensures forall q :: InBounds(q) && Neighbour(to.row, to.col + 1) == Some(q) ==>
      At(r, q) == if IsPawnAt(b, q) then Occupied(At(b, q).piece.(epLeft := true)) else At(b, q)
    ensures forall q :: InBounds(q) && Neighbour(to.row, to.col - 1) == Some(q) ==>
      At(r, q) == if IsPawnAt(b, q) then Occupied(At(b, q).piece.(epRight := true)) else At(b, q)
  {
    var b1 := Flag(b, Neighbour(to.row, to.col + 1), false);
    SameOccupancyColors(b, b1);
    Flag(b1, Neighbour(to.row, to.col - 1), true)
  }

  /** A pawn landing on column 0 flags the pawn on column 7 of its row, and
      one landing on column 7 flags nothing on its right. */
  lemma FillEnPassantEdges(b: Board, to: Pos)
    requires Wf(b) && InBounds(to)
    ensures to.col == 0 ==> (IsPawnAt(b, Pos(to.row, 7)) ==>
      At(FillEnPassant(b, to), Pos(to.row, 7)) == Occupied(At(b, Pos(to.row, 7)).piece.(epRight := true)))
    ensures to.col == 7 ==> forall q :: InBounds(q) && q != Pos(to.row, 6) ==> At(FillEnPassant(b, to), q) == At(b, q)
  {
    assert to.col == 0 ==> Neighbour(to.row, to.col - 1) == Some(Pos(to.row, 7));
  }

  // ---------------------------------------------------------------------------
  // eat_en_passant

  /** `eat_en_passant(from, to)`: the piece moves to `to`, and both `from` and
      the square beside it in the column of `to` are emptied. */
  function EatEnPassant(b: Board, from: Pos, to: Pos): (r: Board)
    requires Wf(b) && InBounds(from) && InBounds(to) && IsOccupied(b, from)
    ensures Wf(r)
    ensures At(r, from).Empty? && At(r, Pos(from.row, to.col)).Empty?
    ensures to.row != from.row ==> At(r, to) == Occupied(At(b, from).piece.(pos := to))
    ensures forall q :: InBounds(q) && q != from && q != to && q != Pos(from.row, to.col) ==> At(r, q) == At(b, q)
  {
    var p := At(b, from).piece;
    var b1 := Put(b, to, Occupied(p.(pos := to)));
    var b2 := Put(b1, from, Empty);
    var r := Put(b2, Pos(from.row, to.col), Empty);
    assert forall k :: 0 <= k < Cells && r[k].Occupied? ==> r[k] == b[k] || r[k] == Occupied(p.(pos := to)) by {
      forall k | 0 <= k < Cells && r[k].Occupied?
        ensures r[k] == b[k] || r[k] == Occupied(p.(pos := to))
      {
        var q := SquareOf(k);
        assert At(r, q) == r[k];
      }
    }
    r
  }

  // ---------------------------------------------------------------------------
  // The assignment at line 99

  /** `trans[1] = -2` on the table entry a pawn answered with: the array
      object is the piece's own, so its column component is overwritten. */
  function Retarget(p: Piece, t: TransRef): (r: Piece)
    requires ValidRef(p, t)
    ensures ValidRef(r, t) && Vector(r, t) == Pos(Vector(p, t).row, -2)
    ensures |r.trans| == |p.trans| && |r.eatTrans| == |p.eatTrans|
    ensures forall j :: 0 <= j < |p.trans| && t != MoveRef(j) ==> r.trans[j] == p.trans[j]
    ensures forall j :: 0 <= j < |p.eatTrans| && t != EatRef(j) ==> r.eatTrans[j] == p.eatTrans[j]
    ensures r.(trans := p.trans, eatTrans := p.eatTrans) == p
  {
    match t
    case MoveRef(j) => p.(trans := p.trans[j := Pos(p.trans[j].row, -2)])
    case EatRef(j) => p.(eatTrans := p.eatTrans[j := Pos(p.eatTrans[j].row, -2)])
  }

  // ---------------------------------------------------------------------------
  // free_check_path?

  /** Every square the walk from `from` to `to` visits has the pawns that
      `has_check?` would ask aimed at it. */
  predicate WalkAimed(b: Board, from: Pos, to: Pos, t: Vec, player: Color)
    requires Wf(b) && InBounds(from) && InBounds(to) && Reach(from, to, t).Some?
  {
    RayInBounds(from, t, Reach(from, to, t).value);
    forall j :: 1 <= j <= Reach(from, to, t).value ==> Aimed(b, Step(from, t, j), player, true)
  }

  lemma WalkAimedEvolved(b: Board, b1: Board, from: Pos, to: Pos, t: Vec, player: Color)
    requires Wf(b) && InBounds(from) && InBounds(to) && Reach(from, to, t).Some?
    requires WalkAimed(b, from, to, t, player) && Evolved(b, b1)
    ensures Wf(b1) && WalkAimed(b1, from, to, t, player)
  {
    AimedEvolved(b, b1, player, true);
  }

  /** A square the walk may pass: empty and not attacked. */
  predicate SquareSafe(b: Board, sq: Pos, player: Color)
    requires Wf(b) && InBounds(sq) && Aimed(b, sq, player, true)
  {
    !IsOccupied(b, sq) && FirstAttack(b, sq, player, 0).None?
  }

  /** The walk is at its `i`-th step, `to` still ahead or reached. */
  predicate WalkReady(b: Board, from: Pos, to: Pos, t: Vec, player: Color, i: nat)
  {
    Wf(b) && InBounds(from) && InBounds(to) && from != to && Reach(from, to, t).Some?
    && 1 <= i <= Reach(from, to, t).value && WalkAimed(b, from, to, t, player)
  }

  /** Every square of the walk from the `i`-th step on is safe on `b`. */
  ghost predicate WalkSafe(b: Board, from: Pos, to: Pos, t: Vec, player: Color, i: nat)
    requires WalkReady(b, from, to, t, player, i)
  {
    RayInBounds(from, t, Reach(from, to, t).value);
    forall j :: i <= j <= Reach(from, to, t).value ==> SquareSafe(b, Step(from, t, j), player)
  }

  /** Some square of the walk from the `i`-th step on is unsafe on `b`. */
  ghost predicate WalkUnsafe(b: Board, from: Pos, to: Pos, t: Vec, player: Color, i: nat)
    requires WalkReady(b, from, to, t, player, i)
  {
    RayInBounds(from, t, Reach(from, to, t).value);
    exists j :: i <= j <= Reach(from, to, t).value && !SquareSafe(b, Step(from, t, j), player)
  }

  /** One square of the loop of `free_check_path?`: `Some(false)` on an
      occupied or attacked square, `Some(true)` on a safe `to`, `None` to go
      on; asking `has_check?` may change the board. */
  function WalkAsk(b: Board, from: Pos, to: Pos, t: Vec, player: Color, i: nat): (r: (Option<bool>, Board))
    requires WalkReady(b, from, to, t, player, i)
    ensures InBounds(Step(from, t, i)) && Aimed(b, Step(from, t, i), player, true)
    ensures Evolved(b, r.1) && Wf(r.1)
    ensures r.0 == Some(false) <==> !SquareSafe(b, Step(from, t, i), player)
    ensures r.0 == Some(true) <==> SquareSafe(b, Step(from, t, i), player) && Step(from, t, i) == to
    ensures r.0.None? ==> WalkReady(r.1, from, to, t, player, i + 1)
  {
    var n := Reach(from, to, t).value;
    RayInBounds(from, t, n);
    var sq := Step(from, t, i);
    if IsOccupied(b, sq) then EvolvedRefl(b); (Some(false), b)
    else
      var (hc, b1) := HasCheck(b, sq, player);
      WalkAimedEvolved(b, b1, from, to, t, player);
      if hc.Some? then (Some(false), b1)
      else if sq == to then (Some(true), b1)
      else
        assert i < n by { assert Step(from, t, n) == to; }
        (None, b1)
  }

  /** The loop of `free_check_path?` from the `i`-th step on: stop with false
      on an occupied square, or on an empty one `has_check?` finds attacked;
      stop with true on reaching `to`. The walk fails only on a square that
      is occupied or attacked on the board as given, and succeeds whenever
      every square is safe there. */
  function CheckWalk(b: Board, from: Pos, to: Pos, t: Vec, player: Color, i: nat): (r: (bool, Board))
    requires WalkReady(b, from, to, t, player, i)
    decreases Reach(from, to, t).value - i
    ensures Evolved(b, r.1) && Wf(r.1)
    ensures WalkSafe(b, from, to, t, player, i) ==> r.0
    ensures !r.0 ==> WalkUnsafe(b, from, to, t, player, i)
    ensures r.0 ==> !IsOccupied(b, to)
  {
    var a := WalkAsk(b, from, to, t, player, i);
    if a.0.Some? then
      assert WalkSafe(b, from, to, t, player, i) ==> SquareSafe(b, Step(from, t, i), player);
      (a.0.value, a.1)
    else
      var r := CheckWalk(a.1, from, to, t, player, i + 1);
      WalkBack(b, a.1, from, to, t, player, i);
      EvolvedTrans(b, a.1, r.1);
      r
  }

  /** What the rest of the walk, on the board the `i`-th square's question
      left, says about the board as given. */
  lemma WalkBack(b: Board, b1: Board, from: Pos, to: Pos, t: Vec, player: Color, i: nat)
    requires WalkReady(b, from, to, t, player, i) && Evolved(b, b1) && WalkReady(b1, from, to, t, player, i + 1)
    ensures IsOccupied(b1, to) == IsOccupied(b, to)
    ensures WalkSafe(b, from, to, t, player, i) ==> WalkSafe(b1, from, to, t, player, i + 1)
    ensures WalkUnsafe(b1, from, to, t, player, i + 1) ==> WalkUnsafe(b, from, to, t, player, i)
  {
    EvolvedFacts(b, b1);
    if WalkSafe(b, from, to, t, player, i) {
      RayInBounds(from, t, Reach(from, to, t).value);
      assert WalkSafe(b, from, to, t, player, i + 1);
      WalkSafeEvolved(b, b1, from, to, t, player, i + 1);
    }
    if WalkUnsafe(b1, from, to, t, player, i + 1) {
      RayInBounds(from, t, Reach(from, to, t).value);
      var j :| i + 1 <= j <= Reach(from, to, t).value && !SquareSafe(b1, Step(from, t, j), player);
      UnsafeBefore(b, b1, from, to, t, player, j);
    }
  }

  /** A square of the walk unsafe on an evolved board was unsafe before. */
  lemma UnsafeBefore(b: Board, b1: Board, from: Pos, to: Pos, t: Vec, player: Color, j: nat)
    requires WalkReady(b, from, to, t, player, j) && Evolved(b, b1) && WalkReady(b1, from, to, t, player, j)
    requires InBounds(Step(from, t, j)) && !SquareSafe(b1, Step(from, t, j), player)
    ensures !SquareSafe(b, Step(from, t, j), player)
  {
    var sq := Step(from, t, j);
    EvolvedFacts(b, b1);
    if FirstAttack(b1, sq, player, 0).Some? {
      FirstAttackMonotone(b, b1, sq, player, 0);
    }
  }

  /** Squares safe on a board stay safe once queries have evolved it. */
  lemma WalkSafeEvolved(b: Board, b1: Board, from: Pos, to: Pos, t: Vec, player: Color, i: nat)
    requires WalkReady(b, from, to, t, player, i) && Evolved(b, b1) && WalkReady(b1, from, to, t, player, i)
    requires WalkSafe(b, from, to, t, player, i)
    ensures WalkSafe(b1, from, to, t, player, i)
  {
    var n := Reach(from, to, t).value;
    RayInBounds(from, t, n);
    EvolvedFacts(b, b1);
    forall j | i <= j <= n
      ensures SquareSafe(b1, Step(from, t, j), player)
    {
      assert SquareSafe(b, Step(from, t, j), player);
      if !SquareSafe(b1, Step(from, t, j), player) {
        UnsafeBefore(b, b1, from, to, t, player, j);
      }
    }
  }

  /** `free_check_path?(from, to, t)` for the king's colour `player`. */
  function FreeCheckPath(b: Board, from: Pos, to: Pos, t: Vec, player: Color): (r: (bool, Board))
    requires Wf(b) && InBounds(from) && InBounds(to)
    requires from != to ==> Reach(from, to, t).Some? && WalkAimed(b, from, to, t, player)
    ensures Evolved(b, r.1) && Wf(r.1)
    ensures from == to ==> r.0
  {
    if from == to then EvolvedRefl(b); (true, b)
    else CheckWalk(b, from, to, t, player, 1)
  }

  /** With a castling step the walk reaches the king's landing square at the
      first step, so it examines that square alone, on the board as given. */
  lemma CastleChecksOnlyDestination(b: Board, from: Pos, to: Pos, t: Vec, player: Color)
    requires Wf(b) && InBounds(from) && InBounds(to) && t != Pos(0, 0) && to == Add(from, t)
    requires Aimed(b, to, player, true)
    ensures Reach(from, to, t) == Some(1) && WalkAimed(b, from, to, t, player)
    ensures FreeCheckPath(b, from, to, t, player).0 <==>
      !IsOccupied(b, to) && FirstAttack(b, to, player, 0).None?
  {
    assert Step(from, t, 0) != to;
    assert Step(from, t, 1) == to;
    assert Reach(from, to, t) == Some(1);
    assert WalkAimed(b, from, to, t, player) by {
      RayInBounds(from, t, 1);
      forall j | 1 <= j <= 1
        ensures Aimed(b, Step(from, t, j), player, true)
      {
        assert Step(from, t, j) == to;
      }
    }
    var a := WalkAsk(b, from, to, t, player, 1);
    assert a.0.Some?;
    assert FreeCheckPath(b, from, to, t, player).0 == a.0.value;
  }

  // ---------------------------------------------------------------------------
  // castle

  /** The step `castle` walks with: kingside when `to` is two columns right
      of `from`, queenside otherwise. */
  function CastleStep(from: Pos, to: Pos): Vec
  {
    if to.col - from.col == 2 then Pos(0, 2) else Pos(0, -2)
  }

  /** The corner whose piece `castle` moves. */
  function Corner(from: Pos, to: Pos): (r: Pos)
    requires InBounds(to)
    ensures InBounds(r) && r.row == to.row
  {
    if to.col - from.col == 2 then Pos(to.row, 7) else Pos(to.row, 0)
  }

  /** What `castle` needs in order not to crash: the walk stays on the ray
      towards `to` with its pawns aimed, and a corner that is read after the
      walk succeeds holds a piece. */
  predicate CastleDefined(b: Board, from: Pos, to: Pos)
  {
    && Wf(b) && InBounds(from) && InBounds(to) && IsOccupied(b, from) && At(b, from).piece.kind == King
    && var p := At(b, from).piece;
       (!p.hasMoved && ValidCastle(p, to) ==>
         var t := CastleStep(from, to);
         && (from != to ==> Reach(from, to, t).Some? && WalkAimed(b, from, to, t, p.color))
         && (FreeCheckPath(b, from, to, t, p.color).0 ==> IsOccupied(b, Corner(from, to))))
  }

  /** `castle(move)`: answers whether it castled, with the board it leaves.
      Kingside, the corner piece goes to column 5 and the king to column 6
      without its stored position changing; queenside, the corner piece goes
      to column 3 and the king to column 2 with its position updated. */
  function Castle(b: Board, from: Pos, to: Pos): (r: (bool, Board))
    requires CastleDefined(b, from, to)
    ensures Wf(r.1)
    ensures !r.0 ==> Evolved(b, r.1)
    ensures r.0 ==> !At(b, from).piece.hasMoved && ValidCastle(At(b, from).piece, to)
    ensures r.0 && from != to ==> !IsOccupied(b, to) && from.row == to.row
  {
    var p := At(b, from).piece;
    if p.hasMoved || !ValidCastle(p, to) then EvolvedRefl(b); (false, b)
    else
      var t := CastleStep(from, to);
      var corner := Corner(from, to);
      var (ok, b1) := FreeCheckPath(b, from, to, t, p.color);
      if !ok then (false, b1)
      else
        CastleWalkPassed(b, from, to, b1);
        assert PieceWf(p) && InBounds(p.pos) by {
          assert b[Idx(from)] == At(b, from);
        }
        var rook := At(b1, corner).piece;
        if rook.hasMoved then (false, b1)
        else (true, CastlePlacement(b1, from, to, p))
  }

  lemma CastleWalkPassed(b: Board, from: Pos, to: Pos, b1: Board)
    requires CastleDefined(b, from, to)
    requires !At(b, from).piece.hasMoved && ValidCastle(At(b, from).piece, to)
    requires FreeCheckPath(b, from, to, CastleStep(from, to), At(b, from).piece.color) == (true, b1)
    ensures Wf(b1) && IsOccupied(b1, Corner(from, to)) && SameOccupancy(b, b1)
    ensures from != to ==> !IsOccupied(b, to) && from.row == to.row
  {
    var t := CastleStep(from, to);
    EvolvedFacts(b, b1);
    if from != to {
      var n := Reach(from, to, t).value;
      assert Step(from, t, 0) == from;
      assert Step(from, t, n) == to;
      assert !IsOccupied(b, Step(from, t, n));
      assert to.row == from.row + 0 * n;
    }
  }

  /** For a king on its recorded square, the castling step reaches `to` in
      one step, so the walk's pawns are aimed at `to`. */
  lemma CastleAimed(b: Board, from: Pos, to: Pos)
    requires CastleDefined(b, from, to) && At(b, from).piece.pos == from
    requires !At(b, from).piece.hasMoved && ValidCastle(At(b, from).piece, to)
    ensures from != to && CastleStep(from, to) != Pos(0, 0) && to == Add(from, CastleStep(from, to))
    ensures Aimed(b, to, At(b, from).piece.color, true)
  {
    var t := CastleStep(from, to);
    assert Step(from, t, 0) == from != to;
    assert Step(from, t, 1) == to;
    assert Reach(from, to, t) == Some(1);
    assert Aimed(b, Step(from, t, 1), At(b, from).piece.color, true);
  }

  /** When `castle` goes ahead, for a king standing on its recorded square:
      the king has not moved, `to` is two columns away on its row, `to` is
      empty and not attacked, and the corner piece has not moved. */
  predicate CastleAllowed(b: Board, from: Pos, to: Pos)
    requires CastleDefined(b, from, to) && At(b, from).piece.pos == from
  {
    var p := At(b, from).piece;
    && !p.hasMoved && ValidCastle(p, to)
    && (CastleAimed(b, from, to);
        !IsOccupied(b, to) && FirstAttack(b, to, p.color, 0).None?)
    && IsOccupied(b, Corner(from, to)) && !At(b, Corner(from, to)).piece.hasMoved
  }

  /** `castle` answers true exactly when it is allowed. */
  lemma CastleExactly(b: Board, from: Pos, to: Pos)
    requires CastleDefined(b, from, to) && At(b, from).piece.pos == from
    ensures Castle(b, from, to).0 <==> CastleAllowed(b, from, to)
  {
    var p := At(b, from).piece;
    if !p.hasMoved && ValidCastle(p, to) {
      CastleAimed(b, from, to);
      var t := CastleStep(from, to);
      CastleChecksOnlyDestination(b, from, to, t, p.color);
      var (ok, b1) := FreeCheckPath(b, from, to, t, p.color);
      if ok {
        CastleWalkPassed(b, from, to, b1);
        var c := Corner(from, to);
        assert PieceEvolved(b[Idx(c)].piece, b1[Idx(c)].piece);
      }
    }
  }

  /** The squares the corner piece and the king land on. */
  function RookLanding(from: Pos, to: Pos): Pos
  {
    if to.col - from.col == 2 then Pos(to.row, 5) else Pos(to.row, 3)
  }

  function KingLanding(from: Pos, to: Pos): Pos
  {
    if to.col - from.col == 2 then Pos(to.row, 6) else Pos(to.row, 2)
  }

  /** The writes of a successful `castle`, in the source's order: the corner
      piece to its new square (with `set_pos`), the corner and `from` emptied,
      the king to its square (with `set_pos` on the queenside only). */
  function CastlePlacement(b: Board, from: Pos, to: Pos, king: Piece): (r: Board)
    requires Wf(b) && InBounds(from) && InBounds(to) && IsOccupied(b, Corner(from, to))
    requires PieceWf(king) && InBounds(king.pos)
    ensures Wf(r)
    ensures var ks := KingLanding(from, to);
      At(r, ks) == Occupied(if to.col - from.col == 2 then king else king.(pos := ks))
    ensures At(r, Corner(from, to)).Empty?
    ensures from != KingLanding(from, to) ==> At(r, from).Empty?
    ensures from != RookLanding(from, to) ==>
      At(r, RookLanding(from, to)) == Occupied(At(b, Corner(from, to)).piece.(pos := RookLanding(from, to)))
    ensures forall q :: InBounds(q) && q != from && q != Corner(from, to) && q != RookLanding(from, to) && q != KingLanding(from, to) ==>
      At(r, q) == At(b, q)
  {
    var corner := Corner(from, to);
    var rook := At(b, corner).piece;
    var rs := RookLanding(from, to);
    var ks := KingLanding(from, to);
    var k := if to.col - from.col == 2 then king else king.(pos := ks);
    var b2 := Put(b, rs, Occupied(rook.(pos := rs)));
    var b3 := Put(b2, corner, Empty);
    var b4 := Put(b3, from, Empty);
    var r := Put(b4, ks, Occupied(k));
    assert PieceWf(rook) by {
      assert b[Idx(corner)] == At(b, corner);
    }
    forall j | 0 <= j < Cells && r[j].Occupied?
      ensures InBounds(r[j].piece.pos) && PieceWf(r[j].piece)
    {
      var q := SquareOf(j);
      assert At(r, q) == r[j];
      assert At(b, q) == b[j];
    }
    r
  }

  /** Where a successful `castle` puts things: the king on its landing
      square (its stored position updated on the queenside only), the corner
      piece on its landing square with its position updated (unless the king
      started there, as the later write to `from` then empties it), the
      corner and `from` emptied, and every other cell keeping its occupant. */
  lemma CastleLayout(b: Board, from: Pos, to: Pos)
    requires CastleDefined(b, from, to) && from != to && Castle(b, from, to).0
    ensures var r := Castle(b, from, to).1;
      var p := At(b, from).piece;
      var c := At(b, Corner(from, to)).piece;
      var kl := KingLanding(from, to);
      var rl := RookLanding(from, to);
      && At(r, kl) == Occupied(if to.col - from.col == 2 then p else p.(pos := kl))
      && At(r, Corner(from, to)).Empty? && At(r, from).Empty?
      && (from != rl ==>
            At(r, rl).Occupied? && At(r, rl).piece.pos == rl
            && At(r, rl).piece.kind == c.kind && At(r, rl).piece.color == c.color)
      && forall q :: InBounds(q) && q != from && q != Corner(from, to) && q != rl && q != kl ==>
           CellEvolved(At(b, q), At(r, q))
  {
    var p := At(b, from).piece;
    var t := CastleStep(from, to);
    var corner := Corner(from, to);
    var (ok, b1) := FreeCheckPath(b, from, to, t, p.color);
    CastleWalkPassed(b, from, to, b1);
    EvolvedFacts(b, b1);
    assert PieceWf(p) && InBounds(p.pos) by {
      assert b[Idx(from)] == At(b, from);
    }
    assert Castle(b, from, to).1 == CastlePlacement(b1, from, to, p);
    assert At(b1, corner).piece.kind == At(b, corner).piece.kind && At(b1, corner).piece.color == At(b, corner).piece.color by {
      assert At(b1, corner) == b1[Idx(corner)] && At(b, corner) == b[Idx(corner)];
    }
    assert from != corner && from != KingLanding(from, to);
    forall q | InBounds(q)
      ensures CellEvolved(At(b, q), At(b1, q))
    {
      assert At(b, q) == b[Idx(q)] && At(b1, q) == b1[Idx(q)];
    }
  }

  /** A queenside castle from column 3 (a king that stepped there with
      `king_move` and learned its square) writes the corner piece onto
      `from` and then empties `from`: the corner piece is gone from the
      board, and the king lands on column 2 rather than on `to`. */
  lemma CastleFromRookSquareErasesCorner(b: Board, from: Pos, to: Pos)
    requires CastleDefined(b, from, to) && from != to && Castle(b, from, to).0
    requires from == RookLanding(from, to)
    ensures var r := Castle(b, from, to).1;
      && from.col == 3 && to.col == 1 && KingLanding(from, to) != to
      && At(r, from).Empty? && At(r, Corner(from, to)).Empty?
      && forall q :: InBounds(q) && q != from && q != Corner(from, to) && q != KingLanding(from, to) ==>
           CellEvolved(At(b, q), At(r, q))
  {
    CastleLayout(b, from, to);
    CastleCornerNotTarget(b, from, to);
  }

  /** A castle that succeeds had an empty `to` and an occupied corner, so
      the two differ. */
  lemma CastleCornerNotTarget(b: Board, from: Pos, to: Pos)
    requires CastleDefined(b, from, to) && from != to && Castle(b, from, to).0
    ensures Corner(from, to) != to
  {
    var walk := FreeCheckPath(b, from, to, CastleStep(from, to), At(b, from).piece.color);
    assert walk.0;
    CastleWalkPassed(b, from, to, walk.1);
    assert IsOccupied(walk.1, Corner(from, to)) == IsOccupied(b, Corner(from, to));
  }

  /** Kingside castling leaves the king's stored position where it was: a
      king that knew its square before still names `from` afterwards,
      although it now stands on column 6. */
  lemma KingsideLeavesPositionStale(b: Board, from: Pos, to: Pos)
    requires CastleDefined(b, from, to) && from != to && Castle(b, from, to).0
    requires to.col - from.col == 2 && At(b, from).piece.pos == from
    ensures At(Castle(b, from, to).1, Pos(to.row, 6)).Occupied?
    ensures At(Castle(b, from, to).1, Pos(to.row, 6)).piece.pos == from != Pos(to.row, 6)
  {
    CastleLayout(b, from, to);
  }

  // ---------------------------------------------------------------------------
  // king_move

  /** How `move` ends: `Moved` for a truthy answer, `Rejected` for `false`,
      `InCheck` for the 'Position is in check' error `king_move` raises. */
  datatype Outcome = Moved | Rejected | InCheck

  /** What `king_move` needs in order not to crash: castling is defined, and
      the pawns `has_check?` asks about a reachable target are aimed at it. */
  predicate KingDefined(b: Board, from: Pos, to: Pos)
  {
    && CastleDefined(b, from, to)
    && (ValidMove(At(b, from).piece, to).Some? ==> Aimed(b, to, At(b, from).piece.color, true))
  }

  /** `king_move(move)`: castle if possible; otherwise the king must reach
      `to` from its stored position, and `to` must not be attacked by the
      other side; then the king moves and learns its new position. */
  function KingMove(b: Board, from: Pos, to: Pos): (r: (Outcome, Board))
    requires KingDefined(b, from, to) && from != to
    ensures Wf(r.1)
    ensures r.0 != Moved ==> Evolved(b, r.1)
    ensures r.0 == Rejected <==> !Castle(b, from, to).0 && ValidMove(At(b, from).piece, to).None?
    ensures r.0 == InCheck ==>
      !Castle(b, from, to).0 && ValidMove(At(b, from).piece, to).Some?
      && FirstAttack(b, to, At(b, from).piece.color, 0).Some?
    ensures (!Castle(b, from, to).0 && ValidMove(At(b, from).piece, to).Some?
             && FirstAttack(b, to, At(b, from).piece.color, 0).None?) ==> r.0 == Moved
    ensures r.0 == Moved && !Castle(b, from, to).0 ==>
      && At(r.1, to) == Occupied(At(b, from).piece.(pos := to))
      && At(r.1, from).Empty?
      && forall q :: InBounds(q) && q != from && q != to ==> CellEvolved(At(b, q), At(r.1, q))
  {
    var p := At(b, from).piece;
    var (c, b1) := Castle(b, from, to);
    if c then (Moved, b1)
    else if ValidMove(p, to).None? then (Rejected, b1)
    else
      AimedEvolved(b, b1, p.color, true);
      var (hc, b2) := HasCheck(b1, to, p.color);
      KingMoveStep(b, b1, b2, from, to);
      if hc.Some? then (InCheck, b2)
      else (Moved, KingRelocate(b2, from, to, p))
  }

  /** On a board that keeps the invariant, a king never reaches a castle
      target with its one-square table, so `castle` leaves the board as it
      was, and `king_move` raises 'Position is in check' exactly when the
      king reaches `to` and `to` is attacked on the board as given. */
  lemma KingMoveCheckExactly(b: Board, from: Pos, to: Pos)
    requires KingDefined(b, from, to) && from != to && Invariant(b)
    ensures var p := At(b, from).piece;
      ValidMove(p, to).Some? ==> Castle(b, from, to) == (false, b)
    ensures var p := At(b, from).piece;
      KingMove(b, from, to).0 == InCheck <==> ValidMove(p, to).Some? && FirstAttack(b, to, p.color, 0).Some?
  {
    var p := At(b, from).piece;
    assert PieceInvariant(p);
    KingStepNotCastle(p, to);
  }

  /** The writes of an ordinary king move. */
  function KingRelocate(b: Board, from: Pos, to: Pos, p: Piece): (r: Board)
    requires Wf(b) && InBounds(from) && InBounds(to) && from != to && PieceWf(p)
    ensures Wf(r)
    ensures At(r, to) == Occupied(p.(pos := to)) && At(r, from).Empty?
    ensures forall q :: InBounds(q) && q != from && q != to ==> At(r, q) == At(b, q)
  {
    var r := Put(Put(b, to, Occupied(p.(pos := to))), from, Empty);
    forall j | 0 <= j < Cells && r[j].Occupied?
      ensures InBounds(r[j].piece.pos) && PieceWf(r[j].piece)
    {
      var q := SquareOf(j);
      assert At(r, q) == r[j];
      assert At(b, q) == b[j];
    }
    r
  }

  lemma KingMoveStep(b: Board, b1: Board, b2: Board, from: Pos, to: Pos)
    requires KingDefined(b, from, to) && from != to
    requires Castle(b, from, to) == (false, b1)
    requires ValidMove(At(b, from).piece, to).Some?
    requires Wf(b1) && Aimed(b1, to, At(b, from).piece.color, true)
    requires HasCheck(b1, to, At(b, from).piece.color).1 == b2
    ensures Evolved(b, b2) && Wf(b2)
    ensures PieceWf(At(b, from).piece) && At(b2, from) == At(b, from)
    ensures HasCheck(b1, to, At(b, from).piece.color).0.Some? ==> FirstAttack(b, to, At(b, from).piece.color, 0).Some?
    ensures FirstAttack(b, to, At(b, from).piece.color, 0).None? ==> HasCheck(b1, to, At(b, from).piece.color).0.None?
    ensures forall q :: InBounds(q) ==> CellEvolved(At(b, q), At(b2, q))
  {
    var player := At(b, from).piece.color;
    EvolvedTrans(b, b1, b2);
    EvolvedFacts(b, b2);
    assert b[Idx(from)] == At(b, from) && b2[Idx(from)] == At(b2, from);
    if HasCheck(b1, to, player).0.Some? {
      FirstAttackMonotone(b, b1, to, player, 0);
    }
    if FirstAttack(b, to, player, 0).None? {
      NoAttackIsStable(b, b1, to, player);
    }
    forall q | InBounds(q)
      ensures CellEvolved(At(b, q), At(b2, q))
    {
      assert At(b, q) == b[Idx(q)] && At(b2, q) == b2[Idx(q)];
    }
  }

  // ---------------------------------------------------------------------------
  // move

  /** What `move` needs in order not to crash: a piece on `from`; when the
      colours differ, for a king `KingDefined`, and for any other piece that
      answers, `to` on the ray of its answer from `from`, so that
      `free_path?` stays on the board. */
  predicate MoveDefined(b: Board, from: Pos, to: Pos)
  {
    && Wf(b) && InBounds(from) && InBounds(to) && IsOccupied(b, from)
    && (ColorAt(b, from) != ColorAt(b, to) ==>
          var p := At(b, from).piece;
          var er := ValidEat(p, to, ColorAt(b, to));
          && (p.kind == King ==> KingDefined(b, from, to))
          && (p.kind != King && er.found.Some? ==> Reach(from, to, Vector(er.piece, er.found.value)).Some?))
  }

  /** The pawn's own answer set `ate_en_passant` and `to` is empty: the
      branch at line 100 that removes the pawn beside `from`. */
  predicate TakesEnPassant(p: Piece, b: Board, to: Pos)
    requires |b| == Cells && InBounds(to)
  {
    p.kind == Pawn && p.ateEp && !IsOccupied(b, to)
  }

  /** Where a pawn `p` asked on `from` ends up after advancing to `to` on a
      different row: on `to` with the used table entry's column overwritten,
      the pawn beside it removed when it took en passant, the pawns on either
      side of `to` flagged, and every other square as on `b`. */
  ghost predicate PawnAdvanced(b: Board, from: Pos, to: Pos, p: Piece, found: TransRef, r: Board)
    requires |b| == Cells && |r| == Cells && InBounds(from) && InBounds(to) && ValidRef(p, found)
  {
    var ep := TakesEnPassant(p, b, to);
    && At(r, to) == Occupied(Retarget(p, found).(pos := to)) && At(r, from).Empty?
    && (ep ==> At(r, Pos(from.row, to.col)).Empty?)
    && (forall q :: InBounds(q) && Neighbour(to.row, to.col + 1) == Some(q) ==>
          At(r, q) == if IsPawnAt(b, q) then Occupied(At(b, q).piece.(epLeft := true)) else At(b, q))
    && (forall q :: InBounds(q) && Neighbour(to.row, to.col - 1) == Some(q) ==>
          At(r, q) == if IsPawnAt(b, q) then Occupied(At(b, q).piece.(epRight := true)) else At(b, q))
    && forall q :: InBounds(q) && q != from && q != to
         && Neighbour(to.row, to.col + 1) != Some(q) && Neighbour(to.row, to.col - 1) != Some(q)
         && (ep ==> q != Pos(from.row, to.col))
         ==> At(r, q) == At(b, q)
  }

  /** Only `from` differs between the board before and after asking, and no
      square `PawnAdvanced` compares with the old board is `from`. */
  lemma PawnAdvancedAsked(b: Board, b1: Board, from: Pos, to: Pos, p: Piece, found: TransRef, r: Board)
    requires |b| == Cells && |r| == Cells && InBounds(from) && InBounds(to) && ValidRef(p, found)
    requires b1 == b[Idx(from) := Occupied(p)] && from.row != to.row
    requires PawnAdvanced(b1, from, to, p, found, r)
    ensures PawnAdvanced(b, from, to, p, found, r)
  {
    forall q | InBounds(q) && q != from
      ensures At(b1, q) == At(b, q)
    {
      assert Idx(q) != Idx(from);
    }
    assert At(b1, to) == At(b, to);
  }

  /** Lines 99-105 of `move` once the path is known to be free; `b` already
      holds the asked piece on `from` and `found` is its answer. A pawn's
      answered entry gets its column overwritten with -2 and its neighbours
      are flagged; then the piece moves, by `eat_en_passant` when it has just
      answered en passant onto an empty square. */
  function Advance(b: Board, from: Pos, to: Pos, found: TransRef): (r: Board)
    requires Wf(b) && InBounds(from) && InBounds(to) && from != to && IsOccupied(b, from)
    requires ValidRef(At(b, from).piece, found)
    ensures Wf(r) && At(r, from).Empty?
    ensures At(b, from).piece.kind != Pawn ==>
      && At(r, to) == Occupied(At(b, from).piece.(pos := to))
      && forall q :: InBounds(q) && q != from && q != to ==> At(r, q) == At(b, q)
    ensures At(b, from).piece.kind == Pawn && from.row != to.row ==>
      PawnAdvanced(b, from, to, At(b, from).piece, found, r)
  {
    var p := At(b, from).piece;
    if p.kind != Pawn then
      assert PieceWf(p) by { assert b[Idx(from)] == At(b, from); }
      KingRelocate(b, from, to, p)
    else if from.row != to.row then
      PawnAdvanceSpec(b, from, to, found);
      PawnAdvance(b, from, to, found)
    else PawnAdvance(b, from, to, found)
  }

  /** The pawn branch of `move`: the answered entry is retargeted, the
      neighbours are flagged, and the mover, read back from `from`, either
      takes en passant or moves plainly. */
  function PawnAdvance(b: Board, from: Pos, to: Pos, found: TransRef): (r: Board)
    requires Wf(b) && InBounds(from) && InBounds(to) && from != to && IsOccupied(b, from)
    requires At(b, from).piece.kind == Pawn && ValidRef(At(b, from).piece, found)
    ensures Wf(r) && At(r, from).Empty?
  {
    var p := At(b, from).piece;
    var b1 := Put(b, from, Occupied(Retarget(p, found)));
    PutWf(b, from, Retarget(p, found));
    var b2 := FillEnPassant(b1, to);
    var m := At(b2, from).piece;
    assert PieceWf(m) by { assert b2[Idx(from)] == At(b2, from); }
    if m.kind == Pawn && m.ateEp && !IsOccupied(b2, to) then EatEnPassant(b2, from, to)
    else KingRelocate(b2, from, to, m)
  }

  /** A pawn leaving its row lands on `to` with its retargeted tables, takes
      the pawn beside it when it ate en passant onto an empty square, and
      flags its new neighbours; nothing else changes. */
  lemma PawnAdvanceSpec(b: Board, from: Pos, to: Pos, found: TransRef)
    requires Wf(b) && InBounds(from) && InBounds(to) && from != to && IsOccupied(b, from)
    requires At(b, from).piece.kind == Pawn && ValidRef(At(b, from).piece, found)
    requires from.row != to.row
    ensures PawnAdvanced(b, from, to, At(b, from).piece, found, PawnAdvance(b, from, to, found))
  {
    var p := At(b, from).piece;
    var q := Retarget(p, found);
    var b1 := Put(b, from, Occupied(q));
    PutWf(b, from, q);
    var b2 := FillEnPassant(b1, to);
    assert At(b2, from) == Occupied(q);
    SameOccupancyColors(b1, b2);
    assert IsOccupied(b2, to) == IsOccupied(b, to);
    if q.ateEp && !IsOccupied(b2, to) {
      PawnEatsAdvanced(b, b1, b2, from, to, p, found);
    } else {
      assert PieceWf(q) by { assert b2[Idx(from)] == At(b2, from); }
      PawnRelocatesAdvanced(b, b1, b2, from, to, p, found);
    }
  }

  lemma PawnEatsAdvanced(b: Board, b1: Board, b2: Board, from: Pos, to: Pos, p: Piece, found: TransRef)
    requires Wf(b) && InBounds(from) && InBounds(to) && from != to && from.row != to.row
    requires IsOccupied(b, from) && p == At(b, from).piece && p.kind == Pawn && ValidRef(p, found)
    requires b1 == Put(b, from, Occupied(Retarget(p, found))) && Wf(b1)
    requires b2 == FillEnPassant(b1, to) && At(b2, from) == Occupied(Retarget(p, found))
    requires p.ateEp && !IsOccupied(b, to) && !IsOccupied(b2, to)
    ensures PawnAdvanced(b, from, to, p, found, EatEnPassant(b2, from, to))
  {
  }

  lemma PawnRelocatesAdvanced(b: Board, b1: Board, b2: Board, from: Pos, to: Pos, p: Piece, found: TransRef)
    requires Wf(b) && InBounds(from) && InBounds(to) && from != to && from.row != to.row
    requires IsOccupied(b, from) && p == At(b, from).piece && p.kind == Pawn && ValidRef(p, found) && PieceWf(Retarget(p, found))
    requires b1 == Put(b, from, Occupied(Retarget(p, found))) && Wf(b1)
    requires b2 == FillEnPassant(b1, to) && At(b2, from) == Occupied(Retarget(p, found))
    requires !(p.ateEp && !IsOccupied(b, to))
    ensures PawnAdvanced(b, from, to, p, found, KingRelocate(b2, from, to, Retarget(p, found)))
  {
  }

  /** Replacing a piece by one with the same position, step limit and
      translation count keeps the board well formed. */
  lemma PutWf(b: Board, at: Pos, q: Piece)
    requires Wf(b) && InBounds(at) && IsOccupied(b, at)
    requires q.pos == At(b, at).piece.pos && q.maxMult == At(b, at).piece.maxMult
    requires q.kind == At(b, at).piece.kind && q.color == At(b, at).piece.color
    requires |q.trans| == |At(b, at).piece.trans|
    ensures Wf(Put(b, at, Occupied(q))) && SameOccupancy(b, Put(b, at, Occupied(q)))
  {
    var r := Put(b, at, Occupied(q));
    assert b[Idx(at)] == At(b, at);
    assert r == b[Idx(at) := Occupied(q)];
    assert PieceWf(q) by {
      assert PieceWf(At(b, at).piece);
    }
    forall j | 0 <= j < Cells
      ensures r[j].Occupied? ==> InBounds(r[j].piece.pos) && PieceWf(r[j].piece)
      ensures (b[j].Empty? <==> r[j].Empty?)
      ensures b[j].Occupied? && r[j].Occupied? ==>
        r[j].piece.kind == b[j].piece.kind && r[j].piece.color == b[j].piece.color && r[j].piece.pos == b[j].piece.pos
    {
      if j != Idx(at) {
        assert r[j] == b[j];
      }
    }
  }

  /** `move`: asks the piece on `from` about `to` (which may update a pawn's
      state), refuses a move onto a piece of the mover's own colour, hands a
      king to `king_move`, refuses a piece that cannot reach `to` or whose
      ray is obstructed, and otherwise advances the piece. */
  function Move(b: Board, from: Pos, to: Pos): (r: (Outcome, Board))
    requires MoveDefined(b, from, to)
    ensures Wf(r.1)
    ensures ColorAt(b, from) == ColorAt(b, to) ==> r.0 == Rejected
    ensures r.0 != Moved ==> Evolved(b, r.1)
    ensures At(b, from).piece.kind == King && ColorAt(b, from) != ColorAt(b, to) ==> r == KingMove(b, from, to)
    ensures At(b, from).piece.kind != King ==>
      var p := At(b, from).piece;
      var er := ValidEat(p, to, ColorAt(b, to));
      && r.0 != InCheck
      && (r.0 == Moved <==>
            && ColorAt(b, from) != ColorAt(b, to) && er.found.Some?
            && !exists i :: 0 < i < Reach(from, to, Vector(er.piece, er.found.value)).value
                              && IsOccupied(b, Step(from, Vector(er.piece, er.found.value), i)))
    ensures At(b, from).piece.kind !in {King, Pawn} && r.0 == Moved ==>
      var p := At(b, from).piece;
      && At(r.1, to) == Occupied(p.(pos := to)) && At(r.1, from).Empty?
      && forall q :: InBounds(q) && q != from && q != to ==> At(r.1, q) == At(b, q)
    ensures At(b, from).piece.kind == Pawn && r.0 == Moved && from.row != to.row ==>
      var er := ValidEat(At(b, from).piece, to, ColorAt(b, to));
      PawnAdvanced(b, from, to, er.piece, er.found.value, r.1)
  {
    var p := At(b, from).piece;
    var er := ValidEat(p, to, ColorAt(b, to));
    var b1 := AskedCell(b, Idx(from), to);
    assert b1 == b[Idx(from) := Occupied(er.piece)];
    assert At(b1, from) == Occupied(er.piece);
    if ColorAt(b, from) == ColorAt(b, to) then (Rejected, b1)
    else if p.kind == King then
      ValidEatOfNonPawn(p, to, ColorAt(b, to));
      assert b1 == b by { assert b[Idx(from)] == At(b, from); }
      KingMove(b, from, to)
    else if er.found.None? then (Rejected, b1)
    else
      var t := Vector(er.piece, er.found.value);
      MoveFrame(b, b1, from, to, t);
      if FreePath(b1, from, to, t).Blocked? then (Rejected, b1)
      else
        var r1 := Advance(b1, from, to, er.found.value);
        if p.kind == Pawn && from.row != to.row then
          PawnAdvancedAsked(b, b1, from, to, er.piece, er.found.value, r1);
          (Moved, r1)
        else (Moved, r1)
  }

  /** Asking the piece on `from` leaves every other square as it was, so
      the obstruction test reads the same on both boards. */
  lemma MoveFrame(b: Board, b1: Board, from: Pos, to: Pos, t: Vec)
    requires Wf(b) && Wf(b1) && InBounds(from) && InBounds(to) && from != to
    requires Evolved(b, b1) && Reach(from, to, t).Some?
    ensures FreePath(b1, from, to, t).Blocked? <==>
      exists i :: 0 < i < Reach(from, to, t).value && IsOccupied(b, Step(from, t, i))
  {
    EvolvedFacts(b, b1);
  }

  // ---------------------------------------------------------------------------
  // What every move keeps

  /** Nothing ever sets `has_moved` (it only has a reader), a king keeps its
      one-square table (only pawns' tables and step limits are ever
      rewritten), and a pawn's tables only ever point forward: entries are
      created as `[dir, 0]`, `[dir, 1]`, `[dir, -1]` and `move` only
      overwrites their column. */
  predicate PieceInvariant(p: Piece)
  {
    && !p.hasMoved
    && (p.kind == King ==> p.trans == Units && p.maxMult == 1)
    && (p.kind == Pawn ==>
          && (forall v :: v in p.trans ==> v.row == Forward(p.color))
          && (forall v :: v in p.eatTrans ==> v.row == Forward(p.color)))
  }

  ghost predicate Invariant(b: Board)
  {
    Wf(b) && forall q :: InBounds(q) && At(b, q).Occupied? ==> PieceInvariant(At(b, q).piece)
  }

  /** Every piece's stored position is the square it stands on. */
  ghost predicate Placed(b: Board)
    requires |b| == Cells
  {
    forall q :: InBounds(q) && At(b, q).Occupied? ==> At(b, q).piece.pos == q
  }

  lemma InitialInvariant()
    ensures Invariant(Initial()) && Placed(Initial())
  {
    InitialLayout();
    var b := Initial();
    forall q | InBounds(q) && At(b, q).Occupied?
      ensures PieceInvariant(At(b, q).piece)
    {
      var p := At(b, q).piece;
      assert p == NewPiece(p.kind, p.color, q);
      PawnTables(p.color, q);
    }
  }

  lemma InvariantEvolved(b: Board, b': Board)
    requires Invariant(b) && Evolved(b, b')
    ensures Invariant(b')
    ensures Placed(b) ==> Placed(b')
  {
    InvariantEvolvedPlaced(b, b');
    EvolvedFacts(b, b');
    forall q | InBounds(q) && At(b', q).Occupied?
      ensures PieceInvariant(At(b', q).piece) && At(b', q).piece.pos == At(b, q).piece.pos
    {
      assert b[Idx(q)] == At(b, q) && b'[Idx(q)] == At(b', q);
    }
  }

  lemma InvariantEvolvedPlaced(b: Board, b': Board)
    requires Wf(b) && Evolved(b, b')
    ensures |b'| == Cells && (Placed(b) ==> Placed(b'))
  {
    forall q | InBounds(q) && At(b', q).Occupied?
      ensures At(b', q).piece.pos == At(b, q).piece.pos
    {
      assert b[Idx(q)] == At(b, q) && b'[Idx(q)] == At(b', q);
    }
  }

  /** A pawn that moves changes row, so the squares `move` flags lie on a
      different row from the one it leaves. */
  lemma PawnMoveChangesRow(b: Board, from: Pos, to: Pos)
    requires MoveDefined(b, from, to) && Invariant(b)
    requires At(b, from).piece.kind == Pawn && Move(b, from, to).0 == Moved
    ensures from.row != to.row
  {
    var p := At(b, from).piece;
    var er := ValidEat(p, to, ColorAt(b, to));
    var t := Vector(er.piece, er.found.value);
    assert t in er.piece.trans || t in er.piece.eatTrans;
    assert t.row == Forward(p.color);
    var n := Reach(from, to, t).value;
    assert Step(from, t, n) == to;
    assert n != 0 by { assert Step(from, t, 0) == from; }
    assert to.row == from.row + t.row * n;
  }

  /** Castling moves two pieces and changes nothing they carry but their
      positions. */
  lemma CastleKeepsInvariant(b: Board, from: Pos, to: Pos)
    requires CastleDefined(b, from, to) && Invariant(b)
    ensures Invariant(Castle(b, from, to).1)
  {
    if !Castle(b, from, to).0 {
      InvariantEvolved(b, Castle(b, from, to).1);
    } else {
      var p := At(b, from).piece;
      var t := CastleStep(from, to);
      var corner := Corner(from, to);
      var (ok, b1) := FreeCheckPath(b, from, to, t, p.color);
      CastleWalkPassed(b, from, to, b1);
      InvariantEvolved(b, b1);
      assert PieceWf(p) && InBounds(p.pos) by {
        assert b[Idx(from)] == At(b, from);
      }
      var r := CastlePlacement(b1, from, to, p);
      assert Castle(b, from, to).1 == r;
      assert PieceInvariant(At(b1, corner).piece);
      forall q | InBounds(q) && At(r, q).Occupied?
        ensures PieceInvariant(At(r, q).piece)
      {
        if q == KingLanding(from, to) {
        } else if q == from || q == corner {
        } else if q == RookLanding(from, to) {
        } else {
          assert At(r, q) == At(b1, q);
        }
      }
    }
  }

  /** `move` keeps `has_moved` unset and pawn tables pointing forward. */
  lemma MoveKeepsInvariant(b: Board, from: Pos, to: Pos)
    requires MoveDefined(b, from, to) && Invariant(b)
    ensures Invariant(Move(b, from, to).1)
  {
    var p := At(b, from).piece;
    if Move(b, from, to).0 != Moved {
      InvariantEvolved(b, Move(b, from, to).1);
    } else if p.kind == King {
      KingMoveKeepsInvariant(b, from, to);
    } else if p.kind == Pawn {
      PawnMoveKeepsInvariant(b, from, to);
    } else {
      var r := Move(b, from, to);
      assert PieceInvariant(p);
      forall q | InBounds(q) && At(r.1, q).Occupied?
        ensures PieceInvariant(At(r.1, q).piece)
      {
        if q != to && q != from {
          assert At(r.1, q) == At(b, q);
        }
      }
    }
  }

  lemma PawnMoveKeepsInvariant(b: Board, from: Pos, to: Pos)
    requires MoveDefined(b, from, to) && Invariant(b)
    requires At(b, from).piece.kind == Pawn && Move(b, from, to).0 == Moved
    ensures Invariant(Move(b, from, to).1)
  {
    var p := At(b, from).piece;
    PawnMoveChangesRow(b, from, to);
    var er := ValidEat(p, to, ColorAt(b, to));
    assert PieceInvariant(p);
    RetargetKeepsRows(er.piece, er.found.value);
    AdvanceKeepsInvariant(b, from, to, er.piece, er.found.value, Move(b, from, to).1);
  }

  lemma AdvanceKeepsInvariant(b: Board, from: Pos, to: Pos, p: Piece, found: TransRef, r: Board)
    requires Invariant(b) && Wf(r) && InBounds(from) && InBounds(to) && ValidRef(p, found)
    requires PieceInvariant(Retarget(p, found)) && PawnAdvanced(b, from, to, p, found, r)
    ensures Invariant(r)
  {
    var ep := TakesEnPassant(p, b, to);
    forall q | InBounds(q) && At(r, q).Occupied?
      ensures PieceInvariant(At(r, q).piece)
    {
      if q == to || q == from {
      } else if Neighbour(to.row, to.col + 1) == Some(q) || Neighbour(to.row, to.col - 1) == Some(q) {
        assert At(b, q).Occupied? && PieceInvariant(At(b, q).piece);
      } else if ep && q == Pos(from.row, to.col) {
      } else {
        assert At(r, q) == At(b, q);
      }
    }
  }

  lemma KingMoveKeepsInvariant(b: Board, from: Pos, to: Pos)
    requires MoveDefined(b, from, to) && Invariant(b)
    requires At(b, from).piece.kind == King && ColorAt(b, from) != ColorAt(b, to)
    ensures Invariant(KingMove(b, from, to).1)
  {
    var p := At(b, from).piece;
    var r := KingMove(b, from, to);
    if Castle(b, from, to).0 {
      CastleKeepsInvariant(b, from, to);
    } else if r.0 != Moved {
      InvariantEvolved(b, r.1);
    } else {
      forall q | InBounds(q) && At(r.1, q).Occupied?
        ensures PieceInvariant(At(r.1, q).piece)
      {
        if q != to && q != from {
          assert CellEvolved(At(b, q), At(r.1, q));
        }
      }
    }
  }

  /** Overwriting an entry's column keeps its row. */
  lemma RetargetKeepsRows(p: Piece, t: TransRef)
    requires ValidRef(p, t) && PieceInvariant(p) && p.kind == Pawn
    ensures PieceInvariant(Retarget(p, t))
  {
    var r := Retarget(p, t);
    forall v | v in r.trans
      ensures v.row == Forward(p.color)
    {
      var j :| 0 <= j < |r.trans| && r.trans[j] == v;
      assert p.trans[j] in p.trans;
    }
    forall v | v in r.eatTrans
      ensures v.row == Forward(p.color)
    {
      var j :| 0 <= j < |r.eatTrans| && r.eatTrans[j] == v;
      assert p.eatTrans[j] in p.eatTrans;
    }
  }

  /** Every move but a castle leaves each piece's stored position equal to
      its square; `KingsideLeavesPositionStale` shows the exception. */
  lemma MoveKeepsPlaced(b: Board, from: Pos, to: Pos)
    requires MoveDefined(b, from, to) && Invariant(b) && Placed(b)
    requires At(b, from).piece.kind == King && ColorAt(b, from) != ColorAt(b, to) ==> !Castle(b, from, to).0
    ensures Placed(Move(b, from, to).1)
  {
    var p := At(b, from).piece;
    if Move(b, from, to).0 != Moved {
      InvariantEvolved(b, Move(b, from, to).1);
    } else if p.kind == Pawn {
      PawnMoveChangesRow(b, from, to);
      var er := ValidEat(p, to, ColorAt(b, to));
      AdvanceKeepsPlaced(b, from, to, er.piece, er.found.value, Move(b, from, to).1);
    } else if p.kind == King {
      KingMoveKeepsPlaced(b, from, to);
    } else {
      OtherMoveKeepsPlaced(b, from, to);
    }
  }

  lemma OtherMoveKeepsPlaced(b: Board, from: Pos, to: Pos)
    requires MoveDefined(b, from, to) && Wf(b) && Placed(b)
    requires At(b, from).piece.kind !in {King, Pawn} && Move(b, from, to).0 == Moved
    ensures Placed(Move(b, from, to).1)
  {
    var r := Move(b, from, to).1;
    forall q | InBounds(q) && At(r, q).Occupied?
      ensures At(r, q).piece.pos == q
    {
      if q != to && q != from {
        assert At(r, q) == At(b, q);
      }
    }
  }

  lemma KingMoveKeepsPlaced(b: Board, from: Pos, to: Pos)
    requires MoveDefined(b, from, to) && Wf(b) && Placed(b)
    requires At(b, from).piece.kind == King && ColorAt(b, from) != ColorAt(b, to)
    requires !Castle(b, from, to).0
    ensures Placed(KingMove(b, from, to).1)
  {
    var r := KingMove(b, from, to);
    if r.0 != Moved {
      InvariantEvolvedPlaced(b, r.1);
    } else {
      forall q | InBounds(q) && At(r.1, q).Occupied?
        ensures At(r.1, q).piece.pos == q
      {
        if q != to && q != from {
          assert CellEvolved(At(b, q), At(r.1, q));
        }
      }
    }
  }

  lemma AdvanceKeepsPlaced(b: Board, from: Pos, to: Pos, p: Piece, found: TransRef, r: Board)
    requires Wf(b) && Placed(b) && Wf(r) && InBounds(from) && InBounds(to) && ValidRef(p, found)
    requires PawnAdvanced(b, from, to, p, found, r)
    ensures Placed(r)
  {
    var ep := TakesEnPassant(p, b, to);
    forall q | InBounds(q) && At(r, q).Occupied?
      ensures At(r, q).piece.pos == q
    {
      if q == to || q == from {
      } else if Neighbour(to.row, to.col + 1) == Some(q) || Neighbour(to.row, to.col - 1) == Some(q) {
        assert At(b, q).Occupied?;
      } else if ep && q == Pos(from.row, to.col) {
      } else {
        assert At(r, q) == At(b, q);
      }
    }
  }
}
