/** The board layer: the 8x8 grid of cells, its initial layout, path and
    attack analysis. Because `Pawn#valid_eat?` changes the pawn it is asked,
    every query here returns the board as it leaves it. Cells are stored
    row-major (`8 * row + col`), the order in which the source's nested
    `@board.each` loops visit them; a piece is identified by the cell that
    holds it. */
module ChessBoard {
  import opened Geometry
  import opened Pieces

  type Board = seq<Cell>

  const Cells: nat := 64

  function Idx(p: Pos): (k: nat)
    requires InBounds(p)
    ensures k < Cells
  {
    8 * p.row + p.col
  }

  function SquareOf(k: nat): (p: Pos)
    requires k < Cells
    ensures InBounds(p) && Idx(p) == k
  {
    Pos(k / 8, k % 8)
  }

  lemma SquareOfIdx(p: Pos)
    requires InBounds(p)
    ensures SquareOf(Idx(p)) == p
  {
  }

  /** `get_piece` */
  function At(b: Board, p: Pos): Cell
    requires |b| == Cells && InBounds(p)
  {
    b[Idx(p)]
  }

  /** `@board[p[0]][p[1]] = c` */
  function Put(b: Board, p: Pos, c: Cell): (r: Board)
    requires |b| == Cells && InBounds(p)
    ensures |r| == Cells && At(r, p) == c
    ensures forall q :: InBounds(q) && q != p ==> At(r, q) == At(b, q)
  {
    b[Idx(p) := c]
  }

  /** `get_piece_color`: the colour of the piece on a square, `None` for an
      empty square. */
  function ColorAt(b: Board, p: Pos): (r: Option<Color>)
    requires |b| == Cells && InBounds(p)
    ensures r.Some? <==> At(b, p).Occupied?
    ensures r.Some? ==> r.value == At(b, p).piece.color
  {
    if At(b, p).Occupied? then Some(At(b, p).piece.color) else None
  }

  /** A square on the board that holds a piece. */
  predicate IsOccupied(b: Board, p: Pos)
    requires |b| == Cells
  {
    InBounds(p) && At(b, p).Occupied?
  }

  /** Every stored position is a square of the board (a king's may lag behind
      its cell) and every piece has a step limit that actually occurs. */
  predicate Wf(b: Board)
  {
    |b| == Cells
    && forall k :: 0 <= k < Cells && b[k].Occupied? ==> InBounds(b[k].piece.pos) && PieceWf(b[k].piece)
  }

  // ---------------------------------------------------------------------------
  // Initial layout

  /** The back rank from column 0 to column 7. */
  const BackRank: seq<Kind> := [Rook, Knight, Bishop, Queen, King, Bishop, Knight, Rook]

  /** `initial_pawns` and `initial_others`. */
  function InitialCell(p: Pos): Cell
    requires InBounds(p)
  {
    if p.row == 0 then Occupied(NewPiece(BackRank[p.col], White, p))
    else if p.row == 1 then Occupied(NewPiece(Pawn, White, p))
    else if p.row == 6 then Occupied(NewPiece(Pawn, Black, p))
    else if p.row == 7 then Occupied(NewPiece(BackRank[p.col], Black, p))
    else Empty
  }

  /** `ChessBoard#initialize` */
  function Initial(): (b: Board)
    ensures |b| == Cells
  {
    seq(Cells, k requires 0 <= k < Cells => InitialCell(SquareOf(k)))
  }

  /** Rows 0 and 7 hold R N B Q K B N R (queen on column 3, king on column 4),
      rows 1 and 6 hold pawns, rows 2 to 5 are empty, White owns rows 0 and 1,
      and every piece's stored position is its own cell. */
  lemma InitialLayout()
    ensures Wf(Initial())
    ensures forall p :: InBounds(p) ==> (At(Initial(), p).Occupied? <==> p.row in {0, 1, 6, 7})
    ensures forall p :: InBounds(p) && At(Initial(), p).Occupied? ==>
      var q := At(Initial(), p).piece;
      && q.pos == p
      && q.color == (if p.row <= 1 then White else Black)
      && q.kind == (if p.row == 1 || p.row == 6 then Pawn else BackRank[p.col])
      && q == NewPiece(q.kind, q.color, p)
    ensures BackRank[3] == Queen && BackRank[4] == King
  {
    var b := Initial();
    forall k | 0 <= k < Cells && b[k].Occupied?
      ensures InBounds(b[k].piece.pos) && PieceWf(b[k].piece)
    {
      InitialCellFacts(SquareOf(k));
    }
    forall p | InBounds(p)
      ensures At(b, p) == InitialCell(p)
    {
      SquareOfIdx(p);
    }
    forall p | InBounds(p)
      ensures At(b, p).Occupied? <==> p.row in {0, 1, 6, 7}
      ensures At(b, p).Occupied? ==>
        var q := At(b, p).piece;
        && q.pos == p
        && q.color == (if p.row <= 1 then White else Black)
        && q.kind == (if p.row == 1 || p.row == 6 then Pawn else BackRank[p.col])
        && q == NewPiece(q.kind, q.color, p)
    {
      InitialCellFacts(p);
    }
  }

  lemma InitialCellFacts(p: Pos)
    requires InBounds(p)
    ensures InitialCell(p).Occupied? <==> p.row in {0, 1, 6, 7}
    ensures InitialCell(p).Occupied? ==>
      var q := InitialCell(p).piece;
      && q.pos == p && PieceWf(q)
      && q.color == (if p.row <= 1 then White else Black)
      && q.kind == (if p.row == 1 || p.row == 6 then Pawn else BackRank[p.col])
      && q == NewPiece(q.kind, q.color, p)
  {
    if InitialCell(p).Occupied? {
      var q := InitialCell(p).piece;
      NewPieceWf(q.kind, q.color, p);
    }
  }

  // ---------------------------------------------------------------------------
  // What queries may change

  /** The occupancy of every cell is the same: the same squares are empty and
      the pieces have the same kind, colour and stored position. */
  predicate SameOccupancy(b: Board, b': Board)
  {
    && |b| == Cells && |b'| == Cells
    && forall k :: 0 <= k < Cells ==>
      && (b[k].Empty? <==> b'[k].Empty?)
      && (b[k].Occupied? && b'[k].Occupied? ==>
            b'[k].piece.kind == b[k].piece.kind && b'[k].piece.color == b[k].piece.color
            && b'[k].piece.pos == b[k].piece.pos)
  }

  /** `b'` is what queries can make of `b`: each piece only as
      `PieceEvolved` allows. */
  predicate Evolved(b: Board, b': Board)
  {
    && |b| == Cells && |b'| == Cells
    && forall k :: 0 <= k < Cells ==>
      && (b[k].Empty? <==> b'[k].Empty?)
      && (b[k].Occupied? && b'[k].Occupied? ==> PieceEvolved(b[k].piece, b'[k].piece))
  }

  lemma EvolvedRefl(b: Board)
    requires |b| == Cells
    ensures Evolved(b, b)
  {
  }

  lemma EvolvedTrans(b0: Board, b1: Board, b2: Board)
    requires Evolved(b0, b1) && Evolved(b1, b2)
    ensures Evolved(b0, b2)
  {
    forall k | 0 <= k < Cells && b0[k].Occupied?
      ensures PieceEvolved(b0[k].piece, b2[k].piece)
    {
      PieceEvolvedTrans(b0[k].piece, b1[k].piece, b2[k].piece);
    }
  }

  lemma EvolvedFacts(b: Board, b': Board)
    requires Wf(b) && Evolved(b, b')
    ensures Wf(b') && SameOccupancy(b, b')
    ensures forall p :: InBounds(p) ==> ColorAt(b', p) == ColorAt(b, p)
    ensures forall p :: IsOccupied(b', p) <==> IsOccupied(b, p)
  {
    forall p | InBounds(p)
      ensures ColorAt(b', p) == ColorAt(b, p)
    {
      assert b'[Idx(p)].Occupied? ==> PieceEvolved(b[Idx(p)].piece, b'[Idx(p)].piece);
    }
  }

  /** Queries keep the board well-formed. */
  lemma EvolvedWf(b: Board, b': Board)
    requires Wf(b) && Evolved(b, b')
    ensures Wf(b')
  {
    forall k | 0 <= k < Cells && b'[k].Occupied?
      ensures InBounds(b'[k].piece.pos) && PieceWf(b'[k].piece)
    {
      assert PieceEvolved(b[k].piece, b'[k].piece);
    }
  }

  lemma SameOccupancyColors(b: Board, b': Board)
    requires SameOccupancy(b, b')
    ensures forall p :: InBounds(p) ==> ColorAt(b', p) == ColorAt(b, p)
    ensures forall p :: IsOccupied(b', p) <==> IsOccupied(b, p)
  {
    forall p | InBounds(p)
      ensures ColorAt(b', p) == ColorAt(b, p)
    {
      assert b[Idx(p)].Occupied? ==> b'[Idx(p)].piece.color == b[Idx(p)].piece.color;
    }
  }

  /** Replacing the piece in one cell by an evolved version of it. */
  lemma EvolveCell(b: Board, k: nat, q: Piece)
    requires Wf(b) && k < Cells && b[k].Occupied? && PieceEvolved(b[k].piece, q)
    ensures Evolved(b, b[k := Occupied(q)]) && Wf(b[k := Occupied(q)])
  {
    EvolvedFacts(b, b[k := Occupied(q)]);
  }

  /** A piece is scanned by `has_check?` (`enemies`) or by `can_block?`
      (`!enemies`) according to the colour found at its stored position. */
  predicate Scanned(b: Board, p: Piece, player: Color, enemies: bool)
    requires |b| == Cells && InBounds(p.pos)
  {
    (ColorAt(b, p.pos) != Some(player)) == enemies
  }

  /** Every scanned pawn whose en-passant flags are live (so that it answers
      with that diagonal whatever it is asked) has `pos` on that diagonal's
      ray. Otherwise `free_path?` would walk off the board. */
  predicate Aimed(b: Board, pos: Pos, player: Color, enemies: bool)
    requires Wf(b)
  {
    forall k :: 0 <= k < Cells && b[k].Occupied? && b[k].piece.pos != pos && Firing(b[k].piece).Some?
      && Scanned(b, b[k].piece, player, enemies)
      ==> Reach(b[k].piece.pos, pos, Firing(b[k].piece).value).Some?
  }

  lemma AimedEvolved(b: Board, b': Board, player: Color, enemies: bool)
    requires Wf(b) && Evolved(b, b')
    ensures Wf(b')
    ensures forall pos :: Aimed(b, pos, player, enemies) ==> Aimed(b', pos, player, enemies)
  {
    EvolvedFacts(b, b');
    forall pos | Aimed(b, pos, player, enemies)
      ensures Aimed(b', pos, player, enemies)
    {
      forall k | 0 <= k < Cells && b'[k].Occupied? && b'[k].piece.pos != pos && Firing(b'[k].piece).Some?
        && Scanned(b', b'[k].piece, player, enemies)
        ensures Reach(b'[k].piece.pos, pos, Firing(b'[k].piece).value).Some?
      {
        assert PieceEvolved(b[k].piece, b'[k].piece);
      }
    }
  }

  // ---------------------------------------------------------------------------
  // Paths

  /** The three answers of `free_path?`: `true` (same square), the list of
      squares walked (truthy), or `false`. */
  datatype PathResult = SamePlace | Clear(squares: seq<Pos>) | Blocked

  /** `free_path?(from, to, trans)`: walks `from + i*trans` for `i = 0, 1, ...`;
      answers the squares walked once it reaches `to`, `false` as soon as a
      square after the first one is occupied. `to` must lie on the ray. */
  function FreePath(b: Board, from: Pos, to: Pos, t: Vec): (r: PathResult)
    requires |b| == Cells && InBounds(from) && InBounds(to) && Reach(from, to, t).Some?
    ensures r.SamePlace? <==> from == to
    ensures r.Blocked? <==>
      from != to && exists i :: 0 < i < Reach(from, to, t).value && IsOccupied(b, Step(from, t, i))
    ensures r.Clear? ==>
      && |r.squares| == Reach(from, to, t).value > 0
      && r.squares[0] == from
      && to !in r.squares
      && (forall i :: 0 <= i < |r.squares| ==> r.squares[i] == Step(from, t, i) && InBounds(r.squares[i]))
      && (forall i :: 0 < i < |r.squares| ==> !IsOccupied(b, r.squares[i]))
  {
    if from == to then SamePlace
    else
      var k := Reach(from, to, t).value;
      if Obstructed(b, from, t, k) then Blocked
      else
        var s := RaySquares(from, t, k);
        ClearPath(b, from, to, t, s);
        Clear(s)
  }

  /** Some square strictly between the start and the `k`-th step is occupied. */
  predicate Obstructed(b: Board, from: Pos, t: Vec, k: nat)
    requires |b| == Cells
  {
    exists i :: 0 < i < k && IsOccupied(b, Step(from, t, i))
  }

  /** The first `k` squares of the ray from `from` along `t`. */
  function RaySquares(from: Pos, t: Vec, k: nat): (s: seq<Pos>)
    ensures |s| == k && forall i :: 0 <= i < k ==> s[i] == Step(from, t, i)
  {
    seq(k, i requires 0 <= i < k => Step(from, t, i))
  }

  /** The squares walked before reaching `to`, when none after the first is
      occupied. */
  lemma ClearPath(b: Board, from: Pos, to: Pos, t: Vec, s: seq<Pos>)
    requires |b| == Cells && InBounds(from) && InBounds(to) && from != to && Reach(from, to, t).Some?
    requires |s| == Reach(from, to, t).value && forall i :: 0 <= i < |s| ==> s[i] == Step(from, t, i)
    requires !Obstructed(b, from, t, |s|)
    ensures |s| > 0 && s[0] == from && to !in s
    ensures forall i :: 0 <= i < |s| ==> InBounds(s[i])
    ensures forall i :: 0 < i < |s| ==> !IsOccupied(b, s[i])
  {
    var k := |s|;
    RayInBounds(from, t, k);
    assert k > 0 by { assert Step(from, t, 0) == from; }
    assert s[0] == Step(from, t, 0) == from;
    forall i | 0 <= i < k
      ensures s[i] != to && InBounds(s[i])
    {
      assert s[i] == Step(from, t, i);
    }
  }

  /** A path depends only on which squares are occupied. */
  lemma FreePathOccupancy(b: Board, b': Board, from: Pos, to: Pos, t: Vec)
    requires SameOccupancy(b, b') && InBounds(from) && InBounds(to) && Reach(from, to, t).Some?
    ensures FreePath(b', from, to, t) == FreePath(b, from, to, t)
  {
    SameOccupancyColors(b, b');
  }

  /** The squares an attack covers, as `has_check?` returns them. */
  function AttackPath(fp: PathResult): seq<Pos>
  {
    if fp.Clear? then fp.squares else []
  }

  // ---------------------------------------------------------------------------
  // Attacks

  /** What one cell contributes to `has_check?(pos, player)`, asked of the
      piece as it stands in `b`: the attack path when a piece of the other
      side (by the colour at its stored position), not standing on `pos`,
      has a capture translation onto `pos` with a free path. */
  function AttackBy(b: Board, k: nat, pos: Pos, player: Color): (r: Option<seq<Pos>>)
    requires Wf(b) && InBounds(pos) && Aimed(b, pos, player, true) && k < Cells
  {
    if b[k].Empty? then None
    else
      var p := b[k].piece;
      if ColorAt(b, p.pos) == Some(player) || p.pos == pos then None
      else
        var er := ValidEat(p, pos, ColorAt(b, pos));
        if er.found.None? then None
        else
          ValidEatReaches(p, pos, ColorAt(b, pos));
          var fp := FreePath(b, p.pos, pos, Vector(er.piece, er.found.value));
          if fp.Blocked? then None else Some(AttackPath(fp))
  }

  /** Reference for `has_check?`: the first cell, at or after `k`, whose piece
      attacks `pos`, every piece asked as it stands in `b`. */
  function FirstAttack(b: Board, pos: Pos, player: Color, k: nat): (r: Option<seq<Pos>>)
    requires Wf(b) && InBounds(pos) && Aimed(b, pos, player, true) && k <= Cells
    decreases Cells - k
  {
    if k == Cells then None
    else if AttackBy(b, k, pos, player).Some? then AttackBy(b, k, pos, player)
    else FirstAttack(b, pos, player, k + 1)
  }

  /** The reference finds no attacker exactly when no cell attacks. */
  lemma FirstAttackNone(b: Board, pos: Pos, player: Color, k: nat)
    requires Wf(b) && InBounds(pos) && Aimed(b, pos, player, true) && k <= Cells
    ensures FirstAttack(b, pos, player, k).None? <==> forall j :: k <= j < Cells ==> AttackBy(b, j, pos, player).None?
  {
    if FirstAttack(b, pos, player, k).None? {
      forall j | k <= j < Cells
        ensures AttackBy(b, j, pos, player).None?
      {
        FirstAttackSkips(b, pos, player, k, j);
      }
    }
    if forall j :: k <= j < Cells ==> AttackBy(b, j, pos, player).None? {
      FirstAttackQuiet(b, pos, player, k);
    }
  }

  lemma {:induction false} FirstAttackSkips(b: Board, pos: Pos, player: Color, k: nat, j: nat)
    requires Wf(b) && InBounds(pos) && Aimed(b, pos, player, true) && k <= j < Cells
    requires FirstAttack(b, pos, player, k).None?
    ensures AttackBy(b, j, pos, player).None?
    decreases j - k
  {
    if k < j {
      FirstAttackSkips(b, pos, player, k + 1, j);
    }
  }

  lemma {:induction false} FirstAttackQuiet(b: Board, pos: Pos, player: Color, k: nat)
    requires Wf(b) && InBounds(pos) && Aimed(b, pos, player, true) && k <= Cells
    requires forall j :: k <= j < Cells ==> AttackBy(b, j, pos, player).None?
    ensures FirstAttack(b, pos, player, k).None?
    decreases Cells - k
  {
    if k < Cells {
      FirstAttackQuiet(b, pos, player, k + 1);
    }
  }

  /** An attacker's path the reference answers is the one some cell gives. */
  lemma {:induction false} FirstAttackSome(b: Board, pos: Pos, player: Color, k: nat)
    requires Wf(b) && InBounds(pos) && Aimed(b, pos, player, true) && k <= Cells
    requires FirstAttack(b, pos, player, k).Some?
    decreases Cells - k
    ensures exists j :: k <= j < Cells && AttackBy(b, j, pos, player) == FirstAttack(b, pos, player, k)
  {
    if AttackBy(b, k, pos, player).None? {
      FirstAttackSome(b, pos, player, k + 1);
    }
  }


  /** Asking cell `k` whether its piece attacks `pos`, as `has_check?` does:
      the answer is the reference one, and only that cell may change. */
  function Ask(b: Board, pos: Pos, player: Color, k: nat): (r: (Option<seq<Pos>>, Board))
    requires Wf(b) && InBounds(pos) && Aimed(b, pos, player, true) && k < Cells
    ensures Evolved(b, r.1) && Wf(r.1) && Aimed(r.1, pos, player, true)
    ensures r.0 == AttackBy(b, k, pos, player)
    ensures forall j :: 0 <= j < Cells && j != k ==> r.1[j] == b[j]
  {
    if b[k].Empty? then EvolvedRefl(b); (None, b)
    else
      var p := b[k].piece;
      if ColorAt(b, p.pos) == Some(player) || p.pos == pos then EvolvedRefl(b); (None, b)
      else
        var er := ValidEat(p, pos, ColorAt(b, pos));
        var b1 := AskedCell(b, k, pos);
        AimedEvolved(b, b1, player, true);
        EvolvedFacts(b, b1);
        if er.found.None? then (None, b1)
        else
          ValidEatReaches(p, pos, ColorAt(b, pos));
          FreePathOccupancy(b, b1, p.pos, pos, Vector(er.piece, er.found.value));
          var fp := FreePath(b1, p.pos, pos, Vector(er.piece, er.found.value));
          if fp.Blocked? then (None, b1) else (Some(AttackPath(fp)), b1)
  }

  /** The scan of `has_check?` from cell `k` on, asking each piece in turn
      (which may change it) and stopping at the first attacker. */
  function HasCheckFrom(b: Board, pos: Pos, player: Color, k: nat): (r: (Option<seq<Pos>>, Board))
    requires Wf(b) && InBounds(pos) && Aimed(b, pos, player, true) && k <= Cells
    decreases Cells - k
    ensures Evolved(b, r.1) && Wf(r.1)
  {
    if k == Cells then EvolvedRefl(b); (None, b)
    else
      var a := Ask(b, pos, player, k);
      if a.0.Some? then a
      else
        var r := HasCheckFrom(a.1, pos, player, k + 1);
        EvolvedTrans(b, a.1, r.1);
        r
  }

  /** `has_check?(pos, player)`: the path of the first piece of the other side
      that can capture on `pos`, or `None` for `false`. */
  function HasCheck(b: Board, pos: Pos, player: Color): (r: (Option<seq<Pos>>, Board))
    requires Wf(b) && InBounds(pos) && Aimed(b, pos, player, true)
    ensures Evolved(b, r.1) && Wf(r.1)
    ensures r.0 == FirstAttack(b, pos, player, 0)
    ensures r.0.Some? ==> forall q :: q in r.0.value ==> InBounds(q) && q != pos
  {
    HasCheckIsFirstAttack(b, pos, player, 0);
    AttackPathsInBounds(b, pos, player, 0);
    HasCheckFrom(b, pos, player, 0)
  }

  // ---------------------------------------------------------------------------
  // Attack lemmas

  /** Asking a cell depends only on that cell and on the occupancy. */
  lemma AttackByFrame(b: Board, b': Board, k: nat, pos: Pos, player: Color)
    requires Wf(b) && Wf(b') && InBounds(pos) && k < Cells
    requires Aimed(b, pos, player, true) && Aimed(b', pos, player, true)
    requires SameOccupancy(b, b') && b'[k] == b[k]
    ensures AttackBy(b', k, pos, player) == AttackBy(b, k, pos, player)
  {
    SameOccupancyColors(b, b');
    if b[k].Occupied? {
      var p := b[k].piece;
      if ColorAt(b, p.pos) != Some(player) && p.pos != pos {
        var er := ValidEat(p, pos, ColorAt(b, pos));
        if er.found.Some? {
          ValidEatReaches(p, pos, ColorAt(b, pos));
          FreePathOccupancy(b, b', p.pos, pos, Vector(er.piece, er.found.value));
        }
      }
    }
  }

  lemma {:induction false} FirstAttackFrame(b: Board, b': Board, pos: Pos, player: Color, k: nat)
    requires Wf(b) && Wf(b') && InBounds(pos) && k <= Cells
    requires Aimed(b, pos, player, true) && Aimed(b', pos, player, true)
    requires SameOccupancy(b, b') && forall j :: k <= j < Cells ==> b'[j] == b[j]
    ensures FirstAttack(b', pos, player, k) == FirstAttack(b, pos, player, k)
    decreases Cells - k
  {
    if k < Cells {
      AttackByFrame(b, b', k, pos, player);
      FirstAttackFrame(b, b', pos, player, k + 1);
    }
  }

  /** The board `has_check?` continues with after asking cell `k`. */
  function AskedCell(b: Board, k: nat, pos: Pos): (b1: Board)
    requires Wf(b) && InBounds(pos) && k < Cells && b[k].Occupied?
    ensures Evolved(b, b1) && Wf(b1) && b1[k].Occupied?
    ensures forall j :: 0 <= j < Cells && j != k ==> b1[j] == b[j]
  {
    var er := ValidEat(b[k].piece, pos, ColorAt(b, pos));
    ValidEatEvolves(b[k].piece, pos, ColorAt(b, pos));
    EvolveCell(b, k, er.piece);
    b[k := Occupied(er.piece)]
  }

  /** The stateful scan finds exactly the first attacker of the reference:
      each piece is asked once, before anything has changed it. */
  lemma {:induction false} HasCheckIsFirstAttack(b: Board, pos: Pos, player: Color, k: nat)
    requires Wf(b) && InBounds(pos) && Aimed(b, pos, player, true) && k <= Cells
    ensures HasCheckFrom(b, pos, player, k).0 == FirstAttack(b, pos, player, k)
    decreases Cells - k
  {
    if k < Cells {
      AskFrame(b, pos, player, k);
      HasCheckIsFirstAttack(Ask(b, pos, player, k).1, pos, player, k + 1);
    }
  }

  /** Asking one cell leaves the reference answer of the later cells as it
      was. */
  lemma AskFrame(b: Board, pos: Pos, player: Color, k: nat)
    requires Wf(b) && InBounds(pos) && Aimed(b, pos, player, true) && k < Cells
    ensures FirstAttack(Ask(b, pos, player, k).1, pos, player, k + 1) == FirstAttack(b, pos, player, k + 1)
  {
    var b1 := Ask(b, pos, player, k).1;
    EvolvedFacts(b, b1);
    FirstAttackFrame(b, b1, pos, player, k + 1);
  }

  lemma AttackByInBounds(b: Board, k: nat, pos: Pos, player: Color)
    requires Wf(b) && InBounds(pos) && Aimed(b, pos, player, true) && k < Cells
    requires AttackBy(b, k, pos, player).Some?
    ensures forall q :: q in AttackBy(b, k, pos, player).value ==> InBounds(q) && q != pos
  {
  }

  lemma {:induction false} AttackPathsInBounds(b: Board, pos: Pos, player: Color, k: nat)
    requires Wf(b) && InBounds(pos) && Aimed(b, pos, player, true) && k <= Cells
    ensures FirstAttack(b, pos, player, k).Some? ==>
      forall q :: q in FirstAttack(b, pos, player, k).value ==> InBounds(q) && q != pos
    decreases Cells - k
  {
    if k == Cells {
    } else if AttackBy(b, k, pos, player).Some? {
      AttackByInBounds(b, k, pos, player);
    } else {
      AttackPathsInBounds(b, pos, player, k + 1);
    }
  }

  /** Queries never create an attack: a cell that attacks `pos` on an
      evolved board attacked it, along the same path, before. */
  lemma AttackByMonotone(b: Board, b': Board, k: nat, pos: Pos, player: Color)
    requires Wf(b) && Evolved(b, b') && InBounds(pos) && k < Cells
    requires Aimed(b, pos, player, true)
    requires Wf(b') && Aimed(b', pos, player, true)
    requires AttackBy(b', k, pos, player).Some?
    ensures AttackBy(b, k, pos, player) == AttackBy(b', k, pos, player)
  {
    EvolvedFacts(b, b');
    var p := b[k].piece;
    var q := b'[k].piece;
    ValidEatMonotone(p, q, pos, ColorAt(b, pos));
    var er := ValidEat(p, pos, ColorAt(b, pos));
    ValidEatReaches(p, pos, ColorAt(b, pos));
    FreePathOccupancy(b, b', p.pos, pos, Vector(er.piece, er.found.value));
  }

  lemma {:induction false} FirstAttackMonotone(b: Board, b': Board, pos: Pos, player: Color, k: nat)
    requires Wf(b) && Evolved(b, b') && InBounds(pos) && k <= Cells
    requires Aimed(b, pos, player, true)
    requires Wf(b') && Aimed(b', pos, player, true)
    requires FirstAttack(b', pos, player, k).Some?
    ensures FirstAttack(b, pos, player, k).Some?
    decreases Cells - k
  {
    if AttackBy(b', k, pos, player).Some? {
      AttackByMonotone(b, b', k, pos, player);
    } else {
      FirstAttackMonotone(b, b', pos, player, k + 1);
    }
  }

  /** A square that is not attacked stays unattacked however many queries
      run in between. */
  lemma NoAttackIsStable(b: Board, b': Board, pos: Pos, player: Color)
    requires Wf(b) && Evolved(b, b') && InBounds(pos) && Aimed(b, pos, player, true)
    requires HasCheck(b, pos, player).0.None?
    ensures Wf(b') && Aimed(b', pos, player, true)
    ensures HasCheck(b', pos, player).0.None?
  {
    AimedEvolved(b, b', player, true);
    if HasCheck(b', pos, player).0.Some? {
      FirstAttackMonotone(b, b', pos, player, 0);
    }
  }
}
