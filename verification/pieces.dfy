/** The piece layer: each piece's translation table, step limit, geometric
    reachability (`valid_move?`), capture reachability (`valid_eat?`, with the
    stateful pawn override) and the king's castling test. Ruby's subclasses
    become one record tagged with a `Kind`; the Unicode glyph that the source
    uses as a piece's symbol becomes its `Kind` and `Color`. */
module Pieces {
  import opened Geometry

  datatype Color = White | Black

  datatype Kind = King | Queen | Rook | Bishop | Knight | Pawn

  /** One piece object. `trans` is `@translations`, `eatTrans` is
      `@eat_translations` (empty except for pawns), `maxMult` is
      `@max_multiplier`; the three flags exist only on pawns and stay false
      elsewhere. */
  datatype Piece = Piece(
    kind: Kind,
    color: Color,
    pos: Pos,
    hasMoved: bool,
    trans: seq<Vec>,
    eatTrans: seq<Vec>,
    maxMult: int,
    epRight: bool,
    epLeft: bool,
    ateEp: bool)

  /** A board cell: the `'*'` sentinel or a piece. */
  datatype Cell = Empty | Occupied(piece: Piece)

  /** Default `@max_multiplier` set by the base constructor. */
  const BaseMultiplier: int := 8

  /** The eight unit directions of King and Queen, in the source's order. */
  const Units: seq<Vec> :=
    [Pos(1, 1), Pos(1, 0), Pos(1, -1), Pos(0, 1),
     Pos(0, -1), Pos(-1, 1), Pos(-1, 0), Pos(-1, -1)]

  const Orthogonals: seq<Vec> := [Pos(1, 0), Pos(0, 1), Pos(0, -1), Pos(-1, 0)]

  const Diagonals: seq<Vec> := [Pos(1, 1), Pos(1, -1), Pos(-1, 1), Pos(-1, -1)]

  const Jumps: seq<Vec> :=
    [Pos(2, 1), Pos(2, -1), Pos(1, 2), Pos(1, -2),
     Pos(-2, 1), Pos(-2, -1), Pos(-1, 2), Pos(-1, -2)]

  /** `@castle_translations` of a King. */
  const CastleSteps: seq<Vec> := [Pos(0, 2), Pos(0, -2)]

  /** The row direction a pawn of colour `c` advances in. */
  function Forward(c: Color): int
  {
    if c == White then 1 else -1
  }

  function Translations(kind: Kind, color: Color): seq<Vec>
  {
    match kind
    case King => Units
    case Queen => Units
    case Rook => Orthogonals
    case Bishop => Diagonals
    case Knight => Jumps
    case Pawn => [Pos(Forward(color), 0)]
  }

  function EatTranslations(kind: Kind, color: Color): seq<Vec>
  {
    if kind == Pawn then [Pos(Forward(color), 1), Pos(Forward(color), -1)] else []
  }

  function Multiplier(kind: Kind): int
  {
    match kind
    case King => 1
    case Knight => 1
    case Pawn => 2
    case _ => BaseMultiplier
  }

  /** `create_piece` and the subclass constructors. */
  function NewPiece(kind: Kind, color: Color, pos: Pos): (p: Piece)
    ensures p.kind == kind && p.color == color && p.pos == pos
    ensures !p.hasMoved && !p.epRight && !p.epLeft && !p.ateEp
  {
    Piece(kind, color, pos, false, Translations(kind, color), EatTranslations(kind, color),
          Multiplier(kind), false, false, false)
  }

  /** Some multiple `i` in `0..m` of `t` leads from `pos` to `target`. */
  predicate Hits(pos: Pos, t: Vec, m: int, target: Pos)
  {
    exists i :: 0 <= i <= m && Step(pos, t, i) == target
  }

  /** The index of the first translation of `ts`, at or after `j`, that hits
      `target` from `pos` within `m` steps. */
  function FirstReach(pos: Pos, ts: seq<Vec>, m: int, target: Pos, j: nat): (r: Option<nat>)
    requires j <= |ts|
    decreases |ts| - j
    ensures r.Some? ==> j <= r.value < |ts| && Hits(pos, ts[r.value], m, target)
    ensures r.Some? ==> forall l :: j <= l < r.value ==> !Hits(pos, ts[l], m, target)
    ensures r.None? <==> forall l :: j <= l < |ts| ==> !Hits(pos, ts[l], m, target)
  {
    if j == |ts| then None
    else if Hits(pos, ts[j], m, target) then Some(j)
    else FirstReach(pos, ts, m, target, j + 1)
  }

  /** `valid_move?`: the index in `trans` of the translation it returns, or
      `None` for `false`. */
  function ValidMove(p: Piece, target: Pos): Option<nat>
  {
    FirstReach(p.pos, p.trans, p.maxMult, target, 0)
  }

  /** `valid_castle?` */
  function ValidCastle(p: Piece, target: Pos): (r: bool)
    ensures r <==> target == Pos(p.pos.row, p.pos.col + 2) || target == Pos(p.pos.row, p.pos.col - 2)
  {
    Add(p.pos, CastleSteps[0]) == target || Add(p.pos, CastleSteps[1]) == target
  }

  /** A piece with the king's one-square table never reaches a castle
      target: those lie two columns away. */
  lemma KingStepNotCastle(p: Piece, target: Pos)
    requires p.trans == Units && p.maxMult == 1
    ensures ValidMove(p, target).Some? ==> !ValidCastle(p, target)
  {
    if ValidMove(p, target).Some? {
      ValidMoveSpec(p, target);
      var j, i :| 0 <= j < |p.trans| && 0 <= i <= p.maxMult && Step(p.pos, p.trans[j], i) == target;
      assert -1 <= p.trans[j].col <= 1;
    }
  }

  /** Which table entry a returned translation array is: `valid_eat?` returns
      the array object itself, and the board later writes into it. */
  datatype TransRef = MoveRef(index: nat) | EatRef(index: nat)

  predicate ValidRef(p: Piece, r: TransRef)
  {
    match r
    case MoveRef(j) => j < |p.trans|
    case EatRef(j) => j < |p.eatTrans|
  }

  function Vector(p: Piece, r: TransRef): Vec
    requires ValidRef(p, r)
  {
    match r
    case MoveRef(j) => p.trans[j]
    case EatRef(j) => p.eatTrans[j]
  }

  /** `check_en_passant`: the diagonal a pawn's en-passant flags point to, the
      right one preferred. */
  function CheckEnPassant(p: Piece): Option<Vec>
  {
    if p.epRight then Some(Pos(Forward(p.color), 1))
    else if p.epLeft then Some(Pos(Forward(p.color), -1))
    else None
  }

  /** The en-passant translation that `Pawn#valid_eat?` would return whatever
      the target: the flags point to a vector still present in
      `@eat_translations`. */
  function Firing(p: Piece): Option<Vec>
  {
    if p.kind == Pawn && CheckEnPassant(p).Some? && CheckEnPassant(p).value in p.eatTrans
    then CheckEnPassant(p) else None
  }

  datatype EatHit = EatHit(index: nat, enPassant: bool)

  /** An ordinary capture by entry `t`: it lands on the target, which holds a
      piece of the other colour. */
  predicate Captures(pos: Pos, color: Color, t: Vec, target: Pos, occ: Option<Color>)
  {
    occ.Some? && occ.value != color && Add(pos, t) == target
  }

  /** The loop over `@eat_translations` (`ts`) in `Pawn#valid_eat?` for a pawn
      of colour `color` standing on `pos`: at each entry, first the en-passant
      comparison, then (unless the target square is empty) the diagonal capture
      of a piece of the other colour. `occ` is the colour of the target's
      occupant, `None` for `'*'`. */
  function EatScan(pos: Pos, color: Color, ts: seq<Vec>, ep: Option<Vec>, target: Pos, occ: Option<Color>, j: nat)
    : (r: Option<EatHit>)
    requires j <= |ts|
    decreases |ts| - j
    ensures r.Some? ==> j <= r.value.index < |ts|
    ensures r.Some? && r.value.enPassant ==> ep == Some(ts[r.value.index])
    ensures r.Some? && !r.value.enPassant ==>
      occ.Some? && occ.value != color && Add(pos, ts[r.value.index]) == target
    ensures (exists l :: j <= l < |ts| && ep == Some(ts[l])) ==> r.Some?
  {
    if j == |ts| then None
    else if ep == Some(ts[j]) then Some(EatHit(j, true))
    else if occ.Some? && Add(pos, ts[j]) == target && occ.value != color then Some(EatHit(j, false))
    else EatScan(pos, color, ts, ep, target, occ, j + 1)
  }

  /** An entry matches when it is the en-passant vector or captures. */
  predicate Matches(pos: Pos, color: Color, t: Vec, ep: Option<Vec>, target: Pos, occ: Option<Color>)
  {
    ep == Some(t) || Captures(pos, color, t, target, occ)
  }

  /** The scan answers the first matching entry, and says which kind of match
      it was; it answers nothing exactly when no entry matches. */
  lemma {:induction false} EatScanExact(pos: Pos, color: Color, ts: seq<Vec>, ep: Option<Vec>,
                                        target: Pos, occ: Option<Color>, j: nat)
    requires j <= |ts|
    decreases |ts| - j
    ensures var r := EatScan(pos, color, ts, ep, target, occ, j);
      && (r.None? <==> forall l :: j <= l < |ts| ==> !Matches(pos, color, ts[l], ep, target, occ))
      && (r.Some? ==> Matches(pos, color, ts[r.value.index], ep, target, occ))
      && (r.Some? ==> (r.value.enPassant <==> ep == Some(ts[r.value.index])))
      && (r.Some? ==> forall l :: j <= l < r.value.index ==> !Matches(pos, color, ts[l], ep, target, occ))
  {
    if j < |ts| && !Matches(pos, color, ts[j], ep, target, occ) {
      EatScanExact(pos, color, ts, ep, target, occ, j + 1);
    }
  }

  /** The answer of `valid_eat?` (a table entry, or `None` for `false`)
      together with the piece as the call leaves it. */
  datatype EatResult = EatResult(found: Option<TransRef>, piece: Piece)

  /** `Pawn#valid_eat?`. */
  function PawnValidEat(p: Piece, target: Pos, occ: Option<Color>): (r: EatResult)
  {
    var p1 := p.(ateEp := false);
    match EatScan(p.pos, p.color, p.eatTrans, CheckEnPassant(p1), target, occ, 0)
    case Some(h) =>
      if h.enPassant then EatResult(Some(EatRef(h.index)), p1.(ateEp := true))
      else EatResult(Some(EatRef(h.index)), p1)
    case None =>
      var p2 := p1.(epLeft := false, epRight := false);
      var res := ValidMove(p2, target);
      if res.Some? then EatResult(Some(MoveRef(res.value)), p2.(maxMult := 1))
      else EatResult(None, p2)
  }

  /** `valid_eat?`: the default delegates to `valid_move?` and changes nothing;
      pawns override it. */
  function ValidEat(p: Piece, target: Pos, occ: Option<Color>): (r: EatResult)
    ensures r.found.Some? ==> ValidRef(r.piece, r.found.value)
    ensures r.piece.kind == p.kind && r.piece.color == p.color && r.piece.pos == p.pos
    ensures r.piece.hasMoved == p.hasMoved && r.piece.trans == p.trans && r.piece.eatTrans == p.eatTrans
  {
    if p.kind == Pawn then PawnValidEat(p, target, occ)
    else
      var m := ValidMove(p, target);
      EatResult(if m.Some? then Some(MoveRef(m.value)) else None, p)
  }

  // ---------------------------------------------------------------------------
  // Translation tables

  predicate IsUnitStep(v: Vec)
  {
    v != Pos(0, 0) && -1 <= v.row <= 1 && -1 <= v.col <= 1
  }

  predicate IsOrthogonalStep(v: Vec)
  {
    IsUnitStep(v) && (v.row == 0 || v.col == 0)
  }

  predicate IsDiagonalStep(v: Vec)
  {
    IsUnitStep(v) && v.row != 0 && v.col != 0
  }

  predicate IsKnightJump(v: Vec)
  {
    (v.row == 1 || v.row == -1 || v.row == 2 || v.row == -2)
    && (v.col == 1 || v.col == -1 || v.col == 2 || v.col == -2)
    && (v.row == 2 || v.row == -2) != (v.col == 2 || v.col == -2)
  }

  /** King and Queen move along the eight unit directions, Rook along the four
      orthogonal ones, Bishop along the four diagonals, Knight along the eight
      L-jumps; King and Knight take one step, Pawn two at first, the others
      up to the base limit of eight. */
  lemma TranslationTables(kind: Kind, color: Color)
    ensures kind == King || kind == Queen ==> forall v :: v in Translations(kind, color) <==> IsUnitStep(v)
    ensures kind == Rook ==> forall v :: v in Translations(kind, color) <==> IsOrthogonalStep(v)
    ensures kind == Bishop ==> forall v :: v in Translations(kind, color) <==> IsDiagonalStep(v)
    ensures kind == Knight ==> forall v :: v in Translations(kind, color) <==> IsKnightJump(v)
    ensures kind != Pawn ==> |Translations(kind, color)| == (if kind == Rook || kind == Bishop then 4 else 8)
    ensures Multiplier(kind) == (if kind == King || kind == Knight then 1 else if kind == Pawn then 2 else 8)
    ensures kind != Pawn ==> EatTranslations(kind, color) == []
  {
  }

  /** A white pawn advances by (1,0) and captures on (1,1) and (1,-1); a black
      pawn advances by (-1,0) and captures on (-1,1) and (-1,-1). */
  lemma PawnTables(color: Color, pos: Pos)
    ensures NewPiece(Pawn, color, pos).trans == [Pos(if color == White then 1 else -1, 0)]
    ensures NewPiece(Pawn, color, pos).eatTrans ==
      (if color == White then [Pos(1, 1), Pos(1, -1)] else [Pos(-1, 1), Pos(-1, -1)])
    ensures NewPiece(Pawn, color, pos).maxMult == 2
  {
  }

  // ---------------------------------------------------------------------------
  // Reachability

  /** Because the multiplier 0 is tried, asking a piece about its own square
      answers with its first translation. */
  lemma ValidMoveOwnSquare(p: Piece)
    requires |p.trans| > 0 && p.maxMult >= 0
    ensures ValidMove(p, p.pos) == Some(0)
  {
    assert Step(p.pos, p.trans[0], 0) == p.pos;
  }

  /** `valid_move?` never answers with a translation that would need more
      than `@max_multiplier` steps, and answers whenever one fits. */
  lemma ValidMoveSpec(p: Piece, target: Pos)
    ensures ValidMove(p, target).Some? <==>
      exists j, i :: 0 <= j < |p.trans| && 0 <= i <= p.maxMult && Step(p.pos, p.trans[j], i) == target
  {
    if ValidMove(p, target).None? {
      forall j, i | 0 <= j < |p.trans| && 0 <= i <= p.maxMult
        ensures Step(p.pos, p.trans[j], i) != target
      {
        assert !Hits(p.pos, p.trans[j], p.maxMult, target);
      }
    }
  }

  /** For every kind except Pawn, `valid_eat?` ignores the occupant, answers
      exactly as `valid_move?` does and leaves the piece unchanged. */
  lemma ValidEatOfNonPawn(p: Piece, target: Pos, occ: Option<Color>)
    requires p.kind != Pawn
    ensures ValidEat(p, target, occ).piece == p
    ensures ValidEat(p, target, occ).found.Some? <==> ValidMove(p, target).Some?
    ensures ValidMove(p, target).Some? ==> ValidEat(p, target, occ).found == Some(MoveRef(ValidMove(p, target).value))
  {
  }

  /** The en-passant branch of `Pawn#valid_eat?` answers without looking at
      the target: when the flags point to the first capture diagonal, every
      question gets that diagonal and sets `ate_en_passant`. */
  lemma EnPassantIgnoresTarget(p: Piece, target: Pos, occ: Option<Color>)
    requires p.kind == Pawn && |p.eatTrans| > 0 && CheckEnPassant(p) == Some(p.eatTrans[0])
    ensures ValidEat(p, target, occ) == EatResult(Some(EatRef(0)), p.(ateEp := true))
  {
  }

  /** Whenever the flags point to a capture diagonal still in the table, the
      pawn answers with some translation, whatever the target. */
  lemma FiringAlwaysAnswers(p: Piece, target: Pos, occ: Option<Color>)
    requires Firing(p).Some?
    ensures ValidEat(p, target, occ).found.Some?
    ensures ValidEat(p, target, occ).piece.epRight == p.epRight
    ensures ValidEat(p, target, occ).piece.epLeft == p.epLeft
  {
    var v := Firing(p).value;
    var l :| 0 <= l < |p.eatTrans| && p.eatTrans[l] == v;
    assert CheckEnPassant(p.(ateEp := false)) == Some(p.eatTrans[l]);
  }

  /** A pawn's answer that is neither the en-passant diagonal nor a forward
      move is a diagonal capture: the target square holds a piece of the
      other colour exactly one diagonal step away. */
  lemma PawnCaptureSound(p: Piece, target: Pos, occ: Option<Color>)
    requires p.kind == Pawn
    requires ValidEat(p, target, occ).found.Some? && ValidEat(p, target, occ).found.value.EatRef?
    requires !ValidEat(p, target, occ).piece.ateEp
    ensures occ.Some? && occ.value != p.color
    ensures Add(p.pos, p.eatTrans[ValidEat(p, target, occ).found.value.index]) == target
  {
  }

  /** Completeness of the diagonal capture: a pawn whose flags are not live
      answers an enemy piece on one of its capture diagonals, with the first
      entry that captures, and changes nothing but its "ate en passant" flag. */
  lemma PawnCaptureComplete(p: Piece, target: Pos, occ: Option<Color>, l: nat)
    requires p.kind == Pawn && Firing(p).None?
    requires l < |p.eatTrans| && Captures(p.pos, p.color, p.eatTrans[l], target, occ)
    ensures var r := ValidEat(p, target, occ);
      && r.found.Some? && r.found.value.EatRef? && r.found.value.index <= l
      && Captures(p.pos, p.color, p.eatTrans[r.found.value.index], target, occ)
      && (forall i :: 0 <= i < r.found.value.index ==> !Captures(p.pos, p.color, p.eatTrans[i], target, occ))
      && r.piece == p.(ateEp := false)
  {
    var ep := CheckEnPassant(p.(ateEp := false));
    assert ep == CheckEnPassant(p);
    EatScanExact(p.pos, p.color, p.eatTrans, ep, target, occ, 0);
    forall i | 0 <= i < |p.eatTrans|
      ensures ep != Some(p.eatTrans[i])
    {
    }
  }

  /** A forward answer narrows the step limit: a pawn without live flags
      that reaches a square two steps ahead, with nothing to capture there,
      refuses the same question once asked. */
  lemma PawnAnswerNarrows(p: Piece, occ: Option<Color>)
    requires p.kind == Pawn && p.maxMult == 2 && p.trans == [Pos(Forward(p.color), 0)]
    requires !p.epLeft && !p.epRight
    requires EatScan(p.pos, p.color, p.eatTrans, None, Step(p.pos, p.trans[0], 2), occ, 0).None?
    ensures var target := Step(p.pos, p.trans[0], 2);
      var r := ValidEat(p, target, occ);
      && r.found == Some(MoveRef(0))
      && r.piece.maxMult == 1
      && ValidEat(r.piece, target, occ).found.None?
  {
    var target := Step(p.pos, p.trans[0], 2);
    var t := p.trans[0];
    assert CheckEnPassant(p.(ateEp := false)).None?;
    var p2 := p.(ateEp := false, epLeft := false, epRight := false);
    assert Hits(p2.pos, t, 2, target);
    var q := p2.(maxMult := 1);
    assert ValidEat(p, target, occ) == EatResult(Some(MoveRef(0)), q);
    assert CheckEnPassant(q.(ateEp := false)).None?;
    assert !Hits(q.pos, t, 1, target) by {
      forall i | 0 <= i <= 1
        ensures Step(q.pos, t, i) != target
      {
        assert Scale(t, i) == Pos(Forward(p.color) * i, 0);
        assert Forward(p.color) * i != Forward(p.color) * 2 by {
          assert Forward(p.color) == 1 || Forward(p.color) == -1;
        }
      }
    }
    assert FirstReach(q.pos, q.trans, 1, target, 0).None?;
  }

  /** When a pawn falls back to a forward move, both en-passant flags are
      cleared, and a successful forward answer narrows `@max_multiplier` to 1
      for good. */
  lemma PawnFallback(p: Piece, target: Pos, occ: Option<Color>)
    requires p.kind == Pawn
    requires ValidEat(p, target, occ).found.None? || ValidEat(p, target, occ).found.value.MoveRef?
    ensures !ValidEat(p, target, occ).piece.epRight && !ValidEat(p, target, occ).piece.epLeft
    ensures !ValidEat(p, target, occ).piece.ateEp
    ensures ValidEat(p, target, occ).found.Some? ==> ValidEat(p, target, occ).piece.maxMult == 1
    ensures ValidEat(p, target, occ).found.Some? <==> ValidMove(p, target).Some?
    ensures ValidEat(p, target, occ).found.None? ==> ValidEat(p, target, occ).piece.maxMult == p.maxMult
  {
  }

  // ---------------------------------------------------------------------------
  // How queries change a piece

  /** What a query can do to a piece: nothing, except that a pawn may lose
      both en-passant flags (only when they no longer fire), may narrow its
      step limit to 1, and may flip `ate_en_passant`. */
  predicate PieceEvolved(p: Piece, q: Piece)
  {
    && q.kind == p.kind && q.color == p.color && q.pos == p.pos && q.hasMoved == p.hasMoved
    && q.trans == p.trans && q.eatTrans == p.eatTrans
    && Firing(q) == Firing(p)
    && ((q.epRight == p.epRight && q.epLeft == p.epLeft) || (!q.epRight && !q.epLeft))
    && (q.maxMult == p.maxMult || q.maxMult == 1)
    && (p.kind != Pawn ==> q == p)
  }

  lemma PieceEvolvedTrans(p: Piece, q: Piece, r: Piece)
    requires PieceEvolved(p, q) && PieceEvolved(q, r)
    ensures PieceEvolved(p, r)
  {
  }

  /** `valid_eat?` changes its receiver only in the ways `PieceEvolved` allows. */
  lemma ValidEatEvolves(p: Piece, target: Pos, occ: Option<Color>)
    ensures PieceEvolved(p, ValidEat(p, target, occ).piece)
  {
    if p.kind == Pawn {
      var p1 := p.(ateEp := false);
      var h := EatScan(p.pos, p.color, p.eatTrans, CheckEnPassant(p1), target, occ, 0);
      if h.None? && Firing(p).Some? {
        FiringAlwaysAnswers(p, target, occ);
      }
    }
  }

  /** The step limits that actually occur: between 1 and the base limit; a pawn
      has a single forward translation. */
  predicate PieceWf(p: Piece)
  {
    1 <= p.maxMult <= BaseMultiplier && (p.kind == Pawn ==> |p.trans| == 1)
  }

  lemma NewPieceWf(kind: Kind, color: Color, pos: Pos)
    ensures PieceWf(NewPiece(kind, color, pos))
  {
  }

  /** Dead flags (pointing to a diagonal no longer in the table) play no part
      in the capture loop. */
  lemma {:induction false} DeadFlagsIgnored(pos: Pos, color: Color, ts: seq<Vec>, ep: Option<Vec>,
                                            target: Pos, occ: Option<Color>, j: nat)
    requires j <= |ts|
    requires ep.Some? ==> ep.value !in ts
    ensures EatScan(pos, color, ts, ep, target, occ, j) == EatScan(pos, color, ts, None, target, occ, j)
    decreases |ts| - j
  {
    if j < |ts| {
      assert ep != Some(ts[j]);
      DeadFlagsIgnored(pos, color, ts, ep, target, occ, j + 1);
    }
  }

  /** The answer a piece gives lies on a ray that reaches the target within
      eight steps, provided its live en-passant diagonal (the one answer that
      ignores the target) does. */
  lemma ValidEatReaches(p: Piece, target: Pos, occ: Option<Color>)
    requires PieceWf(p)
    requires Firing(p).Some? ==> Reach(p.pos, target, Firing(p).value).Some?
    requires ValidEat(p, target, occ).found.Some?
    ensures Reach(p.pos, target, Vector(ValidEat(p, target, occ).piece, ValidEat(p, target, occ).found.value)).Some?
  {
    var r := ValidEat(p, target, occ);
    var t := Vector(r.piece, r.found.value);
    match r.found.value
    case MoveRef(j) =>
      if p.kind == Pawn {
        PawnFallback(p, target, occ);
      }
      assert Hits(p.pos, p.trans[j], p.maxMult, target);
      var i :| 0 <= i <= p.maxMult && Step(p.pos, p.trans[j], i) == target;
      ReachFromHit(p.pos, target, t, i);
    case EatRef(j) =>
      if r.piece.ateEp {
        assert CheckEnPassant(p.(ateEp := false)) == Some(t);
        assert Firing(p) == Some(t);
      } else {
        PawnCaptureSound(p, target, occ);
        assert Step(p.pos, t, 1) == target;
        ReachFromHit(p.pos, target, t, 1);
      }
  }

  /** The capture loop gives the same answer before and after queries. */
  lemma EatScanStable(p: Piece, q: Piece, target: Pos, occ: Option<Color>)
    requires p.kind == Pawn && PieceEvolved(p, q)
    ensures EatScan(p.pos, p.color, p.eatTrans, CheckEnPassant(p.(ateEp := false)), target, occ, 0)
         == EatScan(q.pos, q.color, q.eatTrans, CheckEnPassant(q.(ateEp := false)), target, occ, 0)
  {
    var epP := CheckEnPassant(p.(ateEp := false));
    var epQ := CheckEnPassant(q.(ateEp := false));
    if Firing(p).Some? {
      assert epP == epQ;
    } else {
      DeadFlagsIgnored(p.pos, p.color, p.eatTrans, epP, target, occ, 0);
      DeadFlagsIgnored(q.pos, q.color, q.eatTrans, epQ, target, occ, 0);
    }
  }

  /** A narrower step limit only loses forward answers. */
  lemma PawnForwardMonotone(p: Piece, q: Piece, target: Pos)
    requires p.kind == Pawn && PieceWf(p) && PieceEvolved(p, q)
    requires ValidMove(q, target).Some?
    ensures ValidMove(p, target) == Some(0) && ValidMove(q, target) == Some(0)
  {
    assert Hits(q.pos, q.trans[0], q.maxMult, target);
    var i :| 0 <= i <= q.maxMult && Step(q.pos, q.trans[0], i) == target;
    assert Hits(p.pos, p.trans[0], p.maxMult, target);
  }

  /** Queries only take answers away: a piece that answers after some queries
      answered the same translation before them. */
  lemma ValidEatMonotone(p: Piece, q: Piece, target: Pos, occ: Option<Color>)
    requires PieceWf(p) && PieceEvolved(p, q)
    requires ValidEat(q, target, occ).found.Some?
    ensures ValidEat(p, target, occ).found.Some?
    ensures Vector(ValidEat(p, target, occ).piece, ValidEat(p, target, occ).found.value)
         == Vector(ValidEat(q, target, occ).piece, ValidEat(q, target, occ).found.value)
  {
    if p.kind == Pawn {
      EatScanStable(p, q, target, occ);
      if EatScan(p.pos, p.color, p.eatTrans, CheckEnPassant(p.(ateEp := false)), target, occ, 0).None? {
        FallbackMonotone(p, q, target, occ);
      }
    }
  }

  /** The forward fallback of two pawns, one evolved from the other. */
  lemma FallbackMonotone(p: Piece, q: Piece, target: Pos, occ: Option<Color>)
    requires p.kind == Pawn && PieceWf(p) && PieceEvolved(p, q)
    requires EatScan(p.pos, p.color, p.eatTrans, CheckEnPassant(p.(ateEp := false)), target, occ, 0).None?
    requires EatScan(q.pos, q.color, q.eatTrans, CheckEnPassant(q.(ateEp := false)), target, occ, 0).None?
    requires ValidEat(q, target, occ).found.Some?
    ensures ValidEat(p, target, occ).found == Some(MoveRef(0)) == ValidEat(q, target, occ).found
  {
    var p2 := p.(ateEp := false, epLeft := false, epRight := false);
    var q2 := q.(ateEp := false, epLeft := false, epRight := false);
    assert ValidEat(q, target, occ).found == Some(MoveRef(ValidMove(q2, target).value));
    PawnForwardMonotone(p2, q2, target);
  }
}
