/** Check and mate analysis on the board: `check?`, `can_block?` and
    `checkmate?`. Like `has_check?`, each of them asks pieces through
    `valid_eat?` and so returns the board it leaves behind. */
module Analysis {
  import opened Geometry
  import opened Pieces
  import opened ChessBoard

  // ---------------------------------------------------------------------------
  // Locating the king

  /** The test `check?` and `checkmate?` apply to each cell: a King whose
      stored position holds a piece of `player`. */
  predicate IsKingOf(b: Board, k: nat, player: Color)
    requires Wf(b) && k < Cells
  {
    b[k].Occupied? && b[k].piece.kind == King && ColorAt(b, b[k].piece.pos) == Some(player)
  }

  /** The first cell, in scanning order from `k`, that passes `IsKingOf`. */
  function FirstKing(b: Board, player: Color, k: nat): (r: Option<nat>)
    requires Wf(b) && k <= Cells
    decreases Cells - k
    ensures r.Some? ==> k <= r.value < Cells && IsKingOf(b, r.value, player)
    ensures r.Some? ==> forall j :: k <= j < r.value ==> !IsKingOf(b, j, player)
    ensures r.None? <==> forall j :: k <= j < Cells ==> !IsKingOf(b, j, player)
  {
    if k == Cells then None
    else if IsKingOf(b, k, player) then Some(k)
    else FirstKing(b, player, k + 1)
  }

  /** Queries do not move kings. */
  lemma FirstKingEvolved(b: Board, b': Board, player: Color, k: nat)
    requires Wf(b) && Evolved(b, b') && k <= Cells
    ensures Wf(b')
    ensures FirstKing(b', player, k) == FirstKing(b, player, k)
    ensures FirstKing(b, player, k).Some? ==> b'[FirstKing(b, player, k).value].piece == b[FirstKing(b, player, k).value].piece
  {
    EvolvedWf(b, b');
    forall j | k <= j < Cells
      ensures IsKingOf(b', j, player) == IsKingOf(b, j, player)
    {
      IsKingOfEvolved(b, b', player, j);
    }
    FirstKingSame(b, b', player, k);
    if FirstKing(b, player, k).Some? {
      IsKingOfEvolved(b, b', player, FirstKing(b, player, k).value);
    }
  }

  /** `FirstKing` only looks at `IsKingOf`: its contract pins its result down. */
  lemma FirstKingSame(b: Board, b': Board, player: Color, k: nat)
    requires Wf(b) && Wf(b') && k <= Cells
    requires forall j :: k <= j < Cells ==> IsKingOf(b', j, player) == IsKingOf(b, j, player)
    ensures FirstKing(b', player, k) == FirstKing(b, player, k)
  {
    var r := FirstKing(b, player, k);
    var r' := FirstKing(b', player, k);
    if r.Some? && r'.Some? {
      assert !(r.value < r'.value) && !(r'.value < r.value);
    }
  }

  lemma IsKingOfEvolved(b: Board, b': Board, player: Color, k: nat)
    requires Wf(b) && Evolved(b, b') && k < Cells
    ensures Wf(b') && IsKingOf(b', k, player) == IsKingOf(b, k, player)
    ensures IsKingOf(b, k, player) ==> b'[k].piece == b[k].piece
  {
    EvolvedFacts(b, b');
    if b[k].Occupied? {
      assert InBounds(b[k].piece.pos);
      assert ColorAt(b', b[k].piece.pos) == ColorAt(b, b[k].piece.pos);
    }
  }

  /** The stored position of the king `check?` and `checkmate?` use. */
  function KingSquare(b: Board, player: Color): (r: Option<Pos>)
    requires Wf(b)
    ensures r.Some? ==> InBounds(r.value)
  {
    match FirstKing(b, player, 0)
    case None => None
    case Some(k) => Some(b[k].piece.pos)
  }

  // ---------------------------------------------------------------------------
  // check?

  predicate CheckReady(b: Board, player: Color)
  {
    Wf(b) && (KingSquare(b, player).Some? ==> Aimed(b, KingSquare(b, player).value, player, true))
  }

  /** `check?(player)`: `has_check?` on the stored position of the first king
      of `player`, `None` (false) when there is no such king. */
  function Check(b: Board, player: Color): (r: (Option<seq<Pos>>, Board))
    requires CheckReady(b, player)
    ensures Evolved(b, r.1) && Wf(r.1)
    ensures KingSquare(b, player).None? ==> r.0.None?
    ensures KingSquare(b, player).Some? ==> r.0 == FirstAttack(b, KingSquare(b, player).value, player, 0)
  {
    match KingSquare(b, player)
    case None => EvolvedRefl(b); (None, b)
    case Some(kp) => HasCheck(b, kp, player)
  }

  /** `check?` is not idempotent in general (a pawn's forward answer narrows
      its step limit), but an absence of check survives any queries: asking
      again after queries still finds none. */
  lemma NoCheckIsStable(b: Board, b': Board, player: Color)
    requires CheckReady(b, player) && Evolved(b, b')
    requires Check(b, player).0.None?
    ensures CheckReady(b', player)
    ensures Check(b', player).0.None?
  {
    FirstKingEvolved(b, b', player, 0);
    AimedEvolved(b, b', player, true);
    if KingSquare(b, player).Some? {
      NoAttackIsStable(b, b', KingSquare(b, player).value, player);
    }
  }

  /** In particular, two calls of `check?` in a row agree when the first finds
      no check. */
  lemma CheckTwiceWithoutCheck(b: Board, player: Color)
    requires CheckReady(b, player) && Check(b, player).0.None?
    ensures CheckReady(Check(b, player).1, player)
    ensures Check(Check(b, player).1, player).0.None?
  {
    NoCheckIsStable(b, Check(b, player).1, player);
  }

  // ---------------------------------------------------------------------------
  // checkmate?

  /** The square the king's `j`-th translation leads to, when `checkmate?`
      asks about it: on the board and reachable by `valid_move?`. */
  predicate Escape(king: Piece, j: nat)
    requires j < |king.trans|
  {
    InBounds(Add(king.pos, king.trans[j])) && ValidMove(king, Add(king.pos, king.trans[j])).Some?
  }

  predicate EscapesAimed(b: Board, king: Piece, player: Color, j: nat)
    requires Wf(b) && j <= |king.trans|
  {
    forall l :: j <= l < |king.trans| && Escape(king, l) ==> Aimed(b, Add(king.pos, king.trans[l]), player, true)
  }

  /** The `none?` block of `checkmate?` from the `j`-th translation on: `true`
      unless some escape square is attacked, asked in turn. */
  function NoneAttacked(b: Board, king: Piece, player: Color, j: nat): (r: (bool, Board))
    requires Wf(b) && j <= |king.trans| && EscapesAimed(b, king, player, j)
    decreases |king.trans| - j
    ensures Evolved(b, r.1) && Wf(r.1)
  {
    if j == |king.trans| then EvolvedRefl(b); (true, b)
    else if !Escape(king, j) then NoneAttacked(b, king, player, j + 1)
    else
      var sq := Add(king.pos, king.trans[j]);
      var (hc, b1) := HasCheck(b, sq, player);
      if hc.Some? then (false, b1)
      else
        AimedEvolved(b, b1, player, true);
        var r := NoneAttacked(b1, king, player, j + 1);
        EvolvedTrans(b, b1, r.1);
        r
  }

  predicate CheckmateReady(b: Board, player: Color)
  {
    Wf(b) && (FirstKing(b, player, 0).Some? ==> EscapesAimed(b, b[FirstKing(b, player, 0).value].piece, player, 0))
  }

  /** `checkmate?(player)`: the `none?` over the first king's translations;
      with no king of `player` the source returns the board itself, which is
      truthy. */
  function Checkmate(b: Board, player: Color): (r: (bool, Board))
    requires CheckmateReady(b, player)
    ensures Evolved(b, r.1) && Wf(r.1)
    ensures FirstKing(b, player, 0).None? ==> r.0
  {
    match FirstKing(b, player, 0)
    case None => EvolvedRefl(b); (true, b)
    case Some(k) => NoneAttacked(b, b[k].piece, player, 0)
  }

  /** An escape square of the king that is attacked on the board `b0`. */
  predicate AttackedEscape(b0: Board, king: Piece, player: Color, l: nat)
    requires Wf(b0) && l < |king.trans|
  {
    Escape(king, l)
    && Aimed(b0, Add(king.pos, king.trans[l]), player, true)
    && FirstAttack(b0, Add(king.pos, king.trans[l]), player, 0).Some?
  }

  lemma {:induction false} NoneAttackedSound(b0: Board, b: Board, king: Piece, player: Color, j: nat)
    requires Wf(b0) && Evolved(b0, b) && j <= |king.trans|
    requires EscapesAimed(b0, king, player, j)
    requires Wf(b) && EscapesAimed(b, king, player, j)
    requires !NoneAttacked(b, king, player, j).0
    ensures exists l :: j <= l < |king.trans| && AttackedEscape(b0, king, player, l)
    decreases |king.trans| - j
  {
    if !Escape(king, j) {
      NoneAttackedSound(b0, b, king, player, j + 1);
    } else {
      var sq := Add(king.pos, king.trans[j]);
      var (hc, b1) := HasCheck(b, sq, player);
      if hc.Some? {
        FirstAttackMonotone(b0, b, sq, player, 0);
        assert AttackedEscape(b0, king, player, j);
      } else {
        AimedEvolved(b, b1, player, true);
        EvolvedTrans(b0, b, b1);
        NoneAttackedSound(b0, b1, king, player, j + 1);
      }
    }
  }

  /** `checkmate?` answers false only when some escape square of the king,
      on the board and reachable, is attacked; so when no such square is
      attacked it answers true. */
  lemma CheckmateUnlessEscapeAttacked(b: Board, player: Color)
    requires CheckmateReady(b, player)
    ensures !Checkmate(b, player).0 ==>
      && FirstKing(b, player, 0).Some?
      && var king := b[FirstKing(b, player, 0).value].piece;
         exists l :: 0 <= l < |king.trans| && AttackedEscape(b, king, player, l)
  {
    if !Checkmate(b, player).0 {
      var king := b[FirstKing(b, player, 0).value].piece;
      EvolvedRefl(b);
      NoneAttackedSound(b, b, king, player, 0);
    }
  }

  /** The first escape square asked about is asked on the board as given: if
      it is attacked there, `checkmate?` answers false. */
  lemma {:induction false} FirstEscapeAttacked(b: Board, king: Piece, player: Color, j: nat)
    requires Wf(b) && j < |king.trans| && EscapesAimed(b, king, player, j)
    requires AttackedEscape(b, king, player, j)
    ensures !NoneAttacked(b, king, player, j).0
  {
    var sq := Add(king.pos, king.trans[j]);
    assert HasCheck(b, sq, player).0.Some?;
  }

  /** Translations that lead to no escape square are skipped without asking. */
  lemma {:induction false} NoneAttackedSkips(b: Board, king: Piece, player: Color, j: nat, l: nat)
    requires Wf(b) && j <= l < |king.trans| && EscapesAimed(b, king, player, j)
    requires forall i :: j <= i < l ==> !Escape(king, i)
    ensures NoneAttacked(b, king, player, j) == NoneAttacked(b, king, player, l)
    decreases l - j
  {
    if j < l {
      NoneAttackedSkips(b, king, player, j + 1, l);
    }
  }

  /** The admitted completeness of `checkmate?`: when the first escape square
      of the player's king is attacked, the answer is false. */
  lemma CheckmateFirstEscape(b: Board, player: Color, l: nat)
    requires CheckmateReady(b, player) && FirstKing(b, player, 0).Some?
    requires var king := b[FirstKing(b, player, 0).value].piece;
      && l < |king.trans| && (forall i :: 0 <= i < l ==> !Escape(king, i))
      && AttackedEscape(b, king, player, l)
    ensures !Checkmate(b, player).0
  {
    var king := b[FirstKing(b, player, 0).value].piece;
    NoneAttackedSkips(b, king, player, 0, l);
    FirstEscapeAttacked(b, king, player, l);
  }

  // ---------------------------------------------------------------------------
  // can_block?

  /** `can_block?` asks the pieces of `player`, by the colour found at their
      stored position. */
  predicate Owns(b: Board, k: nat, player: Color)
    requires Wf(b) && k < Cells
  {
    b[k].Occupied? && ColorAt(b, b[k].piece.pos) == Some(player)
  }

  lemma OwnsEvolved(b: Board, b': Board, k: nat, player: Color)
    requires Wf(b) && Evolved(b, b') && k < Cells
    ensures Wf(b') && Owns(b', k, player) == Owns(b, k, player)
  {
    EvolvedFacts(b, b');
    if b[k].Occupied? {
      assert b'[k].piece.pos == b[k].piece.pos;
    }
  }

  /** Whether the piece in cell `k`, asked as it stands in `b`, is one of
      `player`'s (by the colour at its stored position) and can move onto
      `pos` along a free path. */
  predicate Blocks(b: Board, k: nat, pos: Pos, player: Color)
    requires Wf(b) && InBounds(pos) && Aimed(b, pos, player, false) && k < Cells
  {
    && Owns(b, k, player)
    && var p := b[k].piece;
       var er := ValidEat(p, pos, ColorAt(b, pos));
       && er.found.Some?
       && (AskReaches(b, k, pos, player);
           !FreePath(b, p.pos, pos, Vector(er.piece, er.found.value)).Blocked?)
  }

  /** A piece of `player` that answers has `pos` on the ray of its answer. */
  lemma AskReaches(b: Board, k: nat, pos: Pos, player: Color)
    requires Wf(b) && InBounds(pos) && Aimed(b, pos, player, false) && k < Cells
    requires Owns(b, k, player)
    requires ValidEat(b[k].piece, pos, ColorAt(b, pos)).found.Some?
    ensures InBounds(b[k].piece.pos)
    ensures var er := ValidEat(b[k].piece, pos, ColorAt(b, pos));
      Reach(b[k].piece.pos, pos, Vector(er.piece, er.found.value)).Some?
  {
    var p := b[k].piece;
    if Firing(p).Some? && p.pos == pos {
      ReachFromHit(p.pos, pos, Firing(p).value, 0);
    }
    ValidEatReaches(p, pos, ColorAt(b, pos));
  }

  /** A piece that is a non-pawn, or that has not been asked, answers the
      same on any evolved board. */
  lemma BlocksFrame(b: Board, b': Board, k: nat, pos: Pos, player: Color)
    requires Wf(b) && Evolved(b, b') && InBounds(pos) && k < Cells
    requires Aimed(b, pos, player, false) && Wf(b') && Aimed(b', pos, player, false)
    requires b[k].Occupied? && (b[k].piece.kind != Pawn || b'[k] == b[k])
    ensures Blocks(b', k, pos, player) == Blocks(b, k, pos, player)
  {
    EvolvedFacts(b, b');
    var p := b[k].piece;
    assert b'[k].piece == p;
    assert ColorAt(b', p.pos) == ColorAt(b, p.pos);
    var occ := ColorAt(b, pos);
    assert ColorAt(b', pos) == occ;
    var er := ValidEat(p, pos, occ);
    if er.found.Some? && ColorAt(b, p.pos) == Some(player) {
      AskReaches(b, k, pos, player);
      var t := Vector(er.piece, er.found.value);
      FreePathOccupancy(b, b', p.pos, pos, t);
      assert Blocks(b, k, pos, player) == !FreePath(b, p.pos, pos, t).Blocked?;
      assert Blocks(b', k, pos, player) == !FreePath(b', p.pos, pos, t).Blocked?;
    }
  }

  /** A piece that still answers for `pos` after queries answered for it
      before them too: queries only narrow a pawn's answers. */
  lemma BlocksMonotone(b: Board, b': Board, k: nat, pos: Pos, player: Color)
    requires Wf(b) && Evolved(b, b') && InBounds(pos) && k < Cells
    requires Aimed(b, pos, player, false) && Wf(b') && Aimed(b', pos, player, false)
    requires Blocks(b', k, pos, player)
    ensures Blocks(b, k, pos, player)
  {
    EvolvedFacts(b, b');
    var p := b[k].piece;
    var p' := b'[k].piece;
    assert PieceEvolved(p, p');
    OwnsEvolved(b, b', k, player);
    var occ := ColorAt(b, pos);
    assert ColorAt(b', pos) == occ;
    ValidEatMonotone(p, p', pos, occ);
    AskReaches(b, k, pos, player);
    AskReaches(b', k, pos, player);
    var er := ValidEat(p, pos, occ);
    FreePathOccupancy(b, b', p.pos, pos, Vector(er.piece, er.found.value));
  }

  /** The list a square maps to, `[]` when absent. */
  function Val(m: map<Pos, seq<Pos>>, s: Pos): seq<Pos>
  {
    if s in m then m[s] else []
  }

  /** `pieces[piece].push(pos)` on a hash with an empty-list default. */
  function Push(m: map<Pos, seq<Pos>>, s: Pos, q: Pos): (r: map<Pos, seq<Pos>>)
    ensures Val(r, s) == Val(m, s) + [q]
    ensures forall t :: t != s ==> Val(r, t) == Val(m, t)
    ensures r.Keys == m.Keys + {s}
  {
    m[s := Val(m, s) + [q]]
  }

  /** Every key was pushed to at least once. */
  predicate NoEmptyLists(m: map<Pos, seq<Pos>>)
  {
    forall s :: s in m ==> |m[s]| > 0
  }

  /** What one pass over the cells from `k` on may do to the lists `m` when
      collecting blockers of `pos`: add only squares on the board; leave the
      lists of cells before `k` alone; append at most `pos` to a later cell's
      list, and only when that cell holds one of `player`'s pieces; and append
      `pos` exactly when that piece `Blocks` it. Within one pass every cell is
      asked once, as it stood when the pass began, so this holds for pawns
      too. */
  ghost predicate Collected(b: Board, pos: Pos, player: Color, k: nat, m: map<Pos, seq<Pos>>, r: map<Pos, seq<Pos>>)
    requires Wf(b) && InBounds(pos) && Aimed(b, pos, player, false)
  {
    CollectedShape(b, pos, player, k, m, r) && CollectedExact(b, pos, player, k, m, r)
  }

  ghost predicate CollectedShape(b: Board, pos: Pos, player: Color, k: nat, m: map<Pos, seq<Pos>>, r: map<Pos, seq<Pos>>)
    requires Wf(b)
  {
    && (forall s :: s in r ==> s in m || InBounds(s))
    && (forall s :: !InBounds(s) ==> Val(r, s) == Val(m, s))
    && (forall s :: InBounds(s) && Idx(s) < k ==> Val(r, s) == Val(m, s))
    && (forall s :: InBounds(s) && k <= Idx(s) ==>
          || Val(r, s) == Val(m, s)
          || (Val(r, s) == Val(m, s) + [pos] && Owns(b, Idx(s), player)))
  }

  ghost predicate CollectedExact(b: Board, pos: Pos, player: Color, k: nat, m: map<Pos, seq<Pos>>, r: map<Pos, seq<Pos>>)
    requires Wf(b) && InBounds(pos) && Aimed(b, pos, player, false)
  {
    forall s :: InBounds(s) && k <= Idx(s) && b[Idx(s)].Occupied? ==>
      Val(r, s) == Val(m, s) + (if Blocks(b, Idx(s), pos, player) then [pos] else [])
  }

  /** The inner loops of `can_block?` for one path square `pos`, from cell
      `k` on: each of `player`'s pieces is asked, and those that can move
      onto `pos` along a free path get `pos` appended to their list. */
  function BlockersOf(b: Board, pos: Pos, player: Color, k: nat, m: map<Pos, seq<Pos>>)
    : (r: (map<Pos, seq<Pos>>, Board))
    requires Wf(b) && InBounds(pos) && Aimed(b, pos, player, false) && k <= Cells
    decreases Cells - k
    ensures Evolved(b, r.1) && Wf(r.1)
    ensures NoEmptyLists(m) ==> NoEmptyLists(r.0)
    ensures Collected(b, pos, player, k, m, r.0)
  {
    if k == Cells then EvolvedRefl(b); (m, b)
    else if !Owns(b, k, player) then
      var r := BlockersOf(b, pos, player, k + 1, m);
      BlockersOfSkip(b, pos, player, k, m, r.0);
      r
    else
      var p := b[k].piece;
      var er := ValidEat(p, pos, ColorAt(b, pos));
      var b1 := AskedCell(b, k, pos);
      AimedEvolved(b, b1, player, false);
      var hit := er.found.Some? &&
        (AskReaches(b, k, pos, player);
         !FreePath(b1, p.pos, pos, Vector(er.piece, er.found.value)).Blocked?);
      var m1 := if hit then Push(m, SquareOf(k), pos) else m;
      var r := BlockersOf(b1, pos, player, k + 1, m1);
      BlockersOfAsked(b, pos, player, k, m, b1, hit, m1, r.0);
      EvolvedTrans(b, b1, r.1);
      r
  }

  lemma BlockersOfSkip(b: Board, pos: Pos, player: Color, k: nat, m: map<Pos, seq<Pos>>, r: map<Pos, seq<Pos>>)
    requires Wf(b) && InBounds(pos) && Aimed(b, pos, player, false) && k < Cells
    requires !Owns(b, k, player)
    requires Collected(b, pos, player, k + 1, m, r)
    ensures Collected(b, pos, player, k, m, r)
  {
    assert !Blocks(b, k, pos, player);
    forall s | InBounds(s) && Idx(s) == k
      ensures Val(r, s) == Val(m, s)
    {
    }
  }

  lemma BlockersOfAsked(b: Board, pos: Pos, player: Color, k: nat, m: map<Pos, seq<Pos>>,
                        b1: Board, hit: bool, m1: map<Pos, seq<Pos>>, r: map<Pos, seq<Pos>>)
    requires Wf(b) && InBounds(pos) && Aimed(b, pos, player, false) && k < Cells
    requires Owns(b, k, player)
    requires b1 == AskedCell(b, k, pos) && Aimed(b1, pos, player, false)
    requires m1 == if hit then Push(m, SquareOf(k), pos) else m
    requires var er := ValidEat(b[k].piece, pos, ColorAt(b, pos));
      hit == (er.found.Some? &&
        (AskReaches(b, k, pos, player);
         !FreePath(b1, b[k].piece.pos, pos, Vector(er.piece, er.found.value)).Blocked?))
    requires Collected(b1, pos, player, k + 1, m1, r)
    ensures Collected(b, pos, player, k, m, r)
  {
    AskedShape(b, pos, player, k, m, b1, hit, m1, r);
    var p := b[k].piece;
    var er := ValidEat(p, pos, ColorAt(b, pos));
    if er.found.Some? {
      AskReaches(b, k, pos, player);
      EvolvedFacts(b, b1);
      FreePathOccupancy(b, b1, p.pos, pos, Vector(er.piece, er.found.value));
    }
    AskedExact(b, pos, player, k, m, b1, hit, m1, r);
  }

  lemma AskedShape(b: Board, pos: Pos, player: Color, k: nat, m: map<Pos, seq<Pos>>,
                   b1: Board, hit: bool, m1: map<Pos, seq<Pos>>, r: map<Pos, seq<Pos>>)
    requires Wf(b) && k < Cells && Owns(b, k, player)
    requires Evolved(b, b1) && forall j :: 0 <= j < Cells && j != k ==> b1[j] == b[j]
    requires m1 == if hit then Push(m, SquareOf(k), pos) else m
    requires Wf(b1) && CollectedShape(b1, pos, player, k + 1, m1, r)
    ensures CollectedShape(b, pos, player, k, m, r)
  {
    EvolvedFacts(b, b1);
    forall s | !InBounds(s) || Idx(s) != k
      ensures Val(m1, s) == Val(m, s)
    {
      assert s != SquareOf(k);
    }
    forall s | InBounds(s) && k < Idx(s)
      ensures Owns(b1, Idx(s), player) == Owns(b, Idx(s), player)
    {
      assert b1[Idx(s)] == b[Idx(s)];
    }
    forall s | InBounds(s) && Idx(s) == k
      ensures Val(r, s) == Val(m1, s) && s == SquareOf(k)
    {
      SquareOfIdx(s);
    }
  }

  lemma AskedExact(b: Board, pos: Pos, player: Color, k: nat, m: map<Pos, seq<Pos>>,
                   b1: Board, hit: bool, m1: map<Pos, seq<Pos>>, r: map<Pos, seq<Pos>>)
    requires Wf(b) && InBounds(pos) && Aimed(b, pos, player, false) && k < Cells
    requires Evolved(b, b1) && forall j :: 0 <= j < Cells && j != k ==> b1[j] == b[j]
    requires Wf(b1) && Aimed(b1, pos, player, false)
    requires m1 == if hit then Push(m, SquareOf(k), pos) else m
    requires b[k].Occupied? ==> hit == Blocks(b, k, pos, player)
    requires CollectedShape(b1, pos, player, k + 1, m1, r)
    requires CollectedExact(b1, pos, player, k + 1, m1, r)
    ensures CollectedExact(b, pos, player, k, m, r)
  {
    forall s | InBounds(s) && k <= Idx(s) && b[Idx(s)].Occupied?
      ensures Val(r, s) == Val(m, s) + (if Blocks(b, Idx(s), pos, player) then [pos] else [])
    {
      if Idx(s) == k {
        SquareOfIdx(s);
        assert Val(r, s) == Val(m1, s);
      } else {
        assert s != SquareOf(k);
        assert Val(m1, s) == Val(m, s);
        BlocksFrame(b, b1, Idx(s), pos, player);
      }
    }
  }

  /** Every square of `ps` from `i` on is on the board, and `player`'s firing
      pawns are aimed at it. */
  predicate PathAimed(b: Board, ps: seq<Pos>, player: Color, i: nat)
    requires Wf(b)
  {
    forall j :: i <= j < |ps| ==> InBounds(ps[j]) && Aimed(b, ps[j], player, false)
  }

  /** Reference for one piece: the squares of `qs`, in order, that the piece
      in cell `k` `Blocks`, each asked on `b` as it stands. */
  function BlockedBy(b: Board, k: nat, qs: seq<Pos>, player: Color): (r: seq<Pos>)
    requires Wf(b) && k < Cells && PathAimed(b, qs, player, 0)
    ensures forall q :: q in r ==> q in qs && Blocks(b, k, q, player)
    ensures forall j :: 0 <= j < |qs| && Blocks(b, k, qs[j], player) ==> qs[j] in r
  {
    if qs == [] then []
    else (if Blocks(b, k, qs[0], player) then [qs[0]] else []) + BlockedBy(b, k, qs[1..], player)
  }

  /** A non-pawn piece's reference list does not depend on queries. */
  lemma {:induction false} BlockedByFrame(b: Board, b': Board, k: nat, qs: seq<Pos>, player: Color)
    requires Wf(b) && Evolved(b, b') && k < Cells && PathAimed(b, qs, player, 0)
    requires b[k].Occupied? && b[k].piece.kind != Pawn
    ensures Wf(b') && PathAimed(b', qs, player, 0)
    ensures BlockedBy(b', k, qs, player) == BlockedBy(b, k, qs, player)
    decreases |qs|
  {
    AimedEvolved(b, b', player, false);
    if qs != [] {
      BlocksFrame(b, b', k, qs[0], player);
      BlockedByFrame(b, b', k, qs[1..], player);
    }
  }

  /** The outer loop of `can_block?`, from the `i`-th path square on. */
  function BlockPath(b: Board, ps: seq<Pos>, player: Color, i: nat, m: map<Pos, seq<Pos>>)
    : (r: (map<Pos, seq<Pos>>, Board))
    requires Wf(b) && i <= |ps| && PathAimed(b, ps, player, i)
    decreases |ps| - i
    ensures Evolved(b, r.1) && Wf(r.1)
    ensures NoEmptyLists(m) ==> NoEmptyLists(r.0)
    ensures forall s :: s in r.0 ==> s in m || InBounds(s)
    ensures forall s :: !InBounds(s) ==> Val(r.0, s) == Val(m, s)
    ensures forall s :: InBounds(s) ==> Val(m, s) <= Val(r.0, s)
    ensures forall s, q :: q in Val(r.0, s) ==> q in Val(m, s) || q in ps[i..]
    ensures forall s :: InBounds(s) && Val(r.0, s) != Val(m, s) ==>
      Owns(b, Idx(s), player)
    ensures forall s :: InBounds(s) && b[Idx(s)].Occupied? && b[Idx(s)].piece.kind != Pawn ==>
      (PathAimedSuffix(b, ps, player, i);
       Val(r.0, s) == Val(m, s) + BlockedBy(b, Idx(s), ps[i..], player))
  {
    PathAimedSuffix(b, ps, player, i);
    if i == |ps| then EvolvedRefl(b); (m, b)
    else
      var (m1, b1) := BlockersOf(b, ps[i], player, 0, m);
      AimedEvolved(b, b1, player, false);
      var r := BlockPath(b1, ps, player, i + 1, m1);
      BlockPathStep(b, ps, player, i, m, m1, b1, r.0);
      EvolvedTrans(b, b1, r.1);
      r
  }

  /** Every square the outer loop adds to a list, from the `i`-th path
      square on, is one the piece in that cell `Blocks` on `b`: a later
      pass asks pieces already asked, and asking only narrows a pawn's
      answers. */
  lemma {:induction false} BlockPathBlocks(b: Board, ps: seq<Pos>, player: Color, i: nat, m: map<Pos, seq<Pos>>)
    requires Wf(b) && i <= |ps| && PathAimed(b, ps, player, i)
    ensures forall s, j ::
      InBounds(s) && i <= j < |ps| && ps[j] in Val(BlockPath(b, ps, player, i, m).0, s) && ps[j] !in Val(m, s)
      ==> Blocks(b, Idx(s), ps[j], player)
    decreases |ps| - i
  {
    if i < |ps| {
      var inner := BlockersOf(b, ps[i], player, 0, m);
      AimedEvolved(b, inner.1, player, false);
      BlockPathBlocks(inner.1, ps, player, i + 1, inner.0);
      BlocksStep(b, ps, player, i, m, inner.0, inner.1, BlockPath(inner.1, ps, player, i + 1, inner.0).0);
    }
  }

  lemma BlocksStep(b: Board, ps: seq<Pos>, player: Color, i: nat, m: map<Pos, seq<Pos>>,
                   m1: map<Pos, seq<Pos>>, b1: Board, r: map<Pos, seq<Pos>>)
    requires Wf(b) && i < |ps| && PathAimed(b, ps, player, i)
    requires Evolved(b, b1) && Collected(b, ps[i], player, 0, m, m1)
    requires Wf(b1) && PathAimed(b1, ps, player, i + 1)
    requires forall s, q :: q in Val(r, s) ==> q in Val(m1, s) || q in ps[i + 1..]
    requires forall s, j ::
      InBounds(s) && i + 1 <= j < |ps| && ps[j] in Val(r, s) && ps[j] !in Val(m1, s)
      ==> Blocks(b1, Idx(s), ps[j], player)
    ensures forall s, j ::
      InBounds(s) && i <= j < |ps| && ps[j] in Val(r, s) && ps[j] !in Val(m, s)
      ==> Blocks(b, Idx(s), ps[j], player)
  {
    forall s, j | InBounds(s) && i <= j < |ps| && ps[j] in Val(r, s) && ps[j] !in Val(m, s)
      ensures Blocks(b, Idx(s), ps[j], player)
    {
      AddedAt(b, b1, ps, player, i, j, s, Val(m, s), Val(m1, s), Val(r, s));
    }
  }

  /** One square's list through one path square, as in `BlockPathBlocks`:
      `v` at the start, `mid` after the inner loops, `w` at the end. */
  lemma AddedAt(b: Board, b1: Board, ps: seq<Pos>, player: Color, i: nat, j: nat, s: Pos,
                v: seq<Pos>, mid: seq<Pos>, w: seq<Pos>)
    requires Wf(b) && Evolved(b, b1) && Wf(b1) && InBounds(s)
    requires i <= j < |ps| && PathAimed(b, ps, player, i) && PathAimed(b1, ps, player, i + 1)
    requires mid == v || (mid == v + [ps[i]] && Owns(b, Idx(s), player))
    requires b[Idx(s)].Occupied? ==> mid == v + (if Blocks(b, Idx(s), ps[i], player) then [ps[i]] else [])
    requires forall q :: q in w ==> q in mid || q in ps[i + 1..]
    requires forall j' :: i + 1 <= j' < |ps| && ps[j'] in w && ps[j'] !in mid ==> Blocks(b1, Idx(s), ps[j'], player)
    requires ps[j] in w && ps[j] !in v
    ensures Blocks(b, Idx(s), ps[j], player)
  {
    if ps[j] in mid {
      assert mid == v + [ps[i]];
      assert ps[j] == ps[i];
    } else {
      assert ps[j] in ps[i + 1..];
      var j' :| i + 1 <= j' < |ps| && ps[j'] == ps[j];
      BlocksMonotone(b, b1, Idx(s), ps[j], player);
    }
  }

  lemma PathAimedSuffix(b: Board, ps: seq<Pos>, player: Color, i: nat)
    requires Wf(b) && i <= |ps| && PathAimed(b, ps, player, i)
    ensures PathAimed(b, ps[i..], player, 0)
  {
  }

  lemma BlockPathStep(b: Board, ps: seq<Pos>, player: Color, i: nat, m: map<Pos, seq<Pos>>,
                      m1: map<Pos, seq<Pos>>, b1: Board, r: map<Pos, seq<Pos>>)
    requires Wf(b) && i < |ps| && PathAimed(b, ps, player, i)
    requires Evolved(b, b1) && Collected(b, ps[i], player, 0, m, m1)
    requires Wf(b1) && PathAimed(b1, ps, player, i + 1)
    requires forall s :: !InBounds(s) ==> Val(r, s) == Val(m1, s)
    requires forall s :: InBounds(s) ==> Val(m1, s) <= Val(r, s)
    requires forall s, q :: q in Val(r, s) ==> q in Val(m1, s) || q in ps[i + 1..]
    requires forall s :: InBounds(s) && Val(r, s) != Val(m1, s) ==>
      Owns(b1, Idx(s), player)
    requires forall s :: InBounds(s) && b1[Idx(s)].Occupied? && b1[Idx(s)].piece.kind != Pawn ==>
      (PathAimedSuffix(b1, ps, player, i + 1);
       Val(r, s) == Val(m1, s) + BlockedBy(b1, Idx(s), ps[i + 1..], player))
    ensures forall s :: !InBounds(s) ==> Val(r, s) == Val(m, s)
    ensures forall s :: InBounds(s) ==> Val(m, s) <= Val(r, s)
    ensures forall s, q :: q in Val(r, s) ==> q in Val(m, s) || q in ps[i..]
    ensures forall s :: InBounds(s) && Val(r, s) != Val(m, s) ==>
      Owns(b, Idx(s), player)
    ensures forall s :: InBounds(s) && b[Idx(s)].Occupied? && b[Idx(s)].piece.kind != Pawn ==>
      (PathAimedSuffix(b, ps, player, i);
       Val(r, s) == Val(m, s) + BlockedBy(b, Idx(s), ps[i..], player))
  {
    BlockPathSound(b, ps, player, i, m, m1, b1, r);
    BlockPathExact(b, ps, player, i, m, m1, b1, r);
  }

  lemma BlockPathSound(b: Board, ps: seq<Pos>, player: Color, i: nat, m: map<Pos, seq<Pos>>,
                       m1: map<Pos, seq<Pos>>, b1: Board, r: map<Pos, seq<Pos>>)
    requires Wf(b) && i < |ps| && PathAimed(b, ps, player, i)
    requires Evolved(b, b1) && Collected(b, ps[i], player, 0, m, m1)
    requires forall s :: !InBounds(s) ==> Val(r, s) == Val(m1, s)
    requires forall s :: InBounds(s) ==> Val(m1, s) <= Val(r, s)
    requires forall s, q :: q in Val(r, s) ==> q in Val(m1, s) || q in ps[i + 1..]
    requires Wf(b1)
    requires forall s :: InBounds(s) && Val(r, s) != Val(m1, s) ==>
      Owns(b1, Idx(s), player)
    ensures forall s :: !InBounds(s) ==> Val(r, s) == Val(m, s)
    ensures forall s :: InBounds(s) ==> Val(m, s) <= Val(r, s)
    ensures forall s, q :: q in Val(r, s) ==> q in Val(m, s) || q in ps[i..]
    ensures forall s :: InBounds(s) && Val(r, s) != Val(m, s) ==>
      Owns(b, Idx(s), player)
  {
    forall s | InBounds(s)
      ensures Val(m, s) <= Val(r, s)
      ensures Val(r, s) != Val(m, s) ==> Owns(b, Idx(s), player)
      ensures forall q :: q in Val(r, s) ==> q in Val(m, s) || q in ps[i..]
    {
      OwnsEvolved(b, b1, Idx(s), player);
      SoundAt(Val(m, s), Val(m1, s), Val(r, s), ps[i], ps[i + 1..], Owns(b, Idx(s), player), Owns(b1, Idx(s), player));
      assert ps[i..] == [ps[i]] + ps[i + 1..];
    }
  }

  /** One square's list through one path square: `Val` at the start, after
      the inner loops (`mid`) and at the end. */
  lemma SoundAt(v: seq<Pos>, mid: seq<Pos>, w: seq<Pos>, pos: Pos, rest: seq<Pos>, owns: bool, owns1: bool)
    requires mid == v || (mid == v + [pos] && owns)
    requires mid <= w && (w != mid ==> owns1) && owns1 == owns
    requires forall q :: q in w ==> q in mid || q in rest
    ensures v <= w && (w != v ==> owns)
    ensures forall q :: q in w ==> q in v || q == pos || q in rest
  {
  }

  lemma BlockPathExact(b: Board, ps: seq<Pos>, player: Color, i: nat, m: map<Pos, seq<Pos>>,
                       m1: map<Pos, seq<Pos>>, b1: Board, r: map<Pos, seq<Pos>>)
    requires Wf(b) && i < |ps| && PathAimed(b, ps, player, i)
    requires Evolved(b, b1) && Collected(b, ps[i], player, 0, m, m1)
    requires Wf(b1) && PathAimed(b1, ps, player, i + 1)
    requires forall s :: InBounds(s) && b1[Idx(s)].Occupied? && b1[Idx(s)].piece.kind != Pawn ==>
      (PathAimedSuffix(b1, ps, player, i + 1);
       Val(r, s) == Val(m1, s) + BlockedBy(b1, Idx(s), ps[i + 1..], player))
    ensures forall s :: InBounds(s) && b[Idx(s)].Occupied? && b[Idx(s)].piece.kind != Pawn ==>
      (PathAimedSuffix(b, ps, player, i);
       Val(r, s) == Val(m, s) + BlockedBy(b, Idx(s), ps[i..], player))
  {
    forall s | InBounds(s) && b[Idx(s)].Occupied? && b[Idx(s)].piece.kind != Pawn
      ensures (PathAimedSuffix(b, ps, player, i);
               Val(r, s) == Val(m, s) + BlockedBy(b, Idx(s), ps[i..], player))
    {
      var k := Idx(s);
      assert b1[k].Occupied? && b1[k].piece.kind != Pawn;
      PathAimedSuffix(b1, ps, player, i + 1);
      BlockedBySplit(b, k, ps, player, i);
      var head := if Blocks(b, k, ps[i], player) then [ps[i]] else [];
      var tail := BlockedBy(b, k, ps[i + 1..], player);
      assert BlockedBy(b1, k, ps[i + 1..], player) == tail by {
        BlockedByFrame(b, b1, k, ps[i + 1..], player);
      }
      ExactAt(Val(m, s), head, tail, Val(m1, s), Val(r, s));
    }
  }

  /** One non-pawn piece's list through one path square, as sequences:
      `v` before, `mid` after the square `head`, `w` after the rest. */
  lemma ExactAt(v: seq<Pos>, head: seq<Pos>, tail: seq<Pos>, mid: seq<Pos>, w: seq<Pos>)
    requires mid == v + head && w == mid + tail
    ensures w == v + (head + tail)
  {
  }

  /** `BlockedBy` over `ps[i..]` is its head square followed by the rest. */
  lemma BlockedBySplit(b: Board, k: nat, ps: seq<Pos>, player: Color, i: nat)
    requires Wf(b) && k < Cells && i < |ps| && PathAimed(b, ps, player, i)
    ensures PathAimed(b, ps[i..], player, 0) && PathAimed(b, ps[i + 1..], player, 0)
    ensures BlockedBy(b, k, ps[i..], player) ==
      (if Blocks(b, k, ps[i], player) then [ps[i]] else []) + BlockedBy(b, k, ps[i + 1..], player)
  {
    PathAimedSuffix(b, ps, player, i);
    PathAimedSuffix(b, ps, player, i + 1);
    var qs := ps[i..];
    assert qs[0] == ps[i] && qs[1..] == ps[i + 1..];
  }

  /** `can_block?(path, player)`: `nil` without a path; otherwise the lists of
      path squares each of `player`'s pieces can move to, keyed by the
      square of the cell that holds the piece. */
  function CanBlock(b: Board, path: Option<seq<Pos>>, player: Color): (r: (Option<map<Pos, seq<Pos>>>, Board))
    requires Wf(b) && (path.Some? ==> PathAimed(b, path.value, player, 0))
    ensures Evolved(b, r.1) && Wf(r.1)
    ensures r.0.Some? <==> path.Some?
    ensures r.0.Some? ==> forall s :: s in r.0.value ==>
      && InBounds(s) && Owns(b, Idx(s), player)
      && |r.0.value[s]| > 0
      && forall q :: q in r.0.value[s] ==> q in path.value
    ensures r.0.Some? ==> forall s :: InBounds(s) && b[Idx(s)].Occupied? && b[Idx(s)].piece.kind != Pawn ==>
      Val(r.0.value, s) == BlockedBy(b, Idx(s), path.value, player)
  {
    match path
    case None => EvolvedRefl(b); (None, b)
    case Some(ps) =>
      var (m, b1) := BlockPath(b, ps, player, 0, map[]);
      assert ps[0..] == ps;
      forall s | s in m
        ensures InBounds(s) && Val(m, s) != Val(map[], s)
      {
      }
      (Some(m), b1)
  }

  /** Every square `can_block?` lists for a piece is one that piece, as it
      stood before the call, can move onto along a free path. */
  lemma CanBlockSound(b: Board, ps: seq<Pos>, player: Color)
    requires Wf(b) && PathAimed(b, ps, player, 0)
    ensures var m := CanBlock(b, Some(ps), player).0.value;
      forall s, q :: s in m && q in m[s] ==>
        InBounds(s) && InBounds(q) && Aimed(b, q, player, false) && Blocks(b, Idx(s), q, player)
  {
    var m := BlockPath(b, ps, player, 0, map[]).0;
    assert CanBlock(b, Some(ps), player).0.value == m;
    assert ps[0..] == ps;
    assert forall s, q :: s in m && q in m[s] ==> InBounds(s) && q in ps;
    BlockPathBlocks(b, ps, player, 0, map[]);
    forall s, q | s in m && q in m[s]
      ensures InBounds(s) && InBounds(q) && Aimed(b, q, player, false) && Blocks(b, Idx(s), q, player)
    {
      var j :| 0 <= j < |ps| && ps[j] == q;
      assert ps[j] in Val(m, s) && ps[j] !in Val(map[], s);
    }
  }
}
