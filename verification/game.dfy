/** The turn logic of `Chess` (lib/chess_game.rb) that sits between the
    console and the board: reading a move in coordinate notation, the checks
    a move must pass before the board is asked to make it, and the end-of-turn
    announcements. Printing, reading a line and the retry loops are left to
    the caller: each function here is one attempt on one given line. */
module Game {
  import opened Geometry
  import opened Pieces
  import opened ChessBoard
  import opened Analysis
  import opened Moves

  // ---------------------------------------------------------------------------
  // parse_move

  /** The bytes Ruby's awk-style `split(' ')` treats as separators. */
  predicate IsSpace(c: char)
  {
    c in {' ', '\t', '\n', '\U{000B}', '\U{000C}', '\r'}
  }

  /** A token `split(' ')` can produce: non-empty, without separators. */
  predicate Word(w: string)
  {
    |w| > 0 && forall c :: c in w ==> !IsSpace(c)
  }

  /** The end of the run of non-separators starting at `i`. */
  function WordEnd(s: string, i: nat): (r: nat)
    requires i <= |s|
    decreases |s| - i
    ensures i <= r <= |s|
    ensures forall j :: i <= j < r ==> !IsSpace(s[j])
    ensures r < |s| ==> IsSpace(s[r])
  {
    if i == |s| || IsSpace(s[i]) then i else WordEnd(s, i + 1)
  }

  /** `line.split(' ')`: the maximal runs of non-separators, in order;
      leading, trailing and repeated separators produce nothing. */
  function Tokens(s: string): (r: seq<string>)
    decreases |s|
    ensures forall w :: w in r ==> Word(w)
  {
    if s == [] then []
    else if IsSpace(s[0]) then Tokens(s[1..])
    else
      var n := WordEnd(s, 0);
      assert Word(s[..n]) by {
        forall c | c in s[..n]
          ensures !IsSpace(c)
        {
          var j :| 0 <= j < n && s[..n][j] == c;
        }
      }
      [s[..n]] + Tokens(s[n..])
  }

  /** Words separated by one space each: what `Tokens` takes apart. */
  function Join(ws: seq<string>): string
  {
    if ws == [] then []
    else if |ws| == 1 then ws[0]
    else ws[0] + " " + Join(ws[1..])
  }

  lemma {:induction false} WordEndOfWord(w: string, rest: string, i: nat)
    requires Word(w) && i <= |w| && (rest == [] || IsSpace(rest[0]))
    ensures WordEnd(w + rest, i) == |w|
    decreases |w| - i
  {
    var s := w + rest;
    if i < |w| {
      assert s[i] == w[i] && w[i] in w;
      WordEndOfWord(w, rest, i + 1);
    } else if rest != [] {
      assert s[i] == rest[0];
    }
  }

  /** A word followed by a separator or by nothing is split off whole. */
  lemma TokensAfterWord(w: string, rest: string)
    requires Word(w) && (rest == [] || IsSpace(rest[0]))
    ensures Tokens(w + rest) == [w] + Tokens(rest)
  {
    var s := w + rest;
    assert s[0] == w[0] && w[0] in w;
    WordEndOfWord(w, rest, 0);
    assert s[..|w|] == w;
    assert s[|w|..] == rest;
  }

  /** Splitting the space-joined words gives the words back. */
  lemma {:induction false} TokensJoin(ws: seq<string>)
    requires forall w :: w in ws ==> Word(w)
    ensures Tokens(Join(ws)) == ws
  {
    if ws == [] {
    } else if |ws| == 1 {
      assert ws[0] in ws;
      TokensAfterWord(ws[0], []);
      assert ws[0] + [] == ws[0];
      assert Tokens([]) == [];
    } else {
      assert ws[0] in ws;
      var rest := Join(ws[1..]);
      assert forall w :: w in ws[1..] ==> w in ws;
      TokensJoin(ws[1..]);
      TokensAfterWord(ws[0], " " + rest);
      assert ws[0] + " " + rest == ws[0] + (" " + rest);
      assert Tokens(" " + rest) == Tokens(rest) by {
        assert (" " + rest)[1..] == rest;
      }
      assert [ws[0]] + ws[1..] == ws;
    }
  }

  /** `String#to_i` on the single character `pos[1]` (or `nil.to_i` when the
      token has one character): the value of a decimal digit, 0 otherwise. */
  function DigitValue(c: Option<char>): (r: int)
    ensures 0 <= r <= 9
    ensures r != 0 ==> c.Some? && '1' <= c.value <= '9' && r == c.value as int - '0' as int
  {
    if c.Some? && '0' <= c.value <= '9' then c.value as int - '0' as int else 0
  }

  /** One token of `parse_move`: the row is the digit in second place minus
      one, the column the distance of the first character from `a`. */
  function ParseSquare(tok: string): Pos
    requires |tok| > 0
  {
    Pos(DigitValue(if |tok| >= 2 then Some(tok[1]) else None) - 1, tok[0] as int - 'a' as int)
  }

  /** `parse_move(line)`: one coordinate pair per token. */
  function ParseMove(line: string): (r: seq<Pos>)
    ensures |r| == |Tokens(line)|
  {
    var ts := Tokens(line);
    seq(|ts|, i requires 0 <= i < |ts| => assert ts[i] in ts; ParseSquare(ts[i]))
  }

  /** The square in the notation the prompt asks for, e.g. `a2`. */
  function Format(p: Pos): (r: string)
    requires InBounds(p)
    ensures Word(r) && |r| == 2
  {
    [('a' as int + p.col) as char, ('1' as int + p.row) as char]
  }

  /** A token names a square on the board exactly when it starts with a
      letter `a`-`h` followed by a digit `1`-`8`; anything after those two
      characters is ignored, and `Format` gives the two back. */
  lemma ParseSquareOnBoard(tok: string)
    requires |tok| > 0
    ensures InBounds(ParseSquare(tok)) <==> |tok| >= 2 && 'a' <= tok[0] <= 'h' && '1' <= tok[1] <= '8'
    ensures InBounds(ParseSquare(tok)) ==> Format(ParseSquare(tok)) == tok[..2]
  {
  }

  lemma ParseFormat(p: Pos)
    requires InBounds(p)
    ensures ParseSquare(Format(p)) == p
  {
  }

  /** The prompt's own format: two squares separated by a space. */
  lemma ParseMoveFormat(from: Pos, to: Pos)
    requires InBounds(from) && InBounds(to)
    ensures ParseMove(Format(from) + " " + Format(to)) == [from, to]
  {
    TokensJoin([Format(from), Format(to)]);
    assert Join([Format(from), Format(to)]) == Format(from) + " " + Format(to) by {
      assert [Format(from), Format(to)][1..] == [Format(to)];
    }
    ParseFormat(from);
    ParseFormat(to);
  }

  /** The example of the prompt, `a2 a4`: from row 1 to row 3 in column 0. */
  lemma PromptExample()
    ensures ParseMove("a2 a4") == [Pos(1, 0), Pos(3, 0)]
  {
    ParseMoveFormat(Pos(1, 0), Pos(3, 0));
    assert Format(Pos(1, 0)) + " " + Format(Pos(3, 0)) == "a2 a4";
  }

  // ---------------------------------------------------------------------------
  // get_move

  /** Exactly two pairs, every coordinate within `0..7`. */
  predicate WellFormed(m: seq<Pos>)
  {
    |m| == 2 && forall p :: p in m ==> InBounds(p)
  }

  /** Why one attempt of `get_move` ends: the move it returns, or the message
      it raises before asking again. */
  datatype Answer =
    | Accepted(from: Pos, to: Pos)
    | BadFormat       // 'Invalid format or out of board bounds.'
    | NotYourPiece    // 'Not your Piece.'
    | MustAnswerCheck // "You're in check."
    | StillInCheck    // 'Invalid move. Still in check'

  /** What `check?` and `can_block?` need not to crash: the king's square and
      every square of the attacking path are aimed at. */
  predicate GetMoveReady(b: Board, player: Color)
  {
    CheckReady(b, player)
    && var (path, b1) := Check(b, player);
       path.Some? ==> PathAimed(b1, path.value, player, 0)
  }

  /** One attempt of `get_move(player)` on the line `line`: the format, then
      the owner of the first square, then, when `player` is in check, whether
      the piece is one `can_block?` lists and the target one of its squares. */
  function GetMove(b: Board, line: string, player: Color): (r: (Answer, Board))
    requires Wf(b)
    requires WellFormed(ParseMove(line)) && ColorAt(b, ParseMove(line)[0]) == Some(player) ==> GetMoveReady(b, player)
    ensures Evolved(b, r.1) && Wf(r.1)
    ensures r.0 == BadFormat <==> !WellFormed(ParseMove(line))
    ensures r.0 == NotYourPiece <==> WellFormed(ParseMove(line)) && ColorAt(b, ParseMove(line)[0]) != Some(player)
    ensures r.0.Accepted? ==> [r.0.from, r.0.to] == ParseMove(line) && ColorAt(b, r.0.from) == Some(player)
    ensures r.0 in {MustAnswerCheck, StillInCheck} || r.0.Accepted? ==>
      WellFormed(ParseMove(line)) && ColorAt(b, ParseMove(line)[0]) == Some(player)
    ensures r.0 in {MustAnswerCheck, StillInCheck} ==> Check(b, player).0.Some?
    ensures WellFormed(ParseMove(line)) && ColorAt(b, ParseMove(line)[0]) == Some(player) && Check(b, player).0.None? ==>
      r.0 == Accepted(ParseMove(line)[0], ParseMove(line)[1])
    ensures r.0.Accepted? && Check(b, player).0.Some? ==> r.0.to in Check(b, player).0.value
    ensures (&& WellFormed(ParseMove(line)) && ColorAt(b, ParseMove(line)[0]) == Some(player)
             && Check(b, player).0.Some? && At(b, ParseMove(line)[0]).piece.kind != Pawn) ==>
        var m := ParseMove(line);
        var (path, b1) := Check(b, player);
        (r.0.Accepted? <==> m[1] in BlockedBy(b1, Idx(m[0]), path.value, player))
  {
    var m := ParseMove(line);
    if !WellFormed(m) then EvolvedRefl(b); (BadFormat, b)
    else if ColorAt(b, m[0]) != Some(player) then EvolvedRefl(b); (NotYourPiece, b)
    else
      var (path, b1) := Check(b, player);
      var (pm, b2) := CanBlock(b1, path, player);
      EvolvedTrans(b, b1, b2);
      assert m[0] in m && m[1] in m;
      if pm.None? then (Accepted(m[0], m[1]), b2)
      else
        assert b1[Idx(m[0])].Occupied? && b1[Idx(m[0])].piece.kind == At(b, m[0]).piece.kind by {
          assert b[Idx(m[0])] == At(b, m[0]);
        }
        if m[0] !in pm.value then (MustAnswerCheck, b2)
        else if m[1] !in pm.value[m[0]] then (StillInCheck, b2)
        else (Accepted(m[0], m[1]), b2)
  }

  // ---------------------------------------------------------------------------
  // move_piece

  predicate MovePieceReady(b: Board, line: string, player: Color)
  {
    && Wf(b)
    && (WellFormed(ParseMove(line)) && ColorAt(b, ParseMove(line)[0]) == Some(player) ==> GetMoveReady(b, player))
    && var (a, b1) := GetMove(b, line, player);
       a.Accepted? ==> MoveDefined(b1, a.from, a.to)
  }

  /** One attempt of `move_piece(player)`: the move `get_move` accepts from
      `line`, handed to the board. `None` when `get_move` would ask again;
      otherwise how `move` ended (anything but `Moved` makes `move_piece`
      ask again). */
  function MovePiece(b: Board, line: string, player: Color): (r: (Option<Outcome>, Board))
    requires MovePieceReady(b, line, player)
    ensures Wf(r.1)
    ensures r.0 != Some(Moved) ==> Evolved(b, r.1)
    ensures r.0 == Some(Moved) ==>
      var m := ParseMove(line);
      && WellFormed(m) && ColorAt(b, m[0]) == Some(player) && ColorAt(b, m[1]) != Some(player)
      && (Check(b, player).0.Some? ==> m[1] in Check(b, player).0.value)
  {
    var (a, b1) := GetMove(b, line, player);
    if !a.Accepted? then (None, b1)
    else
      EvolvedFacts(b, b1);
      var (o, b2) := Move(b1, a.from, a.to);
      if o != Moved then EvolvedTrans(b, b1, b2); (Some(o), b2)
      else (Some(o), b2)
  }

  // ---------------------------------------------------------------------------
  // other_player, only_king?

  /** `other_player`: the colour that moves next. */
  function OtherPlayer(c: Color): (r: Color)
    ensures r != c
  {
    if c == White then Black else White
  }

  lemma OtherPlayerInvolution(c: Color)
    ensures OtherPlayer(OtherPlayer(c)) == c
  {
  }

  /** The loop of `only_king?` from cell `k` on: false at the first piece
      that is not a king and whose stored position holds a piece of
      `player`. */
  function OnlyKingFrom(b: Board, player: Color, k: nat): (r: bool)
    requires Wf(b) && k <= Cells
    decreases Cells - k
    ensures r <==> forall j :: k <= j < Cells && b[j].Occupied? && ColorAt(b, b[j].piece.pos) == Some(player) ==>
      b[j].piece.kind == King
  {
    if k == Cells then true
    else if b[k].Occupied? && ColorAt(b, b[k].piece.pos) == Some(player) && b[k].piece.kind != King then false
    else OnlyKingFrom(b, player, k + 1)
  }

  /** `only_king?(player)`, as the loop means it (the source asks the board
      for an accessor it does not have). */
  function OnlyKing(b: Board, player: Color): (r: bool)
    requires Wf(b)
    ensures r <==> forall j :: 0 <= j < Cells && b[j].Occupied? && ColorAt(b, b[j].piece.pos) == Some(player) ==>
      b[j].piece.kind == King
  {
    OnlyKingFrom(b, player, 0)
  }

  /** When every piece stands where it believes it stands, `only_king?` says
      that every piece of `player` is a king. */
  lemma OnlyKingWhenPlaced(b: Board, player: Color)
    requires Wf(b) && Placed(b)
    ensures OnlyKing(b, player) <==>
      forall q :: InBounds(q) && At(b, q).Occupied? && At(b, q).piece.color == player ==> At(b, q).piece.kind == King
  {
    if OnlyKing(b, player) {
      forall q | InBounds(q) && At(b, q).Occupied? && At(b, q).piece.color == player
        ensures At(b, q).piece.kind == King
      {
        assert b[Idx(q)] == At(b, q);
      }
    } else {
      var j :| 0 <= j < Cells && b[j].Occupied? && ColorAt(b, b[j].piece.pos) == Some(player) && b[j].piece.kind != King;
      var q := SquareOf(j);
      assert At(b, q) == b[j];
    }
  }

  /** Queries do not change what `only_king?` answers. */
  lemma OnlyKingEvolved(b: Board, b': Board, player: Color)
    requires Wf(b) && Evolved(b, b')
    ensures Wf(b') && OnlyKing(b', player) == OnlyKing(b, player)
  {
    EvolvedFacts(b, b');
  }

  // ---------------------------------------------------------------------------
  // check_stalemate, announce_check

  /** `check_stalemate(player)`'s condition: not in check, `checkmate?`
      answering true, and no piece but kings; asked in that order. */
  function Stalemate(b: Board, player: Color): (r: (bool, Board))
    requires CheckReady(b, player)
    requires Check(b, player).0.None? ==> CheckmateReady(Check(b, player).1, player)
    ensures Evolved(b, r.1) && Wf(r.1)
    ensures r.0 <==>
      && Check(b, player).0.None?
      && Checkmate(Check(b, player).1, player).0
      && OnlyKing(b, player)
  {
    var (c, b1) := Check(b, player);
    if c.Some? then (false, b1)
    else
      var (m, b2) := Checkmate(b1, player);
      EvolvedTrans(b, b1, b2);
      OnlyKingEvolved(b, b2, player);
      if !m then (false, b2) else (OnlyKing(b2, player), b2)
  }

  /** What `announce_check(player)` ends with. */
  datatype Announcement = Silent | CheckAnnounced | Checkmated(winner: Color)

  /** `announce_check(player)`: nothing unless `player` is in check; then
      the game ends with the other player winning when `checkmate?` agrees. */
  function AnnounceCheck(b: Board, player: Color): (r: (Announcement, Board))
    requires CheckReady(b, player)
    requires Check(b, player).0.Some? ==> CheckmateReady(Check(b, player).1, player)
    ensures Evolved(b, r.1) && Wf(r.1)
    ensures r.0.Silent? <==> Check(b, player).0.None?
    ensures r.0.Checkmated? <==> Check(b, player).0.Some? && Checkmate(Check(b, player).1, player).0
    ensures r.0.Checkmated? ==> r.0.winner == OtherPlayer(player)
    ensures !r.0.Silent? ==> KingSquare(b, player).Some?
    ensures r.0.CheckAnnounced? ==>
      var b1 := Check(b, player).1;
      && FirstKing(b1, player, 0).Some?
      && var king := b1[FirstKing(b1, player, 0).value].piece;
         exists l :: 0 <= l < |king.trans| && AttackedEscape(b1, king, player, l)
  {
    var (c, b1) := Check(b, player);
    if c.None? then (Silent, b1)
    else
      CheckmateUnlessEscapeAttacked(b1, player);
      var (m, b2) := Checkmate(b1, player);
      EvolvedTrans(b, b1, b2);
      if m then (Checkmated(OtherPlayer(player)), b2) else (CheckAnnounced, b2)
  }
}
