/** `find_king`, `is_in_check` and `is_checkmate`: scans of the board in row-major order. A
    `valid_moves` call that raises `IndexError` ends the scan; that outcome is `None`. */
module ChessCheck {
  import opened Wrappers
  import opened ChessMoves

  /** Square `(x, y)` is `(r, c)` or comes after it in row-major order. */
  predicate From(x: int, y: int, r: int, c: int) {
    x > r || (x == r && y >= c)
  }

  /** The first square at or after `(r, c)` that holds `target`. */
  function KingFrom(board: Board, target: string, r: nat, c: nat): Option<Pos>
    requires IsBoard(board) && r <= 8 && c <= 8
    decreases 8 - r, 8 - c
  {
    if r == 8 then None
    else if c == 8 then KingFrom(board, target, r + 1, 0)
    else if board[r][c] == target then Some((r, c))
    else KingFrom(board, target, r, c + 1)
  }

  /** What `find_king(board, color)` returns. */
  function KingOf(board: Board, color: string): Option<Pos>
    requires IsBoard(board)
  {
    KingFrom(board, color + "K", 0, 0)
  }

  lemma {:induction false} KingFromFirst(board: Board, target: string, r: nat, c: nat)
    requires IsBoard(board) && r <= 8 && c <= 8
    decreases 8 - r, 8 - c
    ensures KingFrom(board, target, r, c).None? <==>
              forall x, y :: OnBoard(x, y) && From(x, y, r, c) ==> board[x][y] != target
    ensures KingFrom(board, target, r, c).Some? ==>
              var p := KingFrom(board, target, r, c).value;
              OnBoard(p.0, p.1) && From(p.0, p.1, r, c) && board[p.0][p.1] == target &&
              forall x, y :: OnBoard(x, y) && From(x, y, r, c) && !From(x, y, p.0, p.1) ==> board[x][y] != target
  {
    if r < 8 {
      if c == 8 {
        KingFromFirst(board, target, r + 1, 0);
      } else if board[r][c] != target {
        KingFromFirst(board, target, r, c + 1);
      }
    }
  }

  /** `find_king` returns the first square in row-major order that holds `color + 'K'`, and
      `None` exactly when no square does. */
  lemma KingOfFirst(board: Board, color: string)
    requires IsBoard(board)
    ensures KingOf(board, color).None? <==> forall x, y :: OnBoard(x, y) ==> board[x][y] != color + "K"
    ensures KingOf(board, color).Some? ==>
              var p := KingOf(board, color).value;
              OnBoard(p.0, p.1) && board[p.0][p.1] == color + "K" &&
              forall x, y :: OnBoard(x, y) && (x < p.0 || (x == p.0 && y < p.1)) ==> board[x][y] != color + "K"
  {
    KingFromFirst(board, color + "K", 0, 0);
  }

  method FindKing(board: Board, color: string) returns (pos: Option<Pos>)
    requires IsBoard(board)
    ensures pos == KingOf(board, color)
  {
    for row := 0 to 8
      invariant KingFrom(board, color + "K", row, 0) == KingOf(board, color)
    {
      for col := 0 to 8
        invariant KingFrom(board, color + "K", row, col) == KingOf(board, color)
      {
        if board[row][col] == color + "K" {
          return Some((row, col));
        }
      }
    }
    return None;
  }

  /** `opponent_color`. */
  function OpponentOf(color: string): char {
    if color == "w" then 'b' else 'w'
  }

  /** Square `(x, y)` holds a piece of the opponent of `color`. */
  predicate Attacker(board: Board, color: string, x: int, y: int)
    requires IsBoard(board) && OnBoard(x, y)
  {
    board[x][y] != Empty && board[x][y][0] == OpponentOf(color)
  }

  /** The opponent's piece on `(x, y)` has the king's square among its moves. */
  predicate Attacks(board: Board, color: string, king: Option<Pos>, x: int, y: int)
    requires IsBoard(board) && OnBoard(x, y)
  {
    Attacker(board, color, x, y) && ValidMoves(board, board[x][y], x, y).Some? &&
    king.Some? && king.value in ValidMoves(board, board[x][y], x, y).value
  }

  /** `valid_moves` raises for the opponent's piece on `(x, y)`. */
  predicate Fails(board: Board, color: string, x: int, y: int)
    requires IsBoard(board) && OnBoard(x, y)
  {
    Attacker(board, color, x, y) && ValidMoves(board, board[x][y], x, y).None?
  }

  /** The rest of the scan of `is_in_check` from `(r, c)`. */
  function CheckFrom(board: Board, color: string, king: Option<Pos>, r: nat, c: nat): Option<bool>
    requires IsBoard(board) && r <= 8 && c <= 8
    decreases 8 - r, 8 - c
  {
    if r == 8 then Some(false)
    else if c == 8 then CheckFrom(board, color, king, r + 1, 0)
    else if Attacker(board, color, r, c) then
      match ValidMoves(board, board[r][c], r, c)
      case None => None
      case Some(ms) => if king.Some? && king.value in ms then Some(true) else CheckFrom(board, color, king, r, c + 1)
    else CheckFrom(board, color, king, r, c + 1)
  }

  /** What `is_in_check(board, color)` returns. */
  function InCheck(board: Board, color: string): Option<bool>
    requires IsBoard(board)
  {
    CheckFrom(board, color, KingOf(board, color), 0, 0)
  }

  lemma {:induction false} CheckFromMeaning(board: Board, color: string, king: Option<Pos>, r: nat, c: nat)
    requires IsBoard(board) && r <= 8 && c <= 8
    decreases 8 - r, 8 - c
    ensures CheckFrom(board, color, king, r, c) == Some(true) ==>
              exists x, y :: OnBoard(x, y) && From(x, y, r, c) && Attacks(board, color, king, x, y)
    ensures CheckFrom(board, color, king, r, c) == Some(false) <==>
              forall x, y :: OnBoard(x, y) && From(x, y, r, c) ==>
                !Attacks(board, color, king, x, y) && !Fails(board, color, x, y)
    ensures CheckFrom(board, color, king, r, c).None? ==>
              exists x, y :: OnBoard(x, y) && From(x, y, r, c) && Fails(board, color, x, y)
  {
    if r < 8 {
      if c == 8 {
        CheckFromMeaning(board, color, king, r + 1, 0);
      } else {
        CheckFromMeaning(board, color, king, r, c + 1);
        if Attacks(board, color, king, r, c) {
          assert From(r, c, r, c);
        } else if Fails(board, color, r, c) {
          assert From(r, c, r, c);
        }
      }
    }
  }

  /** `is_in_check` is true only when some opponent's piece has the king's square among its
      moves; it is false exactly when no opponent's piece has it and none raises; it raises
      only for a black pawn on row 7 when white's king is checked. Without a king it is never
      true, since `None in moves` is false. */
  lemma CheckMeaning(board: Board, color: string)
    requires IsBoard(board)
    ensures InCheck(board, color) == Some(true) ==>
              exists x, y :: OnBoard(x, y) && Attacks(board, color, KingOf(board, color), x, y)
    ensures InCheck(board, color) == Some(false) <==>
              forall x, y :: OnBoard(x, y) ==>
                !Attacks(board, color, KingOf(board, color), x, y) && !Fails(board, color, x, y)
    ensures InCheck(board, color).None? ==>
              color == "w" && exists y :: 0 <= y < 8 && board[7][y][0] == 'b' && board[7][y][1] == 'P'
    ensures KingOf(board, color).None? ==> InCheck(board, color) != Some(true)
  {
    CheckFromMeaning(board, color, KingOf(board, color), 0, 0);
    if InCheck(board, color).None? {
      var x, y :| OnBoard(x, y) && From(x, y, 0, 0) && Fails(board, color, x, y);
      assert x == 7;
    }
  }

  method IsInCheck(board: Board, color: string) returns (check: Option<bool>)
    requires IsBoard(board)
    ensures check == InCheck(board, color)
  {
    var kingPos := FindKing(board, color);
    var opponent := if color == "w" then 'b' else 'w';
    for row := 0 to 8
      invariant CheckFrom(board, color, kingPos, row, 0) == InCheck(board, color)
    {
      for col := 0 to 8
        invariant CheckFrom(board, color, kingPos, row, col) == InCheck(board, color)
      {
        var piece := board[row][col];
        if piece != Empty && piece[0] == opponent {
          var moves := GenerateMoves(board, piece, row, col);
          if moves.None? {
            return None;
          }
          if kingPos.Some? && kingPos.value in moves.value {
            return Some(true);
          }
        }
      }
    }
    return Some(false);
  }

  /** Square `(x, y)` holds a piece of `color`: `piece[0] == color`. */
  predicate Own(board: Board, color: string, x: int, y: int)
    requires IsBoard(board) && OnBoard(x, y)
  {
    board[x][y] != Empty && [board[x][y][0]] == color
  }

  /** Moves have a column on the board and a row in `-1 .. 7`. */
  predicate InRange(ms: seq<Pos>) {
    forall m :: m in ms ==> -1 <= m.0 < 8 && 0 <= m.1 < 8
  }

  /** The copy `temp_board` after `piece` moves from `(r, c)` to `m`; row -1 is Python's
      last row. */
  function Moved(board: Board, piece: string, r: int, c: int, m: Pos): (t: Board)
    requires IsBoard(board) && |piece| == 2 && OnBoard(r, c) && -1 <= m.0 < 8 && 0 <= m.1 < 8
    ensures IsBoard(t)
    ensures t[r][c] == Empty
    ensures (PyRow(m.0), m.1) != (r, c) ==> t[PyRow(m.0)][m.1] == piece
    ensures forall x, y :: OnBoard(x, y) && (x, y) != (r, c) && (x, y) != (PyRow(m.0), m.1) ==>
              t[x][y] == board[x][y]
  {
    var t := board[PyRow(m.0) := board[PyRow(m.0)][m.1 := piece]];
    t[r := t[r][c := Empty]]
  }

  /** `is_in_check(temp_board, color)` after the piece on `(r, c)` makes move `m`. */
  function After(board: Board, color: string, r: int, c: int, m: Pos): Option<bool>
    requires IsBoard(board) && OnBoard(r, c) && -1 <= m.0 < 8 && 0 <= m.1 < 8
  {
    InCheck(Moved(board, board[r][c], r, c, m), color)
  }

  /** The outcome of `is_in_check` after each of the moves `ms`. */
  function Outcomes(board: Board, color: string, r: int, c: int, ms: seq<Pos>): (outs: seq<Option<bool>>)
    requires IsBoard(board) && OnBoard(r, c) && InRange(ms)
    ensures |outs| == |ms|
    ensures forall k :: 0 <= k < |ms| ==> outs[k] == After(board, color, r, c, ms[k])
  {
    seq(|ms|, k requires 0 <= k < |ms| => After(board, color, r, c, ms[k]))
  }

  /** The rest of the loop over a piece's moves from index `j`, given the outcome of
      `is_in_check` after each move: `Some(true)` at the first move that ends the check,
      `None` at a move whose check raises first. */
  function FirstEscape(outs: seq<Option<bool>>, j: nat): Option<bool>
    requires j <= |outs|
    decreases |outs| - j
  {
    if j == |outs| then Some(false)
    else match outs[j]
      case None => None
      case Some(true) => FirstEscape(outs, j + 1)
      case Some(false) => Some(true)
  }

  /** The outcome of `is_checkmate`'s loop over the moves of the piece on `(x, y)`: `Some(true)`
      when a move ends the check, `None` when a call raises first, and `Some(false)` otherwise,
      which includes a square without a piece of `color`. */
  function SquareOutcome(board: Board, color: string, x: int, y: int): Option<bool>
    requires IsBoard(board) && OnBoard(x, y)
  {
    if !Own(board, color, x, y) then Some(false)
    else match ValidMoves(board, board[x][y], x, y)
      case None => None
      case Some(ms) => FirstEscape(Outcomes(board, color, x, y, ms), 0)
  }

  predicate IsGrid<T>(g: seq<seq<T>>) {
    |g| == 8 && forall x :: 0 <= x < 8 ==> |g[x]| == 8
  }

  /** The outcome of every square. */
  function Grid(board: Board, color: string): (g: seq<seq<Option<bool>>>)
    requires IsBoard(board)
    ensures IsGrid(g)
    ensures forall x, y :: OnBoard(x, y) ==> g[x][y] == SquareOutcome(board, color, x, y)
  {
    seq(8, x requires 0 <= x < 8 => seq(8, y requires 0 <= y < 8 => SquareOutcome(board, color, x, y)))
  }

  /** The rest of `is_checkmate`'s scan from `(r, c)`, given each square's outcome. */
  function ScanFrom(g: seq<seq<Option<bool>>>, r: nat, c: nat): Option<bool>
    requires IsGrid(g) && r <= 8 && c <= 8
    decreases 8 - r, 8 - c
  {
    if r == 8 then Some(true)
    else if c == 8 then ScanFrom(g, r + 1, 0)
    else match g[r][c]
      case None => None
      case Some(true) => Some(false)
      case Some(false) => ScanFrom(g, r, c + 1)
  }

  /** What `is_checkmate(board, color)` returns. */
  function Checkmate(board: Board, color: string): Option<bool>
    requires IsBoard(board)
  {
    match InCheck(board, color)
    case None => None
    case Some(false) => Some(false)
    case Some(true) => ScanFrom(Grid(board, color), 0, 0)
  }

  /** Every move of the piece on `(x, y)` leaves the king in check. */
  predicate Stuck(board: Board, color: string, x: int, y: int)
    requires IsBoard(board) && OnBoard(x, y)
  {
    var moves := ValidMoves(board, board[x][y], x, y);
    moves.Some? &&
    forall k :: 0 <= k < |moves.value| ==> After(board, color, x, y, moves.value[k]) == Some(true)
  }

  /** Some move of the piece on `(x, y)` leaves the king out of check. */
  predicate Escapes(board: Board, color: string, x: int, y: int)
    requires IsBoard(board) && OnBoard(x, y)
  {
    var moves := ValidMoves(board, board[x][y], x, y);
    moves.Some? &&
    exists k :: 0 <= k < |moves.value| && After(board, color, x, y, moves.value[k]) == Some(false)
  }

  /** The loop over the moves finds no escape exactly when every move leaves the king in
      check, and finds one only at a move that ends the check. */
  lemma {:induction false} EscapeMeaning(outs: seq<Option<bool>>, j: nat)
    requires j <= |outs|
    decreases |outs| - j
    ensures FirstEscape(outs, j) == Some(false) <==> forall k :: j <= k < |outs| ==> outs[k] == Some(true)
    ensures FirstEscape(outs, j) == Some(true) ==> exists k :: j <= k < |outs| && outs[k] == Some(false)
  {
    if j < |outs| {
      EscapeMeaning(outs, j + 1);
    }
  }

  /** The scan ends `Some(true)` exactly when every square from `(r, c)` on has outcome
      `Some(false)`, and `Some(false)` only at a square whose outcome is `Some(true)`. */
  lemma {:induction false} ScanMeaning(g: seq<seq<Option<bool>>>, r: nat, c: nat)
    requires IsGrid(g) && r <= 8 && c <= 8
    decreases 8 - r, 8 - c
    ensures ScanFrom(g, r, c) == Some(true) <==>
              forall x, y :: OnBoard(x, y) && From(x, y, r, c) ==> g[x][y] == Some(false)
    ensures ScanFrom(g, r, c) == Some(false) ==>
              exists x, y :: OnBoard(x, y) && From(x, y, r, c) && g[x][y] == Some(true)
  {
    if r < 8 {
      if c == 8 {
        ScanMeaning(g, r + 1, 0);
      } else {
        ScanMeaning(g, r, c + 1);
        assert From(r, c, r, c);
      }
    }
  }

  /** A square's outcome is `Some(false)` exactly when it holds no piece of `color` or that
      piece is stuck, and `Some(true)` only when that piece has a move out of check. */
  lemma SquareMeaning(board: Board, color: string, x: int, y: int)
    requires IsBoard(board) && OnBoard(x, y)
    ensures SquareOutcome(board, color, x, y) == Some(false) <==>
              !Own(board, color, x, y) || Stuck(board, color, x, y)
    ensures SquareOutcome(board, color, x, y) == Some(true) ==>
              Own(board, color, x, y) && Escapes(board, color, x, y)
  {
    var moves := ValidMoves(board, board[x][y], x, y);
    if Own(board, color, x, y) && moves.Some? {
      EscapeMeaning(Outcomes(board, color, x, y, moves.value), 0);
    }
  }

  /** `is_checkmate` is true exactly when the king is in check and every move of every piece
      of `color` leaves it in check; it is false only when the king is not in check or some
      move gets it out; and it is false whenever the king is not in check. */
  lemma CheckmateMeaning(board: Board, color: string)
    requires IsBoard(board)
    ensures Checkmate(board, color) == Some(true) <==>
              InCheck(board, color) == Some(true) &&
              forall x, y :: OnBoard(x, y) && Own(board, color, x, y) ==> Stuck(board, color, x, y)
    ensures Checkmate(board, color) == Some(false) ==>
              InCheck(board, color) == Some(false) ||
              exists x, y :: OnBoard(x, y) && Own(board, color, x, y) && Escapes(board, color, x, y)
    ensures InCheck(board, color) == Some(false) ==> Checkmate(board, color) == Some(false)
  {
    var g := Grid(board, color);
    ScanMeaning(g, 0, 0);
    forall x, y | OnBoard(x, y)
      ensures g[x][y] == Some(false) <==> !Own(board, color, x, y) || Stuck(board, color, x, y)
      ensures g[x][y] == Some(true) ==> Own(board, color, x, y) && Escapes(board, color, x, y)
    {
      SquareMeaning(board, color, x, y);
    }
  }

  method IsCheckmate(board: Board, color: string) returns (mate: Option<bool>)
    requires IsBoard(board)
    ensures mate == Checkmate(board, color)
  {
    var check := IsInCheck(board, color);
    if check.None? {
      return None;
    }
    if !check.value {
      return Some(false);
    }
    ghost var grid := Grid(board, color);
    for row := 0 to 8
      invariant ScanFrom(grid, row, 0) == Checkmate(board, color)
    {
      for col := 0 to 8
        invariant ScanFrom(grid, row, col) == Checkmate(board, color)
      {
        var piece := board[row][col];
        if piece != Empty && [piece[0]] == color {
          var moves := GenerateMoves(board, piece, row, col);
          if moves.None? {
            return None;
          }
          var ms := moves.value;
          ghost var outs := Outcomes(board, color, row, col, ms);
          for j := 0 to |ms|
            invariant FirstEscape(outs, j) == FirstEscape(outs, 0)
          {
            var move := ms[j];
            var tempBoard := board;
            var target := if move.0 < 0 then move.0 + 8 else move.0;
            tempBoard := tempBoard[target := tempBoard[target][move.1 := piece]];
            tempBoard := tempBoard[row := tempBoard[row][col := Empty]];
            assert tempBoard == Moved(board, piece, row, col, move);
            var inCheck := IsInCheck(tempBoard, color);
            if inCheck.None? {
              return None;
            }
            if !inCheck.value {
              return Some(false);
            }
          }
        }
      }
    }
    return Some(true);
  }
}
