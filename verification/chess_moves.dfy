/** Move generation on an 8 x 8 board of two-character squares: `"--"` is an empty square and a
    piece is a colour letter (`'w'` or `'b'`) followed by a type letter (`P R N B Q K`). A move
    is a `(row, column)` pair. */
module ChessMoves {
  import opened Wrappers

  type Board = seq<seq<string>>
  type Pos = (int, int)

  const Empty: string := "--"

  /** `range(1, 8)`: a sliding piece looks at most seven squares along a direction. */
  const Reach: nat := 7

  /** Eight rows of eight squares of two characters each. */
  predicate IsBoard(board: Board) {
    |board| == 8 &&
    (forall r :: 0 <= r < 8 ==> |board[r]| == 8) &&
    (forall r, c :: 0 <= r < 8 && 0 <= c < 8 ==> |board[r][c]| == 2)
  }

  predicate OnBoard(r: int, c: int) {
    0 <= r < 8 && 0 <= c < 8
  }

  /** A piece of colour `color` may land on `(r, c)`: the square is empty or holds a piece
      whose colour letter differs. */
  predicate Landable(board: Board, color: char, r: int, c: int)
    requires IsBoard(board) && OnBoard(r, c)
  {
    board[r][c] == Empty || board[r][c][0] != color
  }

  const RookDirs: seq<Pos> := [(1, 0), (-1, 0), (0, 1), (0, -1)]
  const BishopDirs: seq<Pos> := [(1, 1), (-1, -1), (1, -1), (-1, 1)]
  const QueenDirs: seq<Pos> := [(1, 0), (-1, 0), (0, 1), (0, -1), (1, 1), (-1, -1), (1, -1), (-1, 1)]
  const KingDirs: seq<Pos> := [(1, 0), (-1, 0), (0, 1), (0, -1), (1, 1), (-1, -1), (1, -1), (-1, 1)]
  const KnightDirs: seq<Pos> := [(2, 1), (2, -1), (-2, 1), (-2, -1), (1, 2), (1, -2), (-1, 2), (-1, -2)]

  /** The one-step target `(row + dr, col + dc)` when the piece may land there. */
  function StepAt(board: Board, color: char, row: int, col: int, d: Pos): seq<Pos>
    requires IsBoard(board)
  {
    var r, c := row + d.0, col + d.1;
    if OnBoard(r, c) && Landable(board, color, r, c) then [(r, c)] else []
  }

  /** The moves of the loop over `offsets` in `king_moves` and `knight_moves`. */
  function Steps(board: Board, color: char, row: int, col: int, offsets: seq<Pos>): (ms: seq<Pos>)
    requires IsBoard(board)
    ensures |ms| <= |offsets|
    ensures forall m :: m in ms ==> OnBoard(m.0, m.1)
  {
    if offsets == [] then []
    else Steps(board, color, row, col, offsets[..|offsets| - 1]) +
         StepAt(board, color, row, col, offsets[|offsets| - 1])
  }

  /** The last offset's target, if it may be landed on, comes after the targets of the others. */
  lemma StepsSnoc(board: Board, color: char, row: int, col: int, offsets: seq<Pos>)
    requires IsBoard(board) && offsets != []
    ensures var init := offsets[..|offsets| - 1];
      offsets == init + [offsets[|offsets| - 1]] &&
      Steps(board, color, row, col, offsets) ==
      Steps(board, color, row, col, init) + StepAt(board, color, row, col, offsets[|offsets| - 1])
  {
  }

  /** A one-step generator returns only targets of its offsets that lie on the board on an
      empty or opponent square. */
  lemma {:induction false} StepsSound(board: Board, color: char, row: int, col: int, offsets: seq<Pos>)
    requires IsBoard(board)
    ensures forall m :: m in Steps(board, color, row, col, offsets) ==>
              OnBoard(m.0, m.1) && Landable(board, color, m.0, m.1) && (m.0 - row, m.1 - col) in offsets
  {
    if offsets != [] {
      StepsSnoc(board, color, row, col, offsets);
      StepsSound(board, color, row, col, offsets[..|offsets| - 1]);
    }
  }

  /** A one-step generator returns every target of its offsets that lies on the board on an
      empty or opponent square. */
  lemma {:induction false} StepsComplete(board: Board, color: char, row: int, col: int, offsets: seq<Pos>)
    requires IsBoard(board)
    ensures forall d :: d in offsets ==>
              (OnBoard(row + d.0, col + d.1) && Landable(board, color, row + d.0, col + d.1) ==>
                 (row + d.0, col + d.1) in Steps(board, color, row, col, offsets))
  {
    if offsets != [] {
      var init := offsets[..|offsets| - 1];
      StepsSnoc(board, color, row, col, offsets);
      StepsComplete(board, color, row, col, init);
      forall d | d in offsets
        ensures OnBoard(row + d.0, col + d.1) && Landable(board, color, row + d.0, col + d.1) ==>
                  (row + d.0, col + d.1) in Steps(board, color, row, col, offsets)
      {
        if d != offsets[|offsets| - 1] {
          assert d in init;
        }
      }
    }
  }

  /** The `for dr, dc in ...` loop of `king_moves` and `knight_moves`. */
  method StepMoves(board: Board, piece: string, row: int, col: int, offsets: seq<Pos>) returns (moves: seq<Pos>)
    requires IsBoard(board) && |piece| >= 1
    ensures moves == Steps(board, piece[0], row, col, offsets)
  {
    moves := [];
    for k := 0 to |offsets|
      invariant moves == Steps(board, piece[0], row, col, offsets[..k])
    {
      var (dr, dc) := offsets[k];
      var newRow, newCol := row + dr, col + dc;
      if 0 <= newRow < 8 && 0 <= newCol < 8 {
        if board[newRow][newCol] == Empty || board[newRow][newCol][0] != piece[0] {
          moves := moves + [(newRow, newCol)];
        }
      }
      assert offsets[..k + 1][..k] == offsets[..k];
    }
    assert offsets[..|offsets|] == offsets;
  }

  /** `king_moves(board, piece, start_pos)`: at most eight moves, each one square away on the
      board and onto an empty or opponent square. */
  method KingMoves(board: Board, piece: string, row: int, col: int) returns (moves: seq<Pos>)
    requires IsBoard(board) && |piece| >= 1
    ensures moves == Steps(board, piece[0], row, col, KingDirs)
    ensures |moves| <= 8
    ensures forall m :: m in moves ==>
              (OnBoard(m.0, m.1) && Landable(board, piece[0], m.0, m.1) && (m.0 - row, m.1 - col) in KingDirs)
    ensures forall d :: d in KingDirs ==>
              (OnBoard(row + d.0, col + d.1) && Landable(board, piece[0], row + d.0, col + d.1) ==>
                 (row + d.0, col + d.1) in moves)
  {
    moves := StepMoves(board, piece, row, col, KingDirs);
    StepsSound(board, piece[0], row, col, KingDirs);
    StepsComplete(board, piece[0], row, col, KingDirs);
  }

  /** `knight_moves(board, piece, start_pos)`: at most eight moves, each an L-shaped jump on
      the board onto an empty or opponent square. */
  method KnightMoves(board: Board, piece: string, row: int, col: int) returns (moves: seq<Pos>)
    requires IsBoard(board) && |piece| >= 1
    ensures moves == Steps(board, piece[0], row, col, KnightDirs)
    ensures |moves| <= 8
    ensures forall m :: m in moves ==>
              (OnBoard(m.0, m.1) && Landable(board, piece[0], m.0, m.1) && (m.0 - row, m.1 - col) in KnightDirs)
    ensures forall d :: d in KnightDirs ==>
              (OnBoard(row + d.0, col + d.1) && Landable(board, piece[0], row + d.0, col + d.1) ==>
                 (row + d.0, col + d.1) in moves)
  {
    moves := StepMoves(board, piece, row, col, KnightDirs);
    StepsSound(board, piece[0], row, col, KnightDirs);
    StepsComplete(board, piece[0], row, col, KnightDirs);
  }

  /** The squares that the inner loop of `linear_moves` appends, starting at `(r, c)` with
      `steps` iterations left and moving by `(dr, dc)`: empty squares, then an opponent's
      square if one comes first; it stops at the edge, at an own piece, or when the steps run
      out. */
  function Ray(board: Board, color: char, r: int, c: int, dr: int, dc: int, steps: nat): (ms: seq<Pos>)
    requires IsBoard(board)
    decreases steps
    ensures |ms| <= steps
    ensures forall j :: 0 <= j < |ms| ==> OnBoard(ms[j].0, ms[j].1)
  {
    if steps == 0 || !OnBoard(r, c) then []
    else if board[r][c] == Empty then [(r, c)] + Ray(board, color, r + dr, c + dc, dr, dc, steps - 1)
    else if board[r][c][0] != color then [(r, c)]
    else []
  }

  /** A ray starts at `(r, c)` and holds consecutive squares along its line, all on the board;
      every one but the last is empty and the last is empty or an opponent's. */
  lemma {:induction false} RayCells(board: Board, color: char, r: int, c: int, dr: int, dc: int, steps: nat)
    requires IsBoard(board)
    decreases steps
    ensures var ms := Ray(board, color, r, c, dr, dc, steps);
      (ms != [] ==> ms[0] == (r, c)) &&
      (forall j :: 0 <= j < |ms| ==> Landable(board, color, ms[j].0, ms[j].1)) &&
      (forall j :: 0 <= j < |ms| - 1 ==>
         board[ms[j].0][ms[j].1] == Empty && ms[j + 1] == (ms[j].0 + dr, ms[j].1 + dc))
  {
    if steps > 0 && OnBoard(r, c) && board[r][c] == Empty {
      var rest := Ray(board, color, r + dr, c + dc, dr, dc, steps - 1);
      RayCells(board, color, r + dr, c + dc, dr, dc, steps - 1);
      var ms := [(r, c)] + rest;
      assert ms == Ray(board, color, r, c, dr, dc, steps);
      forall j | 0 <= j < |ms|
        ensures Landable(board, color, ms[j].0, ms[j].1)
        ensures j < |ms| - 1 ==> board[ms[j].0][ms[j].1] == Empty && ms[j + 1] == (ms[j].0 + dr, ms[j].1 + dc)
      {
        if j > 0 {
          assert ms[j] == rest[j - 1];
        }
      }
    }
  }

  /** A ray that holds nothing, or ends on an empty square with steps to spare, ends because the
      square after it is off the board or holds an own piece. */
  lemma {:induction false} RayEnd(board: Board, color: char, r: int, c: int, dr: int, dc: int, steps: nat)
    requires IsBoard(board)
    decreases steps
    ensures var ms := Ray(board, color, r, c, dr, dc, steps);
      ms == [] && steps > 0 ==> !OnBoard(r, c) || board[r][c][0] == color
    ensures var ms := Ray(board, color, r, c, dr, dc, steps);
      ms != [] && |ms| < steps && board[ms[|ms| - 1].0][ms[|ms| - 1].1] == Empty ==>
        var next := (ms[|ms| - 1].0 + dr, ms[|ms| - 1].1 + dc);
        !OnBoard(next.0, next.1) || board[next.0][next.1][0] == color
  {
    if steps > 0 && OnBoard(r, c) && board[r][c] == Empty {
      var rest := Ray(board, color, r + dr, c + dc, dr, dc, steps - 1);
      RayEnd(board, color, r + dr, c + dc, dr, dc, steps - 1);
      var ms := [(r, c)] + rest;
      assert ms == Ray(board, color, r, c, dr, dc, steps);
      if rest != [] {
        assert ms[|ms| - 1] == rest[|rest| - 1];
      }
    }
  }

  /** `row + d * (i + 1) == (row + d * i) + d`: the loop's next square is one step further. */
  lemma StepAlong(row: int, d: int, i: int)
    ensures row + d * (i + 1) == row + d * i + d
  {
  }

  /** `linear_moves(board, piece, start_pos, directions)`: the rays of the directions, in
      order. */
  function Linear(board: Board, color: char, row: int, col: int, dirs: seq<Pos>): (ms: seq<Pos>)
    requires IsBoard(board)
    ensures forall j :: 0 <= j < |ms| ==> OnBoard(ms[j].0, ms[j].1)
  {
    if dirs == [] then []
    else Ray(board, color, row + dirs[0].0, col + dirs[0].1, dirs[0].0, dirs[0].1, Reach) +
         Linear(board, color, row, col, dirs[1..])
  }

  /** The moves for two lists of directions are the moves for their concatenation. */
  lemma {:induction false} LinearAppend(board: Board, color: char, row: int, col: int, d1: seq<Pos>, d2: seq<Pos>)
    requires IsBoard(board)
    ensures Linear(board, color, row, col, d1 + d2) ==
            Linear(board, color, row, col, d1) + Linear(board, color, row, col, d2)
  {
    if d1 == [] {
      assert d1 + d2 == d2;
    } else {
      assert (d1 + d2)[0] == d1[0] && (d1 + d2)[1..] == d1[1..] + d2;
      LinearAppend(board, color, row, col, d1[1..], d2);
    }
  }

  /** An empty square starts the ray through it, ahead of the ray from the next square. */
  lemma RayStep(board: Board, color: char, r: int, c: int, dr: int, dc: int, steps: nat, moves: seq<Pos>)
    requires IsBoard(board) && steps > 0 && OnBoard(r, c) && board[r][c] == Empty
    ensures (moves + [(r, c)]) + Ray(board, color, r + dr, c + dc, dr, dc, steps - 1) ==
            moves + Ray(board, color, r, c, dr, dc, steps)
  {
    var rest := Ray(board, color, r + dr, c + dc, dr, dc, steps - 1);
    assert Ray(board, color, r, c, dr, dc, steps) == [(r, c)] + rest;
    assert (moves + [(r, c)]) + rest == moves + ([(r, c)] + rest);
  }

  /** The square `i` steps from `p` along `d`, one step at a time. */
  function Along(p: int, d: int, i: nat): int {
    if i == 0 then p else Along(p, d, i - 1) + d
  }

  /** `i` steps of `d` from `p` reach `p + d * i`, the square the loop computes. */
  lemma {:induction false} AlongIs(p: int, d: int, i: nat)
    ensures Along(p, d, i) == p + d * i
  {
    if i > 0 {
      AlongIs(p, d, i - 1);
      StepAlong(p, d, i - 1);
    }
  }

  /** The inner `for i in range(1, 8)` loop of `linear_moves` for one direction. */
  method RayMoves(board: Board, piece: string, row: int, col: int, dr: int, dc: int) returns (moves: seq<Pos>)
    requires IsBoard(board) && |piece| >= 1
    ensures moves == Ray(board, piece[0], row + dr, col + dc, dr, dc, Reach)
  {
    moves := [];
    ghost var color := piece[0];
    ghost var whole := Ray(board, color, row + dr, col + dc, dr, dc, Reach);
    var i := 1;
    ghost var r, c, k: nat := row + dr, col + dc, Reach;
    while i < 8
      invariant 1 <= i <= 8 && k == 8 - i
      invariant r == Along(row, dr, i) && c == Along(col, dc, i)
      invariant moves + Ray(board, color, r, c, dr, dc, k) == whole
    {
      AlongIs(row, dr, i);
      AlongIs(col, dc, i);
      var newRow, newCol := row + dr * i, col + dc * i;
      assert newRow == r && newCol == c;
      if 0 <= newRow < 8 && 0 <= newCol < 8 {
        if board[newRow][newCol] == Empty {
          RayStep(board, color, r, c, dr, dc, k, moves);
          moves := moves + [(newRow, newCol)];
        } else if board[newRow][newCol][0] != piece[0] {
          moves := moves + [(newRow, newCol)];
          break;
        } else {
          break;
        }
      } else {
        break;
      }
      i := i + 1;
      r, c, k := r + dr, c + dc, k - 1;
    }
  }

  method LinearMoves(board: Board, piece: string, row: int, col: int, dirs: seq<Pos>) returns (moves: seq<Pos>)
    requires IsBoard(board) && |piece| >= 1
    ensures moves == Linear(board, piece[0], row, col, dirs)
  {
    moves := [];
    ghost var whole := Linear(board, piece[0], row, col, dirs);
    for k := 0 to |dirs|
      invariant moves + Linear(board, piece[0], row, col, dirs[k..]) == whole
    {
      var ray := RayMoves(board, piece, row, col, dirs[k].0, dirs[k].1);
      LinearStep(board, piece[0], row, col, dirs, k, moves);
      moves := moves + ray;
    }
  }

  /** The rays still to collect are the next direction's ray, then the rest. */
  lemma LinearStep(board: Board, color: char, row: int, col: int, dirs: seq<Pos>, k: nat, moves: seq<Pos>)
    requires IsBoard(board) && k < |dirs|
    ensures moves + Linear(board, color, row, col, dirs[k..]) ==
            (moves + Ray(board, color, row + dirs[k].0, col + dirs[k].1, dirs[k].0, dirs[k].1, Reach)) +
            Linear(board, color, row, col, dirs[k + 1..])
  {
    assert dirs[k..][1..] == dirs[k + 1..];
  }

  /** `rook_moves`, `bishop_moves` and `queen_moves`: `linear_moves` with the four straight,
      the four diagonal and all eight directions. */
  function RookMoves(board: Board, piece: string, row: int, col: int): seq<Pos>
    requires IsBoard(board) && |piece| >= 1
  {
    Linear(board, piece[0], row, col, RookDirs)
  }

  function BishopMoves(board: Board, piece: string, row: int, col: int): seq<Pos>
    requires IsBoard(board) && |piece| >= 1
  {
    Linear(board, piece[0], row, col, BishopDirs)
  }

  function QueenMoves(board: Board, piece: string, row: int, col: int): seq<Pos>
    requires IsBoard(board) && |piece| >= 1
  {
    Linear(board, piece[0], row, col, QueenDirs)
  }

  /** A queen moves as a rook followed by a bishop. */
  lemma QueenIsRookAndBishop(board: Board, piece: string, row: int, col: int)
    requires IsBoard(board) && |piece| >= 1
    ensures QueenMoves(board, piece, row, col) ==
            RookMoves(board, piece, row, col) + BishopMoves(board, piece, row, col)
  {
    assert QueenDirs == RookDirs + BishopDirs;
    LinearAppend(board, piece[0], row, col, RookDirs, BishopDirs);
  }

  /** The row Python reads for `board[r]` with `r` in `-8 .. 7`. */
  function PyRow(r: int): int
    requires -8 <= r < 8
  {
    if r < 0 then r + 8 else r
  }

  /** `row + direction`: up (-1) for a white pawn, down (+1) for any other. */
  function Forward(piece: string, row: int): int
    requires |piece| >= 1
  {
    row + if piece[0] == 'w' then -1 else 1
  }

  /** Whether the pawn stands on its starting row: row 6 for white, row 1 for black. */
  predicate OnStartRow(piece: string, row: int)
    requires |piece| >= 1
  {
    (piece[0] == 'w' && row == 6) || (piece[0] == 'b' && row == 1)
  }

  /** `pawn_moves(board, piece, start_pos)`. `row + direction` is not checked, so a white pawn on
      row 0 reads row -1, which Python takes as row 7, and a pawn of any other colour on row 7
      raises `IndexError` (`None`). */
  function PawnMoves(board: Board, piece: string, row: int, col: int): (r: Option<seq<Pos>>)
    requires IsBoard(board) && |piece| >= 1 && OnBoard(row, col)
    ensures r.None? <==> Forward(piece, row) == 8
    ensures r.Some? ==> forall m :: m in r.value ==> -1 <= m.0 < 8 && 0 <= m.1 < 8
  {
    var f := Forward(piece, row);
    if f == 8 then None
    else
      var ahead := board[PyRow(f)];
      var straight :=
        if ahead[col] == Empty then
          [(f, col)] +
          if OnStartRow(piece, row) && board[2 * f - row][col] == Empty then [(2 * f - row, col)] else []
        else [];
      var left := if col > 0 && ahead[col - 1] != Empty && ahead[col - 1][0] != piece[0] then [(f, col - 1)] else [];
      var right := if col < 7 && ahead[col + 1] != Empty && ahead[col + 1][0] != piece[0] then [(f, col + 1)] else [];
      Some(straight + left + right)
  }

  /** A pawn moves one square forward only onto an empty square; two squares only from its
      starting row with both squares empty; diagonally one square only onto a piece of another
      colour; and every such move is generated. */
  lemma PawnRules(board: Board, piece: string, row: int, col: int)
    requires IsBoard(board) && |piece| >= 1 && OnBoard(row, col)
    ensures PawnMoves(board, piece, row, col).Some? ==>
      var f := Forward(piece, row);
      var ms := PawnMoves(board, piece, row, col).value;
      |ms| <= 4 &&
      ((f, col) in ms <==> board[PyRow(f)][col] == Empty) &&
      ((2 * f - row, col) in ms <==>
         OnStartRow(piece, row) && board[PyRow(f)][col] == Empty && board[2 * f - row][col] == Empty) &&
      ((f, col - 1) in ms <==>
         col > 0 && board[PyRow(f)][col - 1] != Empty && board[PyRow(f)][col - 1][0] != piece[0]) &&
      ((f, col + 1) in ms <==>
         col < 7 && board[PyRow(f)][col + 1] != Empty && board[PyRow(f)][col + 1][0] != piece[0]) &&
      (forall m :: m in ms ==> m in {(f, col), (2 * f - row, col), (f, col - 1), (f, col + 1)})
  {
  }

  /** `valid_moves(board, piece, start_pos)`: dispatch on the type letter `piece[1]`; an
      unknown type has no moves. Only a pawn that would step onto row 8 fails (`IndexError`),
      and every move has a column on the board and a row in `-1 .. 7`. */
  function ValidMoves(board: Board, piece: string, row: int, col: int): (r: Option<seq<Pos>>)
    requires IsBoard(board) && |piece| >= 2 && OnBoard(row, col)
    ensures r.None? <==> piece[1] == 'P' && Forward(piece, row) == 8
    ensures r.Some? ==> forall m :: m in r.value ==> -1 <= m.0 < 8 && 0 <= m.1 < 8
  {
    match piece[1]
    case 'P' => PawnMoves(board, piece, row, col)
    case 'R' => Some(RookMoves(board, piece, row, col))
    case 'N' => Some(Steps(board, piece[0], row, col, KnightDirs))
    case 'B' => Some(BishopMoves(board, piece, row, col))
    case 'Q' => Some(QueenMoves(board, piece, row, col))
    case 'K' => Some(Steps(board, piece[0], row, col, KingDirs))
    case _ => Some([])
  }

  /** `valid_moves` as the game runs it, through the loops of the move generators. */
  method GenerateMoves(board: Board, piece: string, row: int, col: int) returns (moves: Option<seq<Pos>>)
    requires IsBoard(board) && |piece| >= 2 && OnBoard(row, col)
    ensures moves == ValidMoves(board, piece, row, col)
  {
    var ms: seq<Pos>;
    match piece[1] {
      case 'P' =>
        return PawnMoves(board, piece, row, col);
      case 'R' =>
        ms := LinearMoves(board, piece, row, col, RookDirs);
      case 'N' =>
        ms := KnightMoves(board, piece, row, col);
      case 'B' =>
        ms := LinearMoves(board, piece, row, col, BishopDirs);
      case 'Q' =>
        ms := LinearMoves(board, piece, row, col, QueenDirs);
      case 'K' =>
        ms := KingMoves(board, piece, row, col);
      case _ =>
        ms := [];
    }
    return Some(ms);
  }
}
