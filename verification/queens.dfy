/** The `NQueens` solver: `board[r]` is the column of the queen on row `r`, or -1 while the row
    is empty, and `_backtrack(row)` places queens row by row, trying columns left to right and
    resetting a column that leads nowhere. */
module Queens {

  function Abs(x: int): (a: nat)
    ensures a == x || a == -x
  {
    if x < 0 then -x else x
  }

  /** The length of `[-1] * n`. */
  function Size(n: int): nat {
    if n < 0 then 0 else n
  }

  /** `_is_safe(row, col)`: no queen on an earlier row is in column `col` or on a diagonal
      through `(row, col)`. */
  predicate Safe(b: seq<int>, row: nat, col: int)
    requires row <= |b|
  {
    forall i :: 0 <= i < row ==> b[i] != col && Abs(b[i] - col) != Abs(i - row)
  }

  /** Rows `0 .. k - 1` hold queens on the board, no two in a column or on a diagonal. */
  predicate Placed(b: seq<int>, k: nat) {
    k <= |b| &&
    (forall r :: 0 <= r < k ==> 0 <= b[r] < |b|) &&
    (forall i, j :: 0 <= i < j < k ==> b[i] != b[j] && Abs(b[i] - b[j]) != j - i)
  }

  /** Some complete placement of `n` queens starts with `prefix`. */
  ghost predicate Extendable(prefix: seq<int>, n: nat) {
    exists p :: |p| == n && Placed(p, n) && prefix <= p
  }

  /** A queen put in a safe column of the next row keeps the placement consistent, and only a
      safe column does. */
  lemma PlaceQueen(b: seq<int>, row: nat, col: int)
    requires row < |b| && Placed(b, row)
    ensures Placed(b[row := col], row + 1) <==> 0 <= col < |b| && Safe(b, row, col)
  {
    var c := b[row := col];
    if Placed(c, row + 1) {
      forall i | 0 <= i < row ensures b[i] != col && Abs(b[i] - col) != Abs(i - row) {
        assert c[i] == b[i] && c[row] == col;
      }
    }
  }

  /** Rows below `k` decide `Placed(b, k)`. */
  lemma PlacedPrefix(a: seq<int>, b: seq<int>, k: nat)
    requires k <= |a| == |b| && a[..k] == b[..k] && Placed(a, k)
    ensures Placed(b, k)
  {
    forall i | 0 <= i < k ensures a[i] == b[i] {
      assert a[..k][i] == b[..k][i];
    }
  }

  /** Changing row `k` or later leaves the first `k` rows. */
  lemma SamePrefix(a: seq<int>, b: seq<int>, k: nat)
    requires k < |a| == |b| && forall i :: 0 <= i < |a| && i != k ==> a[i] == b[i]
    ensures a[..k] == b[..k]
  {
  }

  /** A column that is not safe starts no complete placement. */
  lemma UnsafeDead(b: seq<int>, row: nat, col: int, n: nat)
    requires row <= |b| && !Safe(b, row, col)
    ensures !Extendable(b[..row] + [col], n)
  {
    var i :| 0 <= i < row && (b[i] == col || Abs(b[i] - col) == Abs(i - row));
    forall p | |p| == n && b[..row] + [col] <= p ensures !Placed(p, n) {
      assert p[i] == (b[..row] + [col])[i] == b[i];
      assert p[row] == (b[..row] + [col])[row] == col;
    }
  }

  /** No column below `k` of the row after `prefix` starts a complete placement. */
  ghost predicate DeadBelow(prefix: seq<int>, k: int, n: nat) {
    forall c :: 0 <= c < k ==> !Extendable(prefix + [c], n)
  }

  lemma DeadColumns(prefix: seq<int>, k: int, n: nat)
    requires DeadBelow(prefix, k, n) && !Extendable(prefix + [k], n)
    ensures DeadBelow(prefix, k + 1, n)
  {
  }

  /** A placement that can be completed can be completed through one of the `n` columns of the
      next row. */
  lemma ExtendableStep(prefix: seq<int>, n: nat)
    requires |prefix| < n
    ensures DeadBelow(prefix, n, n) ==> !Extendable(prefix, n)
  {
    if Extendable(prefix, n) {
      var p :| |p| == n && Placed(p, n) && prefix <= p;
      var c := p[|prefix|];
      assert prefix + [c] <= p;
    }
  }

  /** Two queens fit on no 2 x 2 board, so `NQueens(2).solve()` gives `[-1, -1]`. */
  lemma NoTwoQueens()
    ensures !Extendable([], 2)
  {
    forall p | |p| == 2 && [] <= p ensures !Placed(p, 2) {
      if 0 <= p[0] < 2 && 0 <= p[1] < 2 && p[0] != p[1] {
        assert Abs(p[0] - p[1]) == 1;
      }
    }
  }

  /** Four queens fit on a 4 x 4 board. */
  lemma FourQueens()
    ensures Extendable([], 4)
  {
    var p := [1, 3, 0, 2];
    forall i, j | 0 <= i < j < 4 ensures p[i] != p[j] && Abs(p[i] - p[j]) != j - i {
      if i == 0 {
        assert Abs(p[0] - p[1]) == 2 && Abs(p[0] - p[2]) == 1 && Abs(p[0] - p[3]) == 1;
      } else if i == 1 {
        assert Abs(p[1] - p[2]) == 3 && Abs(p[1] - p[3]) == 1;
      } else {
        assert Abs(p[2] - p[3]) == 2;
      }
    }
    assert Placed(p, 4);
    assert [] <= p;
  }

  class NQueens {
    const n: int
    const board: array<int>

    predicate Valid() {
      board.Length == Size(n)
    }

    /** `NQueens(n)`: an `n`-row board with every row empty. */
    constructor (n: int)
      ensures this.n == n && Valid()
      ensures forall i :: 0 <= i < board.Length ==> board[i] == -1
    {
      this.n := n;
      board := new int[Size(n)](_ => -1);
    }

    /** `_is_safe(row, col)`: reads the board, changes nothing. */
    method IsSafe(row: nat, col: int) returns (safe: bool)
      requires row <= board.Length
      ensures safe <==> Safe(board[..], row, col)
    {
      for i := 0 to row
        invariant forall j :: 0 <= j < i ==> board[j] != col && Abs(board[j] - col) != Abs(j - row)
      {
        if board[i] == col || Abs(board[i] - col) == Abs(i - row) {
          return false;
        }
      }
      return true;
    }

    /** `_backtrack(row)`, given queens on rows `0 .. row - 1` that do not attack each other.
        It succeeds exactly when some complete placement starts with those rows, and then
        leaves one on the board; at `row == n` it succeeds at once without touching the board.
        On failure the first `row` rows are as they were and every later row is empty or as it
        was. A negative `n` fails, as `range(n)` is empty and `row` never equals `n`. */
    method Backtrack(row: nat) returns (ok: bool)
      requires Valid() && row <= board.Length && Placed(board[..], row)
      modifies board
      decreases board.Length - row, 1
      ensures ok <==> n >= 0 && Extendable(old(board[..row]), board.Length)
      ensures ok ==> Placed(board[..], board.Length) && old(board[..row]) <= board[..]
      ensures row == n ==> board[..] == old(board[..])
      ensures !ok ==> board[..row] == old(board[..row])
      ensures !ok ==> forall i :: row <= i < board.Length ==> board[i] == -1 || board[i] == old(board[i])
    {
      if row == n {
        assert board[..row] == board[..];
        return true;
      }
      ghost var prefix := board[..row];
      var col := 0;
      while col < n
        invariant 0 <= col <= Size(n) && (n <= 0 || row < board.Length)
        invariant board[..row] == prefix && Placed(board[..], row)
        invariant forall i :: row <= i < board.Length ==> board[i] == -1 || board[i] == old(board[i])
        invariant DeadBelow(prefix, col, board.Length)
      {
        var safe := IsSafe(row, col);
        if safe {
          ok := TryColumn(row, col, prefix);
          if ok {
            return true;
          }
        } else {
          UnsafeDead(board[..], row, col, board.Length);
        }
        DeadColumns(prefix, col, board.Length);
        col := col + 1;
      }
      if n > 0 {
        ExtendableStep(prefix, board.Length);
      }
      return false;
    }

    /** The turn of the column loop of `_backtrack(row)` for a column `_is_safe` accepts: put
        the queen there and recurse, taking it back (`board[row] = -1`) when the recursion
        fails.
        It succeeds exactly when the rows so far followed by `col` start a complete placement;
        on failure the first `row` rows are as they were and every later row is empty or as
        it was. */
    method TryColumn(row: nat, col: int, ghost prefix: seq<int>) returns (ok: bool)
      requires Valid() && row < board.Length && 0 <= col < board.Length
      requires board[..row] == prefix && Placed(board[..], row) && Safe(board[..], row, col)
      modifies board
      decreases board.Length - row, 0
      ensures ok ==> Placed(board[..], board.Length) && prefix <= board[..]
      ensures !ok ==> !Extendable(prefix + [col], board.Length)
      ensures !ok ==> board[..row] == prefix && Placed(board[..], row)
      ensures !ok ==> forall i :: row <= i < board.Length ==> board[i] == -1 || board[i] == old(board[i])
    {
      PlaceQueen(board[..], row, col);
      ghost var before := board[..];
      board[row] := col;
      Placing(before, board[..], row, col);
      ok := Backtrack(row + 1);
      if ok {
        return true;
      }
      ghost var after := board[..];
      board[row] := -1;
      Unplacing(before, after, board[..], row, col);
    }

    /** Putting `col` on row `row` extends the rows so far by `col`. */
    static lemma Placing(before: seq<int>, placed: seq<int>, row: nat, col: int)
      requires row < |before| && placed == before[row := col]
      ensures placed[..row + 1] == before[..row] + [col]
    {
    }

    /** Taking the queen back off row `row` restores the rows so far and keeps them placed. */
    static lemma Unplacing(before: seq<int>, after: seq<int>, undone: seq<int>, row: nat, col: int)
      requires row < |before| == |after| && Placed(before, row)
      requires after[..row + 1] == before[..row] + [col] && undone == after[row := -1]
      ensures undone[..row] == before[..row] && Placed(undone, row)
    {
      assert after[..row] == after[..row + 1][..row];
      SamePrefix(after, undone, row);
      PlacedPrefix(before, undone, row);
    }

    /** `solve()`: the board after `_backtrack(0)`, a complete placement of `n` queens when one
        exists; otherwise every row is empty or as it was, so a fresh solver returns `n`
        entries of -1. */
    method Solve() returns (result: seq<int>)
      requires Valid()
      modifies board
      ensures Valid() && |result| == Size(n) && result == board[..]
      ensures n >= 0 && Extendable([], Size(n)) ==> Placed(result, Size(n))
      ensures !(n >= 0 && Extendable([], Size(n))) ==>
                forall i :: 0 <= i < |result| ==> result[i] == -1 || result[i] == old(board[i])
    {
      assert board[..0] == [];
      var ok := Backtrack(0);
      result := board[..];
    }
  }
}
