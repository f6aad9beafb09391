/** The board of one game: nine cells indexed row by row, the eight winning
    lines, and the winner check that the game runs after every change. */
module Board {
  import opened Wrappers

  /** The player's mark "X" and the computer's mark "O". */
  datatype Mark = X | O

  /** A cell is empty (`null` in the game) or holds one mark. */
  datatype Cell = Empty | Marked(mark: Mark)

  /** A cell index, 0 to 8. */
  type Index = i: nat | i < 9

  /** A board always has exactly nine cells. */
  type Board = b: seq<Cell> | |b| == 9
    witness [Empty, Empty, Empty, Empty, Empty, Empty, Empty, Empty, Empty]

  const EmptyBoard: Board := [Empty, Empty, Empty, Empty, Empty, Empty, Empty, Empty, Empty]

  /** The eight winning lines, in the order the winner check scans them:
      three rows, three columns, then the two diagonals. */
  const Lines: seq<(Index, Index, Index)> :=
    [(0, 1, 2), (3, 4, 5), (6, 7, 8),
     (0, 3, 6), (1, 4, 7), (2, 5, 8),
     (0, 4, 8), (2, 4, 6)]

  /** Line `k` is complete: its first cell is marked and the other two
      cells hold the same value as the first. */
  predicate Complete(b: Board, k: nat)
    requires k < |Lines|
  {
    b[Lines[k].0] != Empty && b[Lines[k].0] == b[Lines[k].1] && b[Lines[k].0] == b[Lines[k].2]
  }

  /** Line `k` holds mark `m` in all three cells. */
  predicate Held(b: Board, k: nat, m: Mark)
    requires k < |Lines|
  {
    b[Lines[k].0] == Marked(m) && b[Lines[k].1] == Marked(m) && b[Lines[k].2] == Marked(m)
  }

  /** The mark of the first complete line among lines `k..7`, if any. */
  function WinnerFrom(b: Board, k: nat): Option<Mark>
    requires k <= |Lines|
    decreases |Lines| - k
  {
    if k == |Lines| then None
    else if Complete(b, k) then Some(b[Lines[k].0].mark)
    else WinnerFrom(b, k + 1)
  }

  /** Line `k` is the first complete line in scan order. */
  predicate FirstComplete(b: Board, k: nat)
  {
    k < |Lines| && Complete(b, k) && forall j :: 0 <= j < k ==> !Complete(b, j)
  }

  /** The winner check: the mark of the first complete line in scan order,
      or None when no line is complete. */
  function LineWinner(b: Board): (r: Option<Mark>)
    ensures r.None? <==> forall k :: 0 <= k < |Lines| ==> !Complete(b, k)
    ensures r.Some? ==> exists k :: FirstComplete(b, k) && Held(b, k, r.value)
  {
    WinnerFromSound(b, 0);
    WinnerFrom(b, 0)
  }

  /** The winner check as the game runs it: a scan over the table of lines
      that returns at the first complete one. */
  method CalculateWinner(b: Board) returns (w: Option<Mark>)
    ensures w == LineWinner(b)
  {
    var k := 0;
    while k < |Lines|
      invariant 0 <= k <= |Lines|
      invariant WinnerFrom(b, k) == LineWinner(b)
    {
      var (p, q, r) := Lines[k];
      if b[p] != Empty && b[p] == b[q] && b[p] == b[r] {
        return Some(b[p].mark);
      }
      k := k + 1;
    }
    return None;
  }

  lemma {:induction false} WinnerFromSound(b: Board, k: nat)
    requires k <= |Lines|
    ensures WinnerFrom(b, k).Some? ==>
      exists j :: k <= j < |Lines| && Held(b, j, WinnerFrom(b, k).value) && forall i :: k <= i < j ==> !Complete(b, i)
    ensures WinnerFrom(b, k).None? <==> forall j :: k <= j < |Lines| ==> !Complete(b, j)
    decreases |Lines| - k
  {
    if k < |Lines| {
      WinnerFromSound(b, k + 1);
      if Complete(b, k) {
        assert Held(b, k, WinnerFrom(b, k).value);
      }
    }
  }

  lemma {:induction false} WinnerFromFirst(b: Board, k: nat, j: nat)
    requires k <= j < |Lines|
    requires Complete(b, j)
    requires forall i :: k <= i < j ==> !Complete(b, i)
    ensures WinnerFrom(b, k) == Some(b[Lines[j].0].mark)
    decreases j - k
  {
    if k < j {
      WinnerFromFirst(b, k + 1, j);
    }
  }

  /** The first complete line in scan order decides the winner. */
  lemma LineWinnerFirst(b: Board, k: nat)
    requires k < |Lines| && Complete(b, k)
    requires forall i :: 0 <= i < k ==> !Complete(b, i)
    ensures LineWinner(b) == Some(b[Lines[k].0].mark)
  {
    WinnerFromFirst(b, 0, k);
  }

  /** Every line that is first among the complete ones decides the winner. */
  lemma LineWinnerFirstAll(b: Board)
    ensures forall k: nat :: FirstComplete(b, k) ==> LineWinner(b) == Some(b[Lines[k].0].mark)
  {
    forall k: nat | FirstComplete(b, k)
      ensures LineWinner(b) == Some(b[Lines[k].0].mark)
    {
      LineWinnerFirst(b, k);
    }
  }

  /** What the game decides after a board change: `null` (play goes on),
      a winning mark, or "draw". */
  datatype Status = InPlay | Won(mark: Mark) | Draw

  /** The end check: a line winner first, then a full board is a draw.
      A won game has its mark on the first complete line; a draw is a full
      board with no complete line; play goes on exactly when a cell is empty
      and no line is complete. */
  function Outcome(b: Board): (r: Status)
    ensures r.Won? ==> exists k :: FirstComplete(b, k) && Held(b, k, r.mark)
    ensures r == Draw <==> Empty !in b && forall k :: 0 <= k < |Lines| ==> !Complete(b, k)
    ensures r == InPlay <==> Empty in b && forall k :: 0 <= k < |Lines| ==> !Complete(b, k)
  {
    match LineWinner(b)
    case Some(m) => Won(m)
    case None => if Empty in b then InPlay else Draw
  }

  /** The number of cells of `s` that hold mark `m`. */
  function CountOf(s: seq<Cell>, m: Mark): nat
  {
    if s == [] then 0 else (if s[0] == Marked(m) then 1 else 0) + CountOf(s[1..], m)
  }

  /** Writing mark `m` into an empty cell adds one `m` and leaves the count
      of every other mark as it was. */
  lemma {:induction false} CountPlace(s: seq<Cell>, i: nat, m: Mark, n: Mark)
    requires i < |s| && s[i] == Empty
    ensures CountOf(s[i := Marked(m)], n) == CountOf(s, n) + (if m == n then 1 else 0)
  {
    if i == 0 {
      assert s[i := Marked(m)][1..] == s[1..];
    } else {
      assert s[i := Marked(m)][1..] == s[1..][i - 1 := Marked(m)];
      CountPlace(s[1..], i - 1, m, n);
    }
  }

  /** A sequence of empty cells holds no mark. */
  lemma {:induction false} CountAllEmpty(s: seq<Cell>, m: Mark)
    requires forall i :: 0 <= i < |s| ==> s[i] == Empty
    ensures CountOf(s, m) == 0
  {
    if s != [] {
      CountAllEmpty(s[1..], m);
    }
  }

  /** A full board without a complete line: the end check calls it a draw. */
  lemma DrawExample()
    ensures Outcome([Marked(O), Marked(X), Marked(X), Marked(X), Marked(O), Marked(O), Marked(O), Marked(X), Marked(X)]) == Draw
  {
  }
}
