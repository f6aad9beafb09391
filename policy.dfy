/** The computer's move policy: win if it can, else block the player, else
    take the centre, else a free corner, else any free cell. */
module Policy {
  import opened Wrappers
  import opened Board
  import opened Random

  /** The four corners in the order the policy lists them. */
  const Corners: seq<Index> := [0, 2, 6, 8]

  /** The members of `cands` whose cell is empty, in the order of `cands`. */
  function FreeAmong(b: Board, cands: seq<Index>): (r: seq<Index>)
    ensures forall j :: 0 <= j < |r| ==> r[j] in cands && b[r[j]] == Empty
  {
    if cands == [] then []
    else if b[cands[0]] == Empty then [cands[0]] + FreeAmong(b, cands[1..])
    else FreeAmong(b, cands[1..])
  }

  /** Every empty cell listed in `cands` is among the free ones. */
  lemma {:induction false} FreeAmongComplete(b: Board, cands: seq<Index>, c: Index)
    requires c in cands && b[c] == Empty
    ensures c in FreeAmong(b, cands)
  {
    if cands[0] != c {
      FreeAmongComplete(b, cands[1..], c);
    }
  }

  /** When no listed cell is empty, none is free. */
  lemma {:induction false} FreeAmongNone(b: Board, cands: seq<Index>)
    requires forall c :: c in cands ==> b[c] != Empty
    ensures FreeAmong(b, cands) == []
  {
    if cands != [] {
      assert cands[0] in cands;
      FreeAmongNone(b, cands[1..]);
    }
  }

  /** The indices `k..8` of the empty cells, lowest first. */
  function AvailableFrom(b: Board, k: nat): (r: seq<Index>)
    requires k <= 9
    ensures forall j :: 0 <= j < |r| ==> k <= r[j] && b[r[j]] == Empty
    decreases 9 - k
  {
    if k == 9 then []
    else if b[k] == Empty then [k] + AvailableFrom(b, k + 1)
    else AvailableFrom(b, k + 1)
  }

  /** The indices of the empty cells, lowest first. */
  function Available(b: Board): (r: seq<Index>)
    ensures forall j :: 0 <= j < |r| ==> b[r[j]] == Empty
  {
    AvailableFrom(b, 0)
  }

  lemma {:induction false} AvailableFromComplete(b: Board, k: nat, i: Index)
    requires k <= i && b[i] == Empty
    ensures i in AvailableFrom(b, k)
    decreases 9 - k
  {
    if k < i {
      AvailableFromComplete(b, k + 1, i);
    }
  }

  /** A cell is listed as available exactly when it is empty, and nothing is
      available exactly when the board is full. */
  lemma AvailableExactly(b: Board)
    ensures forall i: Index :: i in Available(b) <==> b[i] == Empty
    ensures Available(b) == [] <==> Empty !in b
  {
    forall i: Index | b[i] == Empty
      ensures i in Available(b)
    {
      AvailableFromComplete(b, 0, i);
    }
    if Empty in b {
      var i :| 0 <= i < 9 && b[i] == Empty;
      AvailableFromComplete(b, 0, i);
    }
    var r := Available(b);
    if r != [] {
      assert b[r[0]] == Empty;
    }
  }

  /** The free corners, in the order 0, 2, 6, 8. */
  function FreeCorners(b: Board): (r: seq<Index>)
    ensures forall j :: 0 <= j < |r| ==> r[j] in Corners && b[r[j]] == Empty
  {
    FreeAmong(b, Corners)
  }

  /** Whether writing mark `m` into cell `i` makes the winner check report
      `m`: exactly when, after the write, the first complete line in scan
      order holds `m`. */
  predicate TryMove(b: Board, i: Index, m: Mark)
    ensures var after := b[i := Marked(m)];
      TryMove(b, i, m) <==> exists k :: FirstComplete(after, k) && Held(after, k, m)
  {
    LineWinnerFirstAll(b[i := Marked(m)]);
    LineWinner(b[i := Marked(m)]) == Some(m)
  }

  /** Cell `i` is free and `m` written there would win. */
  predicate CanWin(b: Board, i: Index, m: Mark)
  {
    b[i] == Empty && TryMove(b, i, m)
  }

  /** The first candidate, in the order given, at which `m` would win. */
  function FirstTry(b: Board, cands: seq<Index>, m: Mark): (r: Option<Index>)
    ensures r.Some? ==> r.value in cands && TryMove(b, r.value, m)
  {
    if cands == [] then None
    else if TryMove(b, cands[0], m) then Some(cands[0])
    else FirstTry(b, cands[1..], m)
  }

  /** Reference definition: the lowest empty cell from `k` on at which `m`
      would win. */
  function LowestWin(b: Board, m: Mark, k: nat): (r: Option<Index>)
    requires k <= 9
    decreases 9 - k
  {
    if k == 9 then None
    else if CanWin(b, k, m) then Some(k)
    else LowestWin(b, m, k + 1)
  }

  lemma {:induction false} LowestWinSpec(b: Board, m: Mark, k: nat)
    requires k <= 9
    ensures LowestWin(b, m, k).Some? ==>
      var i := LowestWin(b, m, k).value;
      k <= i && CanWin(b, i, m) &&
      forall j: Index :: k <= j < i ==> !CanWin(b, j, m)
    ensures LowestWin(b, m, k).None? <==> forall j: Index :: k <= j ==> !CanWin(b, j, m)
    decreases 9 - k
  {
    if k < 9 {
      LowestWinSpec(b, m, k + 1);
    }
  }

  lemma {:induction false} FirstTryFrom(b: Board, m: Mark, k: nat)
    requires k <= 9
    ensures FirstTry(b, AvailableFrom(b, k), m) == LowestWin(b, m, k)
    decreases 9 - k
  {
    if k < 9 {
      FirstTryFrom(b, m, k + 1);
      if b[k] == Empty {
        assert AvailableFrom(b, k)[1..] == AvailableFrom(b, k + 1);
      }
    }
  }

  /** Scanning the free cells for mark `m` finds the lowest free cell at
      which `m` wins, and None when there is none. */
  lemma FirstTryAvailable(b: Board, m: Mark)
    ensures FirstTry(b, Available(b), m).None? <==> forall i: Index :: !CanWin(b, i, m)
    ensures FirstTry(b, Available(b), m).Some? ==>
      var i := FirstTry(b, Available(b), m).value;
      CanWin(b, i, m) &&
      forall j: Index :: j < i ==> !CanWin(b, j, m)
  {
    FirstTryFrom(b, m, 0);
    LowestWinSpec(b, m, 0);
  }

  /** The computer's choice on board `b`; `pick` stands for the random draw
      among free corners or free cells. It is None exactly when no cell is
      free, and otherwise a free cell. */
  function ComputerChoice(b: Board, pick: nat): (r: Option<Index>)
    ensures r.None? <==> Empty !in b
    ensures r.Some? ==> b[r.value] == Empty
  {
    AvailableExactly(b);
    var available := Available(b);
    if available == [] then None
    else if FirstTry(b, available, O).Some? then FirstTry(b, available, O)
    else if FirstTry(b, available, X).Some? then FirstTry(b, available, X)
    else if 4 in available then Some(4)
    else if FreeCorners(b) != [] then Some(FreeCorners(b)[RandomIndex(pick, |FreeCorners(b)|)])
    else Some(available[RandomIndex(pick, |available|)])
  }

  /** One scan over the free cells, as the computer runs it for "O" and
      then for "X": it stops at the first cell where the mark would win. */
  method ScanFor(b: Board, available: seq<Index>, m: Mark) returns (found: Option<Index>)
    ensures found == FirstTry(b, available, m)
  {
    var j := 0;
    while j < |available|
      invariant 0 <= j <= |available|
      invariant FirstTry(b, available[j..], m) == FirstTry(b, available, m)
    {
      assert available[j..][1..] == available[j + 1..];
      var w := CalculateWinner(b[available[j] := Marked(m)]);
      if w == Some(m) {
        return Some(available[j]);
      }
      j := j + 1;
    }
    return None;
  }

  /** The selection half of the computer's move: a scan for a win, then a
      scan for a block, then the centre, a corner, or any free cell. */
  method SelectMove(b: Board, pick: nat) returns (choice: Option<Index>)
    ensures choice == ComputerChoice(b, pick)
  {
    var available := Available(b);
    if |available| == 0 {
      return None;
    }
    choice := ScanFor(b, available, O);
    if choice.Some? {
      return;
    }
    choice := ScanFor(b, available, X);
    if choice.Some? {
      return;
    }
    if 4 in available {
      return Some(4);
    }
    var corners := FreeCorners(b);
    if |corners| > 0 {
      return Some(corners[RandomIndex(pick, |corners|)]);
    }
    return Some(available[RandomIndex(pick, |available|)]);
  }

  /** The lowest cell at which `m` would win is the one the scan finds. */
  lemma LowestIsFirst(b: Board, m: Mark, i: Index)
    requires CanWin(b, i, m)
    requires forall j: Index :: j < i ==> !CanWin(b, j, m)
    ensures FirstTry(b, Available(b), m) == Some(i)
  {
    FirstTryAvailable(b, m);
    var w := FirstTry(b, Available(b), m);
    assert w.Some?;
    assert CanWin(b, w.value, m);
    assert !(w.value < i) && !(i < w.value);
  }

  lemma AvailableNonEmpty(b: Board, i: Index)
    requires b[i] == Empty
    ensures Available(b) != []
  {
    AvailableFromComplete(b, 0, i);
  }

  /** When "O" can win, the policy plays the lowest cell that wins. */
  lemma ChoiceTakesWin(b: Board, pick: nat, i: Index)
    requires CanWin(b, i, O)
    requires forall j: Index :: j < i ==> !CanWin(b, j, O)
    ensures ComputerChoice(b, pick) == Some(i)
  {
    LowestIsFirst(b, O, i);
    AvailableNonEmpty(b, i);
  }

  /** When "O" cannot win but "X" could, the policy blocks at the lowest
      cell where "X" would win. */
  lemma ChoiceBlocks(b: Board, pick: nat, i: Index)
    requires forall j: Index :: !CanWin(b, j, O)
    requires CanWin(b, i, X)
    requires forall j: Index :: j < i ==> !CanWin(b, j, X)
    ensures ComputerChoice(b, pick) == Some(i)
  {
    FirstTryAvailable(b, O);
    LowestIsFirst(b, X, i);
    AvailableNonEmpty(b, i);
  }

  /** With neither a win nor a block, the policy takes the centre when it is
      free, else a free corner when there is one, else some free cell. */
  lemma ChoiceFallsBack(b: Board, pick: nat)
    requires Empty in b
    requires forall j: Index :: !CanWin(b, j, O) && !CanWin(b, j, X)
    ensures b[4] == Empty ==> ComputerChoice(b, pick) == Some(4)
    ensures b[4] != Empty && (exists c :: c in Corners && b[c] == Empty) ==>
      ComputerChoice(b, pick).Some? && ComputerChoice(b, pick).value in Corners
    ensures ComputerChoice(b, pick).Some? && b[ComputerChoice(b, pick).value] == Empty
  {
    AvailableExactly(b);
    FirstTryAvailable(b, O);
    FirstTryAvailable(b, X);
    if b[4] != Empty && exists c :: c in Corners && b[c] == Empty {
      var c :| c in Corners && b[c] == Empty;
      FreeAmongComplete(b, Corners, c);
    }
  }

  /** Every free corner is the outcome of some draw when the policy falls
      back to corners. */
  lemma CornerReachable(b: Board, c: Index) returns (pick: nat)
    requires forall j: Index :: !CanWin(b, j, O) && !CanWin(b, j, X)
    requires b[4] != Empty && c in Corners && b[c] == Empty
    ensures ComputerChoice(b, pick) == Some(c)
  {
    AvailableExactly(b);
    FirstTryAvailable(b, O);
    FirstTryAvailable(b, X);
    var corners := FreeCorners(b);
    FreeAmongComplete(b, Corners, c);
    var j :| 0 <= j < |corners| && corners[j] == c;
    assert RandomIndex(j, |corners|) == j;
    pick := j;
  }

  /** Every free cell is the outcome of some draw when neither the centre nor
      a corner is free. */
  lemma SideReachable(b: Board, c: Index) returns (pick: nat)
    requires forall j: Index :: !CanWin(b, j, O) && !CanWin(b, j, X)
    requires b[4] != Empty && forall k :: k in Corners ==> b[k] != Empty
    requires b[c] == Empty
    ensures ComputerChoice(b, pick) == Some(c)
  {
    AvailableExactly(b);
    FirstTryAvailable(b, O);
    FirstTryAvailable(b, X);
    var available := Available(b);
    var j :| 0 <= j < |available| && available[j] == c;
    var corners := FreeCorners(b);
    FreeAmongNone(b, Corners);
    assert RandomIndex(j, |available|) == j;
    pick := j;
  }

  /** Two "X" in the top row with "O" in the centre: the computer blocks at 2. */
  lemma BlockExample(pick: nat)
    ensures ComputerChoice([Marked(X), Marked(X), Empty, Empty, Marked(O), Empty, Empty, Empty, Empty], pick) == Some(2)
  {
    var b: Board := [Marked(X), Marked(X), Empty, Empty, Marked(O), Empty, Empty, Empty, Empty];
    forall j: Index
      ensures !CanWin(b, j, O)
    {
      var b' := b[j := Marked(O)];
      assert forall k :: 0 <= k < |Lines| ==> !Complete(b', k);
    }
    assert CanWin(b, 2, X) by {
      LineWinnerFirst(b[2 := Marked(X)], 0);
    }
    ChoiceBlocks(b, pick, 2);
  }
}
