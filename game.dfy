/** The game component: its state slots and the handlers that change them. */
module Game {
  import opened Wrappers
  import opened Board
  import opened Policy
  import opened Notice

  /** The board holds no mark at all. */
  lemma EmptyBoardCounts(m: Mark)
    ensures CountOf(EmptyBoard, m) == 0
  {
    CountAllEmpty(EmptyBoard, m);
  }

  class TicTacToeGame {
    /** The nine cells; the player writes "X", the computer "O". */
    var board: Board
    /** True while the player may move. */
    var playerTurn: bool
    /** `null` while play goes on, then the winning mark or "draw". */
    var winner: Status
    /** The promo code shown after a player win. */
    var promoCode: Option<string>
    /** Whether the end-of-game dialog is shown. */
    var showModal: bool

    /** What every handler keeps: the player has made as many moves as the
        computer, or one more while the computer is to move; a recorded
        result is the board's result; a promo code exists exactly after a
        player win and is well formed; the dialog is shown only when a
        result is recorded. */
    ghost predicate Valid()
      reads this
    {
      && CountOf(board, X) == CountOf(board, O) + (if playerTurn then 0 else 1)
      && (winner != InPlay ==> winner == Outcome(board))
      && (promoCode.Some? <==> winner == Won(X))
      && (promoCode.Some? ==> IsPromoCode(promoCode.value))
      && (showModal ==> winner != InPlay)
    }

    /** A new game: an empty board, the player to move, no result. */
    constructor ()
      ensures board == EmptyBoard && playerTurn && winner == InPlay
      ensures promoCode == None && !showModal
      ensures Valid()
    {
      board := EmptyBoard;
      playerTurn := true;
      winner := InPlay;
      promoCode := None;
      showModal := false;
      EmptyBoardCounts(X);
      EmptyBoardCounts(O);
    }

    /** The player clicks cell `i`: ignored when the cell is taken, a result
        is recorded or it is the computer's turn; otherwise "X" goes into
        cell `i` and the turn passes to the computer. */
    method HandleCellClick(i: Index)
      modifies this
      ensures var accepted := old(board)[i] == Empty && old(winner) == InPlay && old(playerTurn);
        && board == (if accepted then old(board)[i := Marked(X)] else old(board))
        && playerTurn == (if accepted then false else old(playerTurn))
      ensures winner == old(winner) && promoCode == old(promoCode) && showModal == old(showModal)
      ensures forall j: Index :: old(board)[j] != Empty ==> board[j] == old(board)[j]
      ensures old(Valid()) ==> Valid()
    {
      if board[i] != Empty || winner != InPlay || !playerTurn {
        return;
      }
      CountPlace(board, i, X, X);
      CountPlace(board, i, X, O);
      board := board[i := Marked(X)];
      playerTurn := false;
    }

    /** The computer writes "O" into cell `i` and hands the turn back. */
    method MakeMove(i: Index)
      modifies this
      ensures board == old(board)[i := Marked(O)] && playerTurn
      ensures winner == old(winner) && promoCode == old(promoCode) && showModal == old(showModal)
    {
      board := board[i := Marked(O)];
      playerTurn := true;
    }

    /** The computer's move: the cell the policy selects for draw `pick`
        gets "O"; on a full board nothing happens. */
    method ComputerMove(pick: nat)
      modifies this
      ensures var c := ComputerChoice(old(board), pick);
        if c.None? then board == old(board) && playerTurn == old(playerTurn)
        else board == old(board)[c.value := Marked(O)] && playerTurn
      ensures winner == old(winner) && promoCode == old(promoCode) && showModal == old(showModal)
      ensures forall j: Index :: old(board)[j] != Empty ==> board[j] == old(board)[j]
    {
      var choice := SelectMove(board, pick);
      if choice.Some? {
        MakeMove(choice.value);
      }
    }

    /** The end of a game with result `result`: a player win draws a promo
        code from `seed`; the dialog opens; the returned text is what goes
        to the notification sender. */
    method HandleEnd(result: Status, seed: nat) returns (message: string)
      modifies this
      ensures message == EndMessage(result, PromoCode(seed))
      ensures promoCode == (if result == Won(X) then Some(PromoCode(seed)) else old(promoCode))
      ensures showModal
      ensures board == old(board) && playerTurn == old(playerTurn) && winner == old(winner)
    {
      if result == Won(X) {
        var code := PromoCode(seed);
        promoCode := Some(code);
        message := WinText + code;
      } else {
        message := LossText;
      }
      showModal := true;
    }

    /** What runs after every change of the board or the turn: a completed
        line ends the game with its mark, else a full board ends it as a
        draw, else on the computer's turn the computer moves. `seed` is the
        promo code draw, `pick` the policy's draw; `sent` is the notice.
        The game only reacts to changes while no result is recorded, so a
        finished game sends its notice once: in the call that records it. */
    method OnBoardChange(seed: nat, pick: nat) returns (sent: Option<string>)
      requires winner == InPlay
      modifies this
      ensures match Outcome(old(board))
        case Won(m) =>
          && board == old(board) && playerTurn == old(playerTurn)
          && winner == Won(m) && showModal
          && promoCode == (if m == X then Some(PromoCode(seed)) else old(promoCode))
          && sent == Some(EndMessage(Won(m), PromoCode(seed)))
        case Draw =>
          && board == old(board) && playerTurn == old(playerTurn)
          && winner == Draw && showModal && promoCode == old(promoCode)
          && sent == Some(LossText)
        case InPlay =>
          && winner == old(winner) && promoCode == old(promoCode) && showModal == old(showModal)
          && sent == None
          && if old(playerTurn) then board == old(board) && playerTurn
             else
               && ComputerChoice(old(board), pick).Some?
               && board == old(board)[ComputerChoice(old(board), pick).value := Marked(O)]
               && playerTurn
      ensures sent.Some? <==> winner != InPlay
      ensures forall j: Index :: old(board)[j] != Empty ==> board[j] == old(board)[j]
      ensures old(Valid()) ==> Valid()
    {
      var w := CalculateWinner(board);
      if w.Some? {
        winner := Won(w.value);
        var message := HandleEnd(Won(w.value), seed);
        return Some(message);
      }
      if Empty !in board {
        winner := Draw;
        var message := HandleEnd(Draw, seed);
        return Some(message);
      }
      if !playerTurn {
        var c := ComputerChoice(board, pick).value;
        CountPlace(board, c, O, X);
        CountPlace(board, c, O, O);
        ComputerMove(pick);
      }
      return None;
    }

    /** The player closes the end-of-game dialog; nothing else changes. */
    method CloseModal()
      modifies this
      ensures !showModal
      ensures board == old(board) && playerTurn == old(playerTurn)
      ensures winner == old(winner) && promoCode == old(promoCode)
      ensures old(Valid()) ==> Valid()
    {
      showModal := false;
    }

    /** A new round: the initial state, whatever the state was. */
    method ResetGame()
      modifies this
      ensures board == EmptyBoard && playerTurn && winner == InPlay
      ensures promoCode == None && !showModal
      ensures Valid()
    {
      board := EmptyBoard;
      playerTurn := true;
      winner := InPlay;
      promoCode := None;
      showModal := false;
      EmptyBoardCounts(X);
      EmptyBoardCounts(O);
    }
  }
}
