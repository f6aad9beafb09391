# Tic-tac-toe against a heuristic computer opponent — a Dafny model

This project models the game logic of a browser tic-tac-toe component
(`frontend/src/components/TicTacToeGame.jsx`). The player plays "X" and the
computer plays "O" on a board of nine cells. After every change of the board
the component checks the eight winning lines (three rows, three columns, two
diagonals). A completed line ends the game with that line's mark. Otherwise a
full board ends it as a draw. Otherwise, on the computer's turn, the
computer replies. The computer's policy is a fixed rule list: win if it can,
else block the player, else take the centre, else a random free corner, else
a random free cell. At the end a notice goes to a notification sender. A
player win also draws a five-digit promo code.

Modules, one per concern of the component:

- `Wrappers` (`wrappers.dfy`): the `Option` type, for `null`-or-value slots.
- `Board` (`board.dfy`): marks, cells, the nine-cell board, the table of
  lines, the winner check as a function (`LineWinner`) and as the scanning
  loop the component runs (`CalculateWinner`), the end decision (`Outcome`),
  and mark counts.
- `Random` (`random.dfy`): `Math.floor(Math.random() * n)` is modelled as
  `RandomIndex(pick, n)`. An arbitrary natural number `pick` selects which
  index below `n` the draw gives.
- `Policy` (`policy.dfy`): the free cells, the hypothetical-move test
  (`TryMove`), the computer's choice as a function (`ComputerChoice`) and as
  the scanning method (`SelectMove`), and lemmas that state the rule order
  declaratively.
- `Notice` (`notice.dfy`): decimal text of numbers, the promo code and the
  end-of-game notice.
- `Game` (`game.dfy`): class `TicTacToeGame`. Its fields are the component's
  state slots `board`, `playerTurn`, `winner`, `promoCode` and `showModal`.
  Its methods are the handlers that update them. The invariant `Valid()`
  holds that the turn matches the mark counts, that a recorded result is the
  board's result, that a promo code exists exactly after a player win, and
  that the dialog is open only when a result is recorded. The click, the
  board-change handler, closing the dialog and the reset keep `Valid()`; a
  new game starts in it. The board-change handler runs only while no result
  is recorded, as the effect's triggers guarantee: a click needs no result, a
  pending reply is cancelled by any change, and the reset clears the result
  together with the board.

Inputs the model takes as parameters instead of computing them:

- the random corner or cell choice: `pick` in `ComputerMove`, `SelectMove`
  and `OnBoardChange`;
- the random promo code: `seed`, which gives the number
  `10000 + RandomIndex(seed, 90000)`;
- the notification: `HandleEnd` and `OnBoardChange` return the text that the
  component hands to its sender.

Two points where the code's behaviour is easy to misread:

- `makeMove` (lines 111-116) has no guard of its own. It relies on the
  policy only picking free cells, and on the board-change effect calling it
  only on the computer's turn while play goes on. `MakeMove` is unguarded;
  `ComputerChoice` proves the policy part.
- The win and block tests compare the winner check's result with the mark
  tried. So a trial counts exactly when the first complete line in scan
  order, after the write, holds the mark tried. An earlier line already
  complete with the other mark hides the new one. `TryMove` keeps that
  comparison.

## Model

| member | source | states |
|---|---|---|
| Board.CalculateWinner | frontend/src/components/TicTacToeGame.jsx:37-47 | the scan over the eight lines returns exactly what `LineWinner` defines: the mark of the first complete line in table order, or none |
| Board.LineWinner | frontend/src/components/TicTacToeGame.jsx:37-46 | the winner check reports nothing if and only if no line is complete; when it reports mark `m`, the first complete line in scan order holds `m` in all three cells |
| Board.LineWinnerFirst | frontend/src/components/TicTacToeGame.jsx:43-44 | the first complete line in table order decides the reported mark |
| Board.LineWinnerFirstAll | frontend/src/components/TicTacToeGame.jsx:43-44 | whichever line is the first complete one in scan order decides the reported mark |
| Board.Outcome | frontend/src/components/TicTacToeGame.jsx:17-29 | a won game has its mark on the first complete line; a draw is declared exactly when no cell is empty and no line is complete; play goes on exactly when a cell is empty and no line is complete |
| Board.DrawExample | frontend/src/components/TicTacToeGame.jsx:25-28 | the full board O X X / X O O / O X X without a line is a draw |
| Board.CountPlace | frontend/src/components/TicTacToeGame.jsx:78-80 | writing a mark into an empty cell adds one of that mark and leaves the other mark's count unchanged |
| Random.RandomIndex | frontend/src/components/TicTacToeGame.jsx:106 | the random draw among `n` candidates is an index below `n`, and every index below `n` is the result of some draw |
| Policy.FreeAmong | frontend/src/components/TicTacToeGame.jsx:105 | filtering the corners keeps only members of the list whose cell is empty |
| Policy.AvailableFrom | frontend/src/components/TicTacToeGame.jsx:85-87 | the free-cell list from index `k` holds only empty cells at index `k` or above; with `AvailableExactly` it lists every empty cell |
| Policy.AvailableExactly | frontend/src/components/TicTacToeGame.jsx:85-89 | a cell is in the free-cell list exactly when it is empty, and the list is empty exactly when the board is full |
| Policy.TryMove | frontend/src/components/TicTacToeGame.jsx:91-95 | writing mark `m` into cell `i` counts as a win exactly when, after the write, the first complete line in scan order holds `m` |
| Policy.FirstTry | frontend/src/components/TicTacToeGame.jsx:91-98 | a scan for mark `m` returns only a listed cell at which `m` would win |
| Policy.LowestWinSpec | frontend/src/components/TicTacToeGame.jsx:97-101 | the reference choice is the lowest free cell at which the mark would win, and it is none exactly when no free cell wins |
| Policy.FirstTryAvailable | frontend/src/components/TicTacToeGame.jsx:97-101 | the scan over the free cells finds the lowest free cell at which the mark would win, and none exactly when there is none |
| Policy.LowestIsFirst | frontend/src/components/TicTacToeGame.jsx:97-98 | the lowest winning free cell is the one the scan returns |
| Policy.ScanFor | frontend/src/components/TicTacToeGame.jsx:97-101 | one scan over the free cells returns exactly the first cell at which the mark would win, or none |
| Policy.ComputerChoice | frontend/src/components/TicTacToeGame.jsx:84-109 | the computer selects nothing exactly when the board is full, and otherwise an empty cell |
| Policy.SelectMove | frontend/src/components/TicTacToeGame.jsx:84-109 | the two scans, the centre test and the corner and cell draws select exactly `ComputerChoice` |
| Policy.ChoiceTakesWin | frontend/src/components/TicTacToeGame.jsx:97-98 | when "O" can win, the computer plays the lowest free cell that wins |
| Policy.ChoiceBlocks | frontend/src/components/TicTacToeGame.jsx:100-101 | when "O" cannot win and "X" could, the computer plays the lowest free cell where "X" would win |
| Policy.ChoiceFallsBack | frontend/src/components/TicTacToeGame.jsx:103-108 | with no win and no block: the centre when free, else a corner when one is free, and in every case a free cell |
| Policy.CornerReachable | frontend/src/components/TicTacToeGame.jsx:105-106 | in the corner case every free corner is chosen by some draw |
| Policy.SideReachable | frontend/src/components/TicTacToeGame.jsx:108 | when neither the centre nor a corner is free, every free cell is chosen by some draw |
| Policy.BlockExample | frontend/src/components/TicTacToeGame.jsx:100-101 | on X X _ / _ O _ / _ _ _ the computer blocks at cell 2 |
| Notice.DecimalString | frontend/src/components/TicTacToeGame.jsx:61 | the decimal text of a number is a non-empty string of digits |
| Notice.DecimalRoundTrip | frontend/src/components/TicTacToeGame.jsx:61 | reading the decimal text of a number back gives the number |
| Notice.DecimalLength | frontend/src/components/TicTacToeGame.jsx:61 | a number with `k + 1` digits is written with `k + 1` characters, the first not "0" |
| Notice.PromoCode | frontend/src/components/TicTacToeGame.jsx:60-62 | a promo code is five decimal digits, the first not "0" |
| Notice.PromoCodeValue | frontend/src/components/TicTacToeGame.jsx:60-62 | a promo code reads back as a number from 10000 to 99999, the one its draw selects |
| Notice.PromoCodeCovers | frontend/src/components/TicTacToeGame.jsx:60-62 | every number from 10000 to 99999 is the promo code of some draw |
| Notice.EndMessage | frontend/src/components/TicTacToeGame.jsx:49-56 | only a player win yields a notice carrying the promo code, which reads back from it; a draw and a computer win yield the same loss text, which carries no code |
| Game.TicTacToeGame.constructor | frontend/src/components/TicTacToeGame.jsx:4-9 | a new game has an empty board, the player to move, no result, no promo code and no dialog, and satisfies the invariant |
| Game.TicTacToeGame.HandleCellClick | frontend/src/components/TicTacToeGame.jsx:76-82 | a click changes nothing on a taken cell, after a result, or on the computer's turn; otherwise "X" goes into exactly that cell and the turn passes to the computer; no filled cell changes; the invariant is kept |
| Game.TicTacToeGame.MakeMove | frontend/src/components/TicTacToeGame.jsx:111-116 | "O" goes into exactly that cell and the turn returns to the player; nothing else changes |
| Game.TicTacToeGame.ComputerMove | frontend/src/components/TicTacToeGame.jsx:84-109 | the policy's cell gets "O" and the turn returns to the player; on a full board nothing changes; no filled cell changes |
| Game.TicTacToeGame.HandleEnd | frontend/src/components/TicTacToeGame.jsx:49-58 | a player win records a fresh promo code and the win notice; any other result yields the loss notice; the dialog opens |
| Game.TicTacToeGame.OnBoardChange | frontend/src/components/TicTacToeGame.jsx:16-35 | run only while no result is recorded: a complete line records its mark and sends its notice; else a full board records a draw and sends the loss notice; else on the computer's turn the computer plays a free cell; else nothing changes; a notice is sent exactly when this call records the result, so a finished game sends one; no filled cell changes; the invariant is kept |
| Game.TicTacToeGame.CloseModal | frontend/src/components/TicTacToeGame.jsx:242-245 | closing the dialog hides it and changes nothing else; the invariant is kept |
| Game.TicTacToeGame.ResetGame | frontend/src/components/TicTacToeGame.jsx:118-124 | whatever the state, the board is empty, the player moves, no result, no promo code and no dialog, and the invariant holds |

## Left out

- Sending the notice (`sendTelegram`, lines 64-74) is a network call whose
  failure is only logged. The model returns the text handed to it.
- The 350 ms delay before the computer's reply and its cancellation (lines
  32-33) are timing only. `OnBoardChange` applies the reply at once. So a
  reset that the source lets cancel a pending reply is not modelled.
- The spread of `Math.random` (lines 61, 106, 108) is left out. `pick` and
  `seed` stand for any outcome, and every outcome is reachable.
- Confetti (lines 126-166) is canvas drawing driven by floating-point
  animation.
- The JSX rendering (lines 168-299) is presentation only. Its close actions
  (lines 244, 258, 280) all set `showModal` to false, which `CloseModal`
  models; its "play again" button calls `resetGame`.
- HandleCellClick: the index is limited to 0-8. The rendering only produces
  those indices.
- The backend proxy (`backend/server.js`), `frontend/src/App.jsx` and
  `frontend/tailwind.config.js` are I/O plumbing and styling. They are not
  part of this model. Neither is the older copy of the component kept beside
  the backend.
