# Generalised rock-paper-scissors: a Dafny model

This project models the core of a command-line game. The game is
rock-paper-scissors generalised to any odd number of moves. The computer
commits to its move with an HMAC before the user chooses. At the end it reveals
the key, so the user can check that the move was not changed.

The model covers four parts of `game.js`:

- **The ranking rule**, `GameRules.determineWinner` (`rules.dfy`, module
  `Rules`). For two indices into a list of `n` moves it answers Draw,
  "You win!" or "You lose!". It computes `difference = (computer - user + n) % n`
  and compares it with `half = floor(n / 2)`. The model proves what the rule
  means: the user's move loses exactly to the `n / 2` moves that follow it
  round the cycle and beats the rest. It also proves these properties:
  - results are antisymmetric when `n` is odd;
  - every move has exactly `n / 2` wins and `n / 2` losses;
  - turning the cycle does not change any result;
  - the order `rock paper scissors` from the usage line gives the classic game.

  `cyclic.dfy` (module `Cyclic`) holds the remainder arithmetic on a cycle that
  these proofs rest on. The remainder is taken by removing whole laps, and a
  lemma shows that this equals the `%` operator on the non-negative operand
  the source passes to it.
- **The help table**, `GameRules.displayHelpTable` (`help_table.dfy`, module
  `HelpTable`). Only the grid of cells is modelled. Row `i` is the computer's
  move and column `j` is the user's move. Cell `(i, j)` is `determineWinner(j, i)`. So each cell is the result for the user in the column, as game.js:49
  computes it, not for the computer in the row.
- **The start-up check of the move list** (`validation.dfy`, module
  `Validation`). The list needs at least three moves, an odd count, and no
  duplicate label. The source detects duplicates by comparing the list's
  length with the size of `new Set(args)`. The model proves that this test
  is the same as "pairwise distinct". It also proves that every accepted list
  yields a fair game.
- **The game session** (`game.dfy`, module `Game`):
  - The `Game` constructor becomes `NewGame`.
  - The stdin handler becomes a pure step function over an explicit session
    value.
  - `Run` feeds a sequence of inputs through the step function until the
    session ends.

Inputs the model takes as parameters:

- The keyed hash is a parameter `h: (Key, string) -> Digest`.
- The random key is a parameter.
- The computer's random move index is a parameter below the number of moves.
- Each input arrives already classified. The handler runs once per stdin
  `data` chunk, which is usually one typed line. After trimming, a chunk is
  `Exit` (exactly `0`), `Help` (exactly `?`), `Number(k)` (any other chunk
  JavaScript reads as the integer `k`), or `Other`.

## Model

| member | source | states |
|---|---|---|
| Rules.Half | game.js:24 | `half` is `floor(n / 2)`: twice it is `n` or `n - 1` |
| Rules.Difference | game.js:25 | `difference` lies in [0, n), stepping that many places forward from the user's move reaches the computer's move, and it is 0 only when the two moves are equal |
| Rules.DifferenceIsRemainder | game.js:25 | the model's lap-removing remainder equals `(computer - user + n) % n` exactly, so `Difference` is the source's `difference` |
| Rules.DetermineWinner | game.js:20-28 | the result is Draw exactly when the two indices are equal; for distinct indices it is never Draw |
| Rules.LosesExactlyToNextHalf | game.js:23-27 | the user's move loses exactly to the moves 1..n/2 places ahead of it (mod n) and wins exactly against the moves more than n/2 places ahead |
| Rules.RotationInvariant | game.js:25 | shifting both indices by any k (mod n) leaves the result unchanged |
| Rules.DifferencesSumToLap | game.js:25 | for distinct moves, the distance one way plus the distance back is exactly n |
| Rules.Antisymmetric | game.js:23-27 | for odd n, `determineWinner(j, i)` is the opposite of `determineWinner(i, j)`: a loss one way is a win the other way |
| Rules.EvenCountBreaksAntisymmetry | game.js:23-27 | for even n the rule is not antisymmetric: moves 0 and n/2 each lose to the other, which is why the move count must be odd |
| Rules.Balanced | game.js:23-27 | each user move loses to exactly floor(n/2) computer moves and beats exactly n-1-floor(n/2) of them, which is floor(n/2) when n is odd |
| Rules.ClassicConvention | game.js:25-27 | with the moves in the usage-line order rock, paper, scissors: rock loses to paper, paper to scissors, scissors to rock, and the reverse pairings are wins, as the exact strings "You lose!" / "You win!" |
| HelpTable.Matrix | game.js:43-51 | the table is n rows of n cells; cell (i, j) equals `determineWinner(j, i)` and is Draw exactly on the diagonal |
| HelpTable.MatrixAntisymmetric | game.js:43-51 | for odd n, cells (i, j) and (j, i) hold opposite results |
| HelpTable.MatrixRowsBalanced | game.js:43-51 | for odd n, every row has exactly floor(n/2) Win cells and floor(n/2) Lose cells |
| Validation.LabelsSize | game.js:114 | the set of labels is never larger than the list, and it is the same size exactly when no label is repeated |
| Validation.Validate | game.js:113-118 | the move list is accepted, unchanged, exactly when it has at least 3 moves, an odd count and pairwise distinct labels; otherwise it is rejected with the usage error |
| Validation.AcceptedListIsFair | game.js:114 | every accepted list gives antisymmetric results and exactly floor(n/2) wins and floor(n/2) losses per move |
| Game.NewGame | game.js:62-69 | a new session is committed; the published digest is the HMAC of the computer's move label under the key; the session invariant holds |
| Game.Step | game.js:75-99 | `0` exits; `?` shows the help table and keeps the session; a number k in 1..n resolves with user index k-1 and the result against the computer's move, and reveals both moves and the key; anything else is reported invalid and keeps the session; moves, key, computer move and digest never change |
| Game.StepPreservesInvariant | game.js:78-99 | every step keeps the session invariant: valid moves, the digest matches the computer's move, and a resolved result is the rule's answer |
| Game.RevealVerifies | game.js:65-95 | the revealed key recomputes the digest published at the start over the revealed computer move; if no two labels of the list collide under that key, no other move of the list verifies |
| Game.Run | game.js:75-100 | running inputs never changes moves, key, computer move or digest, and inputs that are neither exit nor an in-range number leave the session exactly as it was |
| Game.FirstDecisiveLineSettles | game.js:75-100 | after any number of help and invalid inputs, the first exit or in-range number decides the session, and later inputs have no effect |
| Game.RunPreservesInvariant | game.js:75-100 | the session invariant holds after any sequence of inputs |

## Left out

- `KeyGenerator.generateKey` (game.js:3-7): the 32 random bytes come from Node's `crypto.randomBytes`. The key is a parameter.
- `HMACGenerator.generateHMAC` (game.js:9-13): HMAC-SHA-256 comes from Node's `crypto` library. It is a function parameter `h`. No property of SHA-256 is modelled.
- Game.RevealVerifies: binding (no other move of the list verifies) is proved only under the hypothesis that no two distinct labels of the move list have the same HMAC under the session key. Nothing about HMAC-SHA-256 is modelled, so the model cannot discharge this hypothesis; for the real hash it holds only with overwhelming probability.
- The computer's choice `Math.floor(Math.random() * moves.length)` (game.js:66) is floating-point randomness. It becomes a parameter `computer` with `computer < n`.
- Text rendering (game.js:34-41, 44, 47, 50, 57, 103-109, 115-116) is formatting and console output. This covers the table header, separators, `padEnd`, `console.log`, the menu and the "Example: node game.js rock paper scissors" line printed after a rejected move list; `Rejected` keeps only the line-115 message. Only the cell values are modelled. `Outcome.Message` gives the exact result strings.
- Process plumbing is I/O and is not modelled: `process.stdin`, `process.argv` and `process.exit` (game.js:75, 80, 95, 113, 117). An exit is the `Exited` phase or a `Rejected` check result. `Run` ignores inputs after the session has ended, which stands for the process having exited. The handler runs once per stdin `data` chunk, not once per line: with piped input one chunk can hold several lines, such as `"?\n1"`, which trims to a non-number and is reported as invalid (game.js:97). The model takes one token per chunk.
- Classifying the input chunk is not modelled (game.js:76, 84). This is JavaScript's `trim`, `isNaN` and unary `+`. Input arrives as a `Token`.
  - The source also accepts non-integer numerals such as `1.5`. Those give a fractional `userMoveIndex` (game.js:85), and the model's natural-number indices exclude them.
  - An input such as `00` or `0x0` is not exactly `0`. The source treats it as the number 0, which is out of range. In the model it is `Number(0)`, so it is invalid and does not exit.
- Secrecy, randomness quality and key reuse are not modelled. The model only states that the revealed key recomputes the published digest.
