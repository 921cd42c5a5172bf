# wordle.uz game engine in Dafny

A model of the game logic of wordle.uz, an Uzbek-language Wordle written as
one React component (`src/App.js`). The model has three parts.

- The scorer `getColoring`. It labels the five positions of a guess green,
  yellow or gray against the target word, following the two-pass
  duplicate-letter rule.
- The keyboard colour merge. `handleEnter` uses it to tint the on-screen
  keys (`usedKeys`).
- The state machine formed by `handleKeyPress`, `handleBackspace` and
  `handleEnter`.

Files:

- `Colors.dfy`: the three colours and the order gray < yellow < green, with
  `Join` (the higher of two colours).
- `Scoring.dfy`: the scorer. `Tally` is the letter count. `GreenPass` and
  `YellowPass` are the two loops, each written as "the scorer's state after
  i iterations", so their contracts are the loop invariants. `Label` and
  `Verdict` give the same labels in closed form. `Score` is proved equal to
  `Verdict`. The duplicate-letter rule is stated as a count: for each
  letter, the green or yellow labels number min(occurrences in the guess,
  occurrences in the target).
- `Keyboard.dfy`: the key-colour update, as `Recolor` for one letter and
  `RecolorAll` for a guess. The source's three-way overwrite condition is
  proved to be `Join`, so a key is never downgraded. `Covers` and
  `Attained` together say that each key shows the best colour any scored
  guess gave its letter.
- `Game.dfy`: the component state, one function per handler, the invariant
  `Valid`, and runs of key events (`Run`).

A letter is a token (`string`), and a word is a sequence of tokens. This
matches the source, which keeps the guess being typed as an array of letter
strings, including the two-character letters o‘ and g‘.

`Game.Enter` scores a guess with the closed form `Verdict`.
`Scoring.Score` proves that `Verdict` equals the loop-based scorer on every
input, so the game behaves as with `getColoring`.

The length notice is raised only while the game runs, because
`handleEnter` returns early once the game is over.

`Game.Step` dispatches one input to its handler: a letter to
`handleKeyPress`, Backspace to `handleBackspace` and Enter to `handleEnter`,
as the physical keyboard (src/App.js:53-65) and the on-screen buttons do.
`Game.Run` applies a sequence of such inputs, so the states `Run` reaches
from `Start` are exactly those any sequence of handler calls can reach.

The target word and the acceptance dictionary are parameters of a game.
The model assumes a five-letter target (`|target| == WordLength`); the source
never checks this.

## Model

| member | source | states |
|---|---|---|
| Colors.Join | src/App.js:139-145 | the merged key colour is at least the old and the new colour, and is one of them |
| Colors.JoinLattice | src/App.js:135-148 | merging colours is idempotent, commutative and associative |
| Scoring.Tally | src/App.js:88-92 | the first loop's count map has exactly the target's letters as keys, each mapped to its number of occurrences |
| Scoring.GreenPass | src/App.js:94-100 | after i iterations of the green loop, exactly the matching positions below i are green and nothing is yellow. Each target letter's remaining count is its total minus the exact matches so far |
| Scoring.GreenPassLeaves | src/App.js:88-100 | after the green loop, each target letter's count equals the number of target positions holding it that the guess does not match |
| Scoring.YellowPass | src/App.js:102-112 | after i iterations of the yellow loop, positions below i carry the closed-form label. Later positions are still green-or-gray. Each count has dropped by the yellows given and never goes negative |
| Scoring.Score | src/App.js:86-115 | getColoring returns five labels equal to the closed-form verdict. Green exactly at exact matches; yellow only for a misplaced letter the target contains; gray for a letter the target lacks |
| Scoring.ClaimedPrefix | src/App.js:94-112 | over a prefix, the labels credit a letter once per exact match plus once per unmatched guess occurrence, capped by the target's unmatched occurrences |
| Scoring.ClaimedIsMin | src/App.js:86-115 | for every letter, the green-or-yellow labels on it number min(count in guess, count in target), so never more than the target holds |
| Scoring.ExhaustedAt | src/App.js:103-111 | an unmatched occurrence that finds the target's unmatched occurrences used up means the letter is fully credited |
| Scoring.GrayMeansExhausted | src/App.js:103-111 | a gray label on a letter the target contains means every occurrence of that letter in the target is already credited |
| Scoring.ScoreOfTarget | src/App.js:94-100 | guessing the target labels every position green |
| Scoring.DuplicateLetterExample | src/App.js:86-115 | target "apple", guess "eppaa" gives yellow, green, green, yellow, gray |
| Scoring.AnagramExample | src/App.js:102-112 | target "kitob", guess "tobik" gives five yellows |
| Keyboard.Recolor | src/App.js:139-145 | the three-way overwrite sets the letter's key to the join of its old and new colour, or to the new colour for a new key. Other keys are unchanged |
| Keyboard.RecolorSwap | src/App.js:137-146 | visiting two (letter, colour) pairs of a guess in either order gives the same keys, so the order of the `forEach` does not matter |
| Keyboard.RecolorAll | src/App.js:135-148 | merging a scored guess adds exactly its letters as keys and leaves other keys alone. No key is downgraded, and every guessed letter ends at least as high as each colour it was given |
| Keyboard.RecolorAllAttained | src/App.js:135-148 | after the merge, each key has either its old colour or a colour the guess gave that letter |
| Keyboard.RecolorAllKeepsCover | src/App.js:135-148 | merging one more scored guess keeps every key at least as high as every colour any guess gave its letter |
| Keyboard.RecolorAllKeepsAttained | src/App.js:135-148 | merging one more scored guess keeps every key colour one that some guess gave its letter |
| Game.KeyPress | src/App.js:73-78 | a letter is appended exactly when the game runs and fewer than five are typed; otherwise nothing changes |
| Game.Backspace | src/App.js:80-83 | while the game runs, the last typed letter is dropped (an empty guess stays empty). After the game ends nothing changes |
| Game.BackspaceUndoesKeyPress | src/App.js:73-83 | deleting right after an accepted key press restores the state |
| Game.Enter | src/App.js:117-159 | no notice after the game ends. A length notice exactly for a running game with other than five letters. An unknown-word notice exactly for a five-letter word outside the dictionary. A rejection changes nothing. An accepted guess is appended and cleared, never demotes a key, and ends the game on the target (win notice) or the sixth guess (loss notice) |
| Game.WinLightsKeysGreen | src/App.js:134-154 | a winning guess gives the win notice and turns all five of its letters green on the keyboard |
| Game.StartValid | src/App.js:7-11 | the empty starting state satisfies the invariant |
| Game.KeyPressPreservesValid | src/App.js:73-78 | typing keeps the invariant |
| Game.BackspacePreservesValid | src/App.js:80-83 | deleting keeps the invariant |
| Game.EnterKeepsWellFormed | src/App.js:117-159 | submitting keeps at most six guesses, all five-letter dictionary words. The game is over exactly when the target was guessed or six guesses were made |
| Game.EnterKeepsCover | src/App.js:131-148 | an accepted guess keeps every key at least as high as the colours all scored guesses gave its letter |
| Game.EnterKeepsAttained | src/App.js:131-148 | an accepted guess keeps every key colour one that a scored guess gave its letter |
| Game.EnterPreservesValid | src/App.js:117-159 | submitting keeps the whole invariant |
| Game.RunPreservesValid | src/App.js:73-159 | every state reachable by key events satisfies the invariant. Such a state has at most six guesses and five typed letters, and a running game has fewer than six guesses |
| Game.OverIsFinal | src/App.js:73-118 | once the game is over, no sequence of events changes anything |
| Game.KeysNeverDowngrade | src/App.js:135-148 | over any sequence of events, no key disappears or drops in colour; a green key stays green |
| Game.AtMostSixGuesses | src/App.js:152-158 | a game played from the start never holds more than six guesses |

## Left out

- Loading the two word lists with `fetch` and choosing the target at random (src/App.js:16-36). These are I/O and randomness, so the target and the dictionary are parameters.
- Loading can also produce an empty target from a trailing newline in the list. The model assumes a five-letter target instead.
- Keyboard event wiring (src/App.js:49-71). This includes mapping physical keys to the letters o‘ and g‘. The model starts from the letter token that `handleKeyPress` receives.
- Notifications, their two-second timer and the vibration (src/App.js:43-47). Each notification is modelled only as a `Notice` tag.
- Rendering of the board, the keyboard and the tutorial, and the tile colouring for display (src/App.js:161 onward).
- Character encoding. The source compares guess tokens with characters of the target string and tests membership with a substring search. For multi-character letters (o‘, g‘) these differ from token comparison. The model compares tokens, i.e. it assumes each letter is one unit of the target.
- Joining and lower-casing the guess before the dictionary lookup and the win test (src/App.js:124). Both are treated as the identity on token sequences.
- React's asynchronous state updates and stale closures. Each handler is modelled as a function from one state to the next.
