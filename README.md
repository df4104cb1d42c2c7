# brain-games game engines in Dafny

This project models the two mini-games of the brain-games web app and proves properties of them. Each game is a React component whose `useState` variables form a small state machine.

- **Card memory game** (module `MemoryMatch`, `memory_game.dfy`). A 12-card deck is built from a fixed six-entry icon table: one image card and one name card per entry. The deck is shuffled with Fisher–Yates. The player turns cards face up two at a time, and every such pair counts as one attempt. A pair matches when the image path contains the name. A matched pair's ids go to the solved list. A mismatched pair stays face up until a one-second timeout turns it back down. The game is over when the solved list is as long as the deck and at least one attempt was made.
- **Color game** (module `ColorRound`, `color_game.dfy`). Each round draws an ink color and a different word color from a fixed ten-entry palette, and puts the two answer buttons in random order. An answer scores correct when its hex code is the ink color's, and wrong otherwise. Either way a new round is drawn. A 30-step countdown ends the game, and restart resets everything.

Each component is a Dafny class whose fields are the component's state variables.

- Every handler is a method.
- The effects a handler sets off run inside that method, as calls to one method per effect. After a click, `HandleCardClick` calls `CheckPair`, the match effect keyed on `[flippedCards, solvedCards]`, and then `CheckGameOver`, the `gameOver` effect keyed on `[solvedCards, cards.length, attempts]`. Both run after every accepted click. That click always changes `flippedCards`, and when none of the `gameOver` effect's keys changed it leaves `gameOver` as it was on a valid board. After a tick, `Tick` applies the `timer === 30` check.
- The memory game's `setTimeout` body is the method `ResolveMismatch`. The field `pendingReset` holds the pair the scheduled timeout captured.
- The color game's `setInterval` callback is the method `Tick`.

The memory game's state also exists as a value, the datatype `Board`. Each event is specified by a function on boards:

- `Click`, built from `TurnCardUp`, `PairEffect` and `GameOverEffect`;
- `Timeout`;
- `Deal`.

`HandleCardClick`, `TurnUpClicked`, `CheckPair`, `CheckGameOver` and `ResolveMismatch` each ensure that the object's new `Snapshot()` is their function applied to the old snapshot. The constructor, `InitializeGame` and `HandleRestart` do not depend on the old state: they ensure `Snapshot() == Deal(Shuffled(FreshDeck(), js))`. The lemmas about these functions state what the events do and that they keep the board invariant `BoardValid`.

All randomness is supplied by the caller:

- the shuffle's `Math.floor(Math.random() * (i + 1))` values, as a sequence `js` in the order drawn, each within `[0, i]`;
- the palette indices of the color draws, with one candidate sequence for the word's rejection loop that is required to contain an index whose name differs from the ink's;
- the `Math.random()` value that picks the button order.

The model follows the code, including where it does something one might not expect:

- A match never sets `card.solved`. It only appends both ids to `solvedCards`, and the matched cards stay face up, which is what blocks clicking them again.
- The click guard checks `flipped` only.
- The solved list is a list of ids, not a set.
- The answer buttons exist only while the game runs, so `HandleButtonClick` requires `!endGame` instead of being a no-op.

## Model

| member | source | states |
|---|---|---|
| MemoryMatch.IconImages | src/MemoryGame.tsx:16-23 | the six-entry icon table, each entry an image path and a name, in source order |
| MemoryMatch.Includes | src/MemoryGame.tsx:80-85 | JavaScript's `includes`: the second string occurs as a contiguous block of the first |
| MemoryMatch.DeckCard | src/MemoryGame.tsx:27-43 | the card `createCards` pushes at position `i`: id `i`, entry `i / 2`, its image path as an Image card at even positions and its name as a Name card at odd ones, face down and unsolved |
| MemoryMatch.FreshDeck | src/MemoryGame.tsx:25-46 | the deck `createCards` returns: the cards `DeckCard(0)` to `DeckCard(11)` in build order |
| MemoryMatch.CreateCards | src/MemoryGame.tsx:25-46 | builds, with its `forEach` loop, exactly the deck `FreshDeck` |
| MemoryMatch.FreshDeckShape | src/MemoryGame.tsx:25-46 | the built deck has 12 cards; position 2k holds id 2k, kind Image, content `iconImages[k].img`; position 2k+1 holds id 2k+1, kind Name, content `iconImages[k].name`; every card's id is its position, ids are distinct, and no card is flipped or solved |
| MemoryMatch.ShuffleFrom | src/MemoryGame.tsx:48-54 | for any draws with `0 <= j <= i`, the downward swap pass returns a permutation of its input: same length, same multiset |
| MemoryMatch.Shuffled | src/MemoryGame.tsx:48-54 | `shuffleCards` on a whole deck: the downward pass from the last index, the k-th draw used at index `length - 1 - k` |
| MemoryMatch.Swap | src/MemoryGame.tsx:51 | the destructuring swap on a list: the slots `i` and `j` exchanged, every other slot unchanged, the same multiset |
| MemoryMatch.SwapSlots | src/MemoryGame.tsx:51 | the destructuring swap exchanges the two array slots and leaves the rest |
| MemoryMatch.ShuffleCards | src/MemoryGame.tsx:48-54 | the in-place array loop leaves the array equal to `Shuffled(old contents, js)`, a permutation of the old contents |
| MemoryMatch.ShuffleKeepsIdsDistinct | src/MemoryGame.tsx:48-54 | shuffling a deck with distinct ids gives a deck with distinct ids |
| MemoryMatch.DealDeck | src/MemoryGame.tsx:63 | `shuffleCards(createCards())` returns the shuffled built deck, a permutation of it |
| MemoryMatch.FindCard | src/MemoryGame.tsx:118 | `find` returns nothing exactly when no card has the id; otherwise it returns a card with that id, the first such card |
| MemoryMatch.FirstIndexOf | src/MemoryGame.tsx:118 | the first position carrying the id, or the length when there is none; no earlier card carries the id |
| MemoryMatch.IsMatch | src/MemoryGame.tsx:77-86 | the match test: the first card an image and the second a name with the image path containing the name, or the reverse |
| MemoryMatch.IsMatchSymmetric | src/MemoryGame.tsx:77-86 | the match test gives the same answer for either flip order |
| MemoryMatch.IconPairing | src/MemoryGame.tsx:16-23 | with this icon table, image path k1 contains name k2 exactly when k1 == k2 |
| MemoryMatch.MatchIffSameIcon | src/MemoryGame.tsx:77-86 | two cards of the built deck match exactly when they are the image and the name of the same icon entry (same id / 2, different kind) |
| MemoryMatch.GameOver | src/MemoryGame.tsx:110 | the `gameOver` condition: as many solved ids as cards, and at least one attempt |
| MemoryMatch.SolvedCoverIffFull | src/MemoryGame.tsx:110 | when the solved ids are distinct ids of the deck, "as many solved ids as cards" holds exactly when every card's id is solved |
| MemoryMatch.TurnUp | src/MemoryGame.tsx:127-131 | the click's `map`: every card carrying the id turned face up, the others as they were |
| MemoryMatch.TurnDown | src/MemoryGame.tsx:91-97 | the timeout's `map`: every card whose id is in the captured pair turned face down, the others as they were |
| MemoryMatch.TurnUpChangesOnlyThatCard | src/MemoryGame.tsx:127-131 | with distinct ids, the click's `map` turns that one card face up and leaves every other card as it was |
| MemoryMatch.TurnUpKeepsInvariant | src/MemoryGame.tsx:124-131 | turning up a face-down card and appending it to `flippedCards` keeps the deck and play invariants, and the appended card is the dealt card |
| MemoryMatch.SolveKeepsInvariant | src/MemoryGame.tsx:87-88 | appending a pair's ids to `solvedCards` and clearing `flippedCards` keeps the play invariant (the solved ids stay distinct and on the table) |
| MemoryMatch.TurnDownKeepsInvariant | src/MemoryGame.tsx:90-99 | turning the captured pair face down and clearing `flippedCards` keeps both invariants |
| MemoryMatch.Deal | src/MemoryGame.tsx:62-68 | the board `initializeGame` sets up for a deck: nothing turned or solved, no attempts, no timeout pending, `gameOver` from its condition |
| MemoryMatch.ClickIgnored | src/MemoryGame.tsx:118-122 | the guard of `handleCardClick`: `find` gives no card for the id, the found card is face up, or two cards are already turned |
| MemoryMatch.TurnCardUp | src/MemoryGame.tsx:124-131 | the click's update past the guard: the found card appended to `flippedCards` and the cards with the id turned face up |
| MemoryMatch.PairEffect | src/MemoryGame.tsx:74-107 | the match effect: with two cards turned, one more attempt, and either the pair's ids appended to `solvedCards` with `flippedCards` cleared, or the timeout scheduled with the pair; otherwise the board as it was |
| MemoryMatch.GameOverEffect | src/MemoryGame.tsx:109-115 | the `gameOver` effect: `gameOver` set to its condition, nothing else changed |
| MemoryMatch.Click | src/MemoryGame.tsx:117-131 | an ignored click leaves the board as it was; otherwise the turn-up followed by the match effect and the `gameOver` effect |
| MemoryMatch.Timeout | src/MemoryGame.tsx:90-99 | the timeout body: the captured pair turned face down, `flippedCards` cleared, no timeout pending |
| MemoryMatch.DealValid | src/MemoryGame.tsx:62-68 | a freshly shuffled deal with nothing turned or solved is a valid board (at most 2 turned, ids unique, a permutation of the built deck) and the game is not over |
| MemoryMatch.IgnoredClick | src/MemoryGame.tsx:117-122 | a click is ignored exactly when no card has the id, the card with it is face up, or two cards are turned; an ignored click changes nothing |
| MemoryMatch.ClickOutcome | src/MemoryGame.tsx:74-131 | an accepted click turns up exactly the clicked card and leaves every other card alone; a first card is only appended; a second counts one attempt; the pair matches exactly for the image and name of one icon entry, and then both ids are solved and `flippedCards` is cleared at once, otherwise both stay turned and the timeout is scheduled with that pair |
| MemoryMatch.ClickKeepsValid | src/MemoryGame.tsx:74-131 | a click, with its effects, keeps the board valid; in particular `flippedCards` never holds more than 2 cards |
| MemoryMatch.TimeoutKeepsValid | src/MemoryGame.tsx:90-99 | the timeout keeps the board valid; each card whose id is in the captured pair ends face down, every other card is left as it was, and afterwards each card is face up exactly when its id is solved; the solved list, attempts and `gameOver` are untouched, and `flippedCards` and the pending pair are cleared |
| MemoryMatch.GameOverIffAllSolved | src/MemoryGame.tsx:109-115 | on a valid board, `gameOver` holds exactly when an attempt was made and every card on the table is solved |
| MemoryMatch.TableIdsDistinct | src/MemoryGame.tsx:27-43 | on a valid board the cards on the table have distinct ids, and each turned card is a card of the built deck |
| MemoryMatch.MemoryGame.constructor | src/MemoryGame.tsx:56-72 | mounting runs `initializeGame`: a valid state holding the shuffled deck, with nothing turned or solved, no attempts, and the game not over |
| MemoryMatch.MemoryGame.InitializeGame | src/MemoryGame.tsx:62-68 | the state becomes `Deal(Shuffled(FreshDeck(), js))`: cards a permutation of the built deck, `flippedCards` and `solvedCards` empty, `attempts == 0`, no timeout pending, game not over; the state is valid |
| MemoryMatch.MemoryGame.HandleRestart | src/MemoryGame.tsx:134-136 | the same new state as `InitializeGame` |
| MemoryMatch.MemoryGame.HandleCardClick | src/MemoryGame.tsx:117-131 | the new state is `Click(old state, id)` (see `IgnoredClick` and `ClickOutcome`) and stays valid |
| MemoryMatch.MemoryGame.TurnUpClicked | src/MemoryGame.tsx:124-131 | appends the found card to `flippedCards` and turns the cards with that id face up; nothing else changes |
| MemoryMatch.MemoryGame.CheckPair | src/MemoryGame.tsx:74-107 | the match effect, keyed on `[flippedCards, solvedCards]`: with two cards turned it counts an attempt and either solves and clears the pair or schedules the timeout with it; otherwise nothing changes |
| MemoryMatch.MemoryGame.CheckGameOver | src/MemoryGame.tsx:109-115 | the `gameOver` effect sets `gameOver` to its condition and changes nothing else |
| MemoryMatch.MemoryGame.ResolveMismatch | src/MemoryGame.tsx:90-99 | the new state is `Timeout(old state)` (see `TimeoutKeepsValid`) and stays valid |
| ColorRound.Palette | src/colorGame.tsx:8-19 | the ten-entry palette, each entry a color name and its hex code, in source order |
| ColorRound.PaletteDistinct | src/colorGame.tsx:8-19 | palette entries have pairwise distinct names and pairwise distinct hex codes |
| ColorRound.DistinctNamesDistinctHexes | src/colorGame.tsx:118-124 | two palette entries with different names have different hex codes |
| ColorRound.InitialPairDistinct | src/colorGame.tsx:23-24 | the initial pair `colorsPaletes[0]`, `colorsPaletes[1]` are palette entries with different names |
| ColorRound.FirstAccepted | src/colorGame.tsx:60-66 | the word draw the rejection loop keeps when it starts at draw `from`: the first draw from there whose name differs from the ink's, every draw before it naming the ink color |
| ColorRound.OrderFor | src/colorGame.tsx:71-72 | the button order for the draw `r`: the ink color's button first exactly when `r < 0.5` |
| ColorRound.DrawColors | src/colorGame.tsx:57-74 | the ink color is `palette[ci]`; the word color is the first suitable draw, a palette entry with a different name; the order is `["correct","displayed"]` exactly when the draw is below 0.5 |
| ColorRound.ColorGame.constructor | src/colorGame.tsx:21-55 | mounting gives a valid state: counters and timer at zero, game running, and the round from the supplied draws |
| ColorRound.ColorGame.GenerateColors | src/colorGame.tsx:57-74 | installs the drawn round (two palette entries with different names, one of the two button orders) and changes nothing else |
| ColorRound.ColorGame.HandleButtonClick | src/colorGame.tsx:76-83 | an answer equal to the ink hex adds 1 to `correct`; any other adds 1 to `wrong`; the other counter, timer and `endGame` are unchanged; `correct + wrong` grows by exactly 1; a new round is drawn |
| ColorRound.ColorGame.ButtonHex | src/colorGame.tsx:118-124 | the hex a button reports: the ink color's for the "correct" button, the word color's for the "displayed" one |
| ColorRound.ColorGame.PressButton | src/colorGame.tsx:118-124 | the "correct" button always scores correct and the "displayed" button always scores wrong |
| ColorRound.ColorGame.Tick | src/colorGame.tsx:32-51 | while `timer < 30 && !endGame` the timer grows by 1 and `endGame` becomes true exactly when it reaches 30; otherwise nothing changes; `timer <= 30` is kept |
| ColorRound.ColorGame.HandleRestart | src/colorGame.tsx:85-91 | `correct`, `wrong` and `timer` are back to 0, `endGame` is false, and a fresh pair with different names is installed |

## Left out

- `src/App.tsx` is not part of this model. It covers screen switching, the name input and `localStorage`, which are browser I/O and UI glue.
- JSX rendering, CSS classes, upper-casing of display text, and image files are left out. Image paths are kept only as strings.
- The real-time behaviour of `setTimeout` and `setInterval` is left out. They are the explicit events `ResolveMismatch` and `Tick`. React's effect scheduling and batching are not modelled either: each handler performs the effects it sets off before it returns.
- `MemoryMatch.MemoryGame.InitializeGame` clears `pendingReset`, that is, the host cancels a pending mismatch timeout on restart. The source does not cancel it. The stale-closure race where such a timeout fires into a restarted deck is not modelled.
- The "Back to games" button's `setGameOver(false)` (src/MemoryGame.tsx:204) is navigation to the host and is not modelled.
- The card's own `onClick` guard (src/MemoryGame.tsx:156) is not modelled separately. Its `!card.solved` test is always true, because `solved` is never set, and its `!card.flipped` test repeats the handler's guard.
- `Math.random` itself is left out. The draws are inputs, so the uniformity of the shuffle, of the color draws and of the 50/50 button order is not modelled.
- The probabilistic termination of the rejection loop (src/colorGame.tsx:63-66) is not modelled. The supplied candidate sequence is required to contain an acceptable draw.
- `ColorRound.ColorGame.HandleButtonClick` requires `!endGame` rather than being a no-op once the game has ended. The answer buttons are rendered only while the game runs (src/colorGame.tsx:95), so the counters are frozen after the end because no answer can be given.
- `ColorRound.ColorGame` has a ghost field `answers`, the number of answers since the last restart. It exists only to state `correct + wrong == answers`.
