# Hangman round engine in Dafny

A model of the round engine of a single-player hangman game, the
`HangManGame` class. A round holds four pieces of state:

- the target word, lower-cased when the round starts;
- a character array, the reveal mask, that starts as one `_` per letter;
- the set of letters guessed so far;
- a counter of wrong guesses, which loses the round at 7.

Guessing a letter does four things:

1. It lower-cases the letter.
2. If the letter was guessed before, it answers `false` and changes nothing.
3. Otherwise it records the letter and reveals every position of the word that holds it.
4. A letter found nowhere raises the wrong-guess counter by one.

The round is won when the mask equals the word. It is over when it is won or
when the counter has reached 7.

Files:

- `letters.dfy` (module `Letters`) models case mapping. `Lower` stands for `Character.toLowerCase` and `LowerWord` for `String.toLowerCase`, restricted to ASCII.
- `engine.dfy` (module `Engine`) describes a round as a value, `Round`, and one guess as the function `Guess`. It also holds:
  - the round invariant `Inv` and the lemmas that each guess keeps it;
  - the lemmas that characterise winning;
  - `Play` and `PlayGuarded`, which run sequences of guesses;
  - a few concrete rounds.
- `game.dfy` (module `Game`) is the class `HangManGame` itself. Its fields are `word`, an `array<char>` mask, a `set<char>` of guessed letters and a `nat` counter. The constructor and `GuessLetter` fill and scan the array in loops, as the Java code does. `Model()` maps the object to its `Round`. The constructor's contract ties the new object's `Model()` to `NewRound`, and `GuessLetter`'s contract ties the new state to `Guess` on the old one.

The mask invariant is stated as "the mask equals `MaskFor(word, guessed)`":
position `i` shows `word[i]` if that letter was guessed and `_` otherwise.
This holds for every word, including words that contain `_`. The stronger
statement "a position is revealed iff its letter was guessed" needs a word
without `_` (`Engine.RevealedIffGuessed`).

A word made only of `_` characters, including the empty word (a blank line in
the word file), gives a round that is won before any guess
(`Engine.NewRoundWonIff`).

The engine itself does not stop guesses once the round is over. The caller
does that, at HangManController.java:111. So `GuessLetter` has no such
precondition. Instead it promises that a guess made while the round is not
over leaves the counter at most 7. `Engine.GuardedWrongBounded` proves the
bound for any sequence of guesses made through the caller's guard.

A repeated guess answers plain `false`, the same answer as a miss. A guess
made after the round is over is processed like any other.

## Model

| member | source | states |
|---|---|---|
| Letters.Lower | HangManGame.java:44 | the result is never an upper-case ASCII letter; `A`..`Z` map to `a`..`z` and every other character is left alone |
| Letters.LowerWord | HangManGame.java:24 | the result has the input's length, lowers each character, and is itself lower case |
| Engine.ChooseWord | HangManGame.java:22-24 | an empty list gives no word (the random index cannot be drawn); otherwise the word is the lower-cased entry at the picked index; a one-word list always gives that word |
| Engine.NewRound | HangManGame.java:22-34 | a new round has the lower-cased word (`LowerWord` of the input), an all-`_` mask of the same length, no guessed letters and no wrong guesses |
| Engine.NewRoundInv | HangManGame.java:22-34 | a new round satisfies the round invariant |
| Engine.NewRoundWonIff | HangManGame.java:104-106 | a new round is already won exactly when its word has only `_` characters (the empty word included) |
| Engine.Guess | HangManGame.java:43-65 | one guess answers true exactly when the lower-cased letter is new and occurs in the word; the word and the mask length are kept; the letter is added to the guessed set; the counter rises by at most one |
| Engine.RepeatedLetter | HangManGame.java:45-47 | a letter whose lower-case form was guessed at any earlier point answers false and leaves the round unchanged |
| Engine.RevealAddsGuess | HangManGame.java:53-58 | the scan that reveals a letter turns the mask for a guess set into the mask for that set plus the letter |
| Engine.WrongLettersAdd | HangManGame.java:60-62 | a new letter raises the number of wrong letters by one if it is not in the word, and by none if it is |
| Engine.GuessKeepsInv | HangManGame.java:43-65 | every guess keeps the invariant: the word and guesses are lower case, the mask is the mask of the guesses, and the counter equals the number of guessed letters not in the word |
| Engine.MaskCells | HangManGame.java:53-58 | the mask is as long as the word, and each cell is `_` or the word's letter there |
| Engine.RevealedIffGuessed | HangManGame.java:43-58 | for a word without `_`, a position is revealed iff its letter has been guessed |
| Engine.WonIff | HangManGame.java:104-106 | the word is guessed iff every position holds a guessed letter or `_` |
| Engine.WonIffAllLettersGuessed | HangManGame.java:104-106 | for a word without `_`, the word is guessed iff every letter of it has been guessed |
| Engine.WonIsOver | HangManGame.java:93-95 | a won round is over |
| Engine.PlayKeepsInv | HangManGame.java:43-65 | any sequence of guesses keeps the invariant and the word, gives one outcome per letter, never lowers the counter, never forgets a guessed letter, and records every letter tried |
| Engine.AllMisses | HangManGame.java:53-62 | distinct new letters that all miss each add exactly one wrong guess, leave the mask unchanged and answer false |
| Engine.AllLettersGuessedWins | HangManGame.java:43-65 | once every letter of a word without `_` has been guessed, in any order and among any other guesses, the round is won |
| Engine.GuardedWrongBounded | HangManController.java:110-113 | when guesses stop once the round is over, the counter never decreases and never passes 7 |
| Engine.RepeatIsNoOp | HangManGame.java:45-47 | guessing the same letter a second time answers false and changes nothing |
| Engine.TreeScenario | HangManGame.java:43-65 | target "tree", guesses t, r, x, e: hit, hit, miss, hit; one wrong guess; word guessed |
| Engine.DogScenario | HangManGame.java:43-95 | target "dog", seven distinct wrong guesses: counter 7, round over, word not guessed |
| Engine.HelloScenario | HangManGame.java:53-58 | target "hello", guess l: mask "__ll_" |
| Engine.CatScenario | HangManGame.java:43-106 | target "cat", guesses t, z, c, a: word guessed |
| Game.HangManGame.constructor | HangManGame.java:22-34 | the word is the lower-cased entry at the picked index; the mask is a fresh array of the word's length filled with `_`; no letters are guessed; the counter is 0; the invariant holds |
| Game.HangManGame.GuessLetter | HangManGame.java:43-65 | keeps the invariant. A repeated letter answers false and changes nothing. A new letter adds exactly its lower-case form to the set. On a hit: every matching cell shows the letter, the other cells and the counter are unchanged, and the answer is true. On a miss: the counter rises by exactly one, the mask is unchanged, and the answer is false. A guess made while the round is not over leaves the counter at most 7 |
| Game.HangManGame.GetGuessedWord | HangManGame.java:73-75 | the mask shown is the mask of the guessed letters |
| Game.HangManGame.GetGuessedLetters | HangManGame.java:84-86 | the guessed-letter set, all lower case |
| Game.HangManGame.IsWordGuessed | HangManGame.java:104-106 | holds iff every position of the word holds a guessed letter or `_` |
| Game.HangManGame.IsGameOver | HangManGame.java:93-95 | agrees with the round being lost or won; a won round is over; a round not over has fewer than 7 wrong guesses |
| Game.HangManGame.GetWrongGuesses | HangManGame.java:115-117 | the count equals the number of guessed letters that do not occur in the word |
| Game.HangManGame.GetWord | HangManGame.java:126-128 | the target word, in lower case |

## Left out

- Random word choice is left out. The index that `random.nextInt` would draw is a parameter, `pick`, of the constructor and of `ChooseWord`. Whether the choice is uniform cannot be stated here.
- Game.HangManGame.constructor: requires a non-empty word list. In Java an empty list throws at `nextInt(0)` before any object exists. That failure is modelled by `ChooseWord` returning `None`, not by the constructor.
- Lower-casing is ASCII only. Java's Unicode and locale-dependent case mappings are not modelled, nor is the 16-bit width of Java's `char`.
- The word-file loader (WordLoader.java) is left out because it is file I/O. The model takes the list of words as a sequence of strings.
- The JavaFX controller (HangManController.java) is left out: buttons, labels, drawing and alert dialogs. Its one logical guard, which ignores clicks once the round is over, appears only as `PlayGuarded` and the conditional bound in `GuessLetter`.
- The set is a `set<char>`, so the iteration order of Java's `HashSet` and the display string built from it are not modelled.
- `getGuessedLetters` in Java returns the live mutable set. The model returns its value, so aliasing of that set by callers is not captured.
