/** The state of one hangman round as a value, the effect of one guess on it,
    and the invariants and properties a round keeps. The class in module
    Game stores the same state in place and is proved against these
    definitions. */
module Engine {
  import opened Letters

  /** Number of wrong guesses after which the round is lost. */
  const MaxGuesses: nat := 7

  /** The mask character shown for a letter not yet revealed. */
  const Placeholder: char := '_'

  datatype Option<T> = None | Some(value: T)

  /** One round: the lower-cased target word, the reveal mask, the letters
      guessed so far and the wrong-guess counter. */
  datatype Round = Round(word: string, mask: seq<char>, guessed: set<char>, wrong: nat)

  /** The word a new round plays: the lower-cased entry at the index the
      random source picked; an empty list has no index to pick. */
  function ChooseWord(words: seq<string>, pick: nat): (r: Option<string>)
    requires |words| > 0 ==> pick < |words|
    ensures r.None? <==> |words| == 0
    ensures r.Some? ==> |r.value| == |words[pick]| && IsLowerWord(r.value)
    ensures r.Some? ==> forall i :: 0 <= i < |r.value| ==> r.value[i] == Lower(words[pick][i])
    ensures |words| == 1 ==> r == Some(LowerWord(words[0]))
  {
    if |words| == 0 then None else Some(LowerWord(words[pick]))
  }

  /** All placeholders, one per letter of `word`. */
  function Hidden(word: string): seq<char> {
    seq(|word|, _ => Placeholder)
  }

  /** A fresh round for the chosen word. */
  function NewRound(word: string): (r: Round)
    ensures r.word == LowerWord(word)
    ensures |r.word| == |word| == |r.mask| && IsLowerWord(r.word)
    ensures forall i :: 0 <= i < |r.mask| ==> r.mask[i] == Placeholder
    ensures r.guessed == {} && r.wrong == 0
  {
    Round(LowerWord(word), Hidden(word), {}, 0)
  }

  /** The letters guessed that occur nowhere in the word. */
  function WrongLetters(word: string, guessed: set<char>): set<char> {
    set c | c in guessed && c !in word
  }

  /** The mask a round must show: a position is revealed exactly when the
      word's letter there has been guessed. */
  function MaskFor(word: string, guessed: set<char>): seq<char> {
    seq(|word|, i requires 0 <= i < |word| => if word[i] in guessed then word[i] else Placeholder)
  }

  /** The mask after the scan for `c`: every position of the word holding
      `c` shows `c`, every other position keeps what it showed. */
  function Reveal(word: string, mask: seq<char>, c: char): seq<char> {
    seq(|mask|, i requires 0 <= i < |mask| => if i < |word| && word[i] == c then c else mask[i])
  }

  /** The round invariant: the word and the guesses are lower case, the mask
      agrees with the guesses, and the counter counts the wrong letters. */
  ghost predicate Inv(r: Round) {
    && IsLowerWord(r.word)
    && (forall c :: c in r.guessed ==> Lower(c) == c)
    && r.mask == MaskFor(r.word, r.guessed)
    && r.wrong == |WrongLetters(r.word, r.guessed)|
  }

  predicate IsWon(r: Round) {
    r.mask == r.word
  }

  predicate IsOver(r: Round) {
    r.wrong >= MaxGuesses || IsWon(r)
  }

  /** One guess: the new round and whether the letter was in the word. A
      letter guessed before yields false and changes nothing. */
  function Guess(r: Round, letter: char): (res: (Round, bool))
    ensures res.1 <==> Lower(letter) !in r.guessed && Lower(letter) in r.word
    ensures res.0.word == r.word && |res.0.mask| == |r.mask|
    ensures res.0.guessed == r.guessed + {Lower(letter)}
    ensures r.wrong <= res.0.wrong <= r.wrong + 1
  {
    var c := Lower(letter);
    if c in r.guessed then (r, false)
    else
      var hit := c in r.word;
      (r.(mask := Reveal(r.word, r.mask, c),
          guessed := r.guessed + {c},
          wrong := if hit then r.wrong else r.wrong + 1),
       hit)
  }

  /** Revealing `c` on the mask for `guessed` gives the mask for `guessed`
      with `c` added. */
  lemma RevealAddsGuess(word: string, guessed: set<char>, c: char)
    ensures Reveal(word, MaskFor(word, guessed), c) == MaskFor(word, guessed + {c})
  {
    var a, b := Reveal(word, MaskFor(word, guessed), c), MaskFor(word, guessed + {c});
    assert |a| == |b|;
    forall i | 0 <= i < |a| ensures a[i] == b[i] { }
  }

  /** A new letter adds one wrong letter when it misses and none when it hits. */
  lemma WrongLettersAdd(word: string, guessed: set<char>, c: char)
    requires c !in guessed
    ensures |WrongLetters(word, guessed + {c})| == |WrongLetters(word, guessed)| + (if c in word then 0 else 1)
  {
    if c in word {
      assert WrongLetters(word, guessed + {c}) == WrongLetters(word, guessed);
    } else {
      assert WrongLetters(word, guessed + {c}) == WrongLetters(word, guessed) + {c};
    }
  }

  /** A fresh round starts out won exactly when its word holds nothing but
      placeholder characters (the empty word included). */
  lemma NewRoundWonIff(word: string)
    ensures IsWon(NewRound(word)) <==> forall i :: 0 <= i < |word| ==> word[i] == Placeholder
  {
    var r := NewRound(word);
    if !IsWon(r) {
      var i :| 0 <= i < |word| && r.mask[i] != r.word[i];
      assert r.word[i] == Lower(word[i]);
    }
  }

  /** A fresh round satisfies the invariant. */
  lemma NewRoundInv(word: string)
    ensures Inv(NewRound(word))
  {
    var r := NewRound(word);
    assert r.mask == MaskFor(r.word, {});
    assert WrongLetters(r.word, {}) == {};
  }

  /** Every guess keeps the invariant. */
  lemma GuessKeepsInv(r: Round, letter: char)
    requires Inv(r)
    ensures Inv(Guess(r, letter).0)
  {
    var c := Lower(letter);
    if c !in r.guessed {
      RevealAddsGuess(r.word, r.guessed, c);
      WrongLettersAdd(r.word, r.guessed, c);
    }
  }

  /** Each mask cell shows the placeholder or the word's letter there, and
      the mask is as long as the word. */
  lemma MaskCells(r: Round, i: nat)
    requires Inv(r) && i < |r.word|
    ensures |r.mask| == |r.word|
    ensures r.mask[i] == Placeholder || r.mask[i] == r.word[i]
  {
  }

  /** In a word without the placeholder character, a position is revealed
      exactly when its letter has been guessed. */
  lemma RevealedIffGuessed(r: Round, i: nat)
    requires Inv(r) && Placeholder !in r.word && i < |r.word|
    ensures r.mask[i] != Placeholder <==> r.word[i] in r.guessed
  {
  }

  /** The word is guessed exactly when every position holds a guessed letter
      or the placeholder character itself. */
  lemma WonIff(r: Round)
    requires Inv(r)
    ensures IsWon(r) <==> forall i :: 0 <= i < |r.word| ==> r.word[i] in r.guessed || r.word[i] == Placeholder
  {
    if forall i :: 0 <= i < |r.word| ==> r.word[i] in r.guessed || r.word[i] == Placeholder {
      forall i | 0 <= i < |r.word| ensures r.mask[i] == r.word[i] { }
    }
  }

  /** For a word without the placeholder character, the word is guessed
      exactly when each of its letters has been guessed. */
  lemma WonIffAllLettersGuessed(r: Round)
    requires Inv(r) && Placeholder !in r.word
    ensures IsWon(r) <==> forall c :: c in r.word ==> c in r.guessed
  {
    WonIff(r);
    if forall c :: c in r.word ==> c in r.guessed {
      forall i | 0 <= i < |r.word| ensures r.word[i] in r.guessed {
        assert r.word[i] in r.word;
      }
    }
  }

  /** A won round is over. */
  lemma WonIsOver(r: Round)
    requires IsWon(r)
    ensures IsOver(r)
  {
  }

  /** The rounds and outcomes of a sequence of guesses made one after another. */
  function Play(r: Round, letters: seq<char>): (Round, seq<bool>)
    decreases letters
  {
    if letters == [] then (r, [])
    else
      var (r1, hit) := Guess(r, letters[0]);
      var (r2, hits) := Play(r1, letters[1..]);
      (r2, [hit] + hits)
  }

  /** Guesses made the way the player's caller makes them: a letter chosen
      once the round is over is ignored. */
  function PlayGuarded(r: Round, letters: seq<char>): Round
    decreases letters
  {
    if letters == [] then r
    else if IsOver(r) then PlayGuarded(r, letters[1..])
    else PlayGuarded(Guess(r, letters[0]).0, letters[1..])
  }

  /** Any sequence of guesses keeps the invariant, gives one outcome per
      letter and never lowers the counter or forgets a guess. */
  lemma {:induction false} PlayKeepsInv(r: Round, letters: seq<char>)
    requires Inv(r)
    ensures Inv(Play(r, letters).0)
    ensures |Play(r, letters).1| == |letters|
    ensures Play(r, letters).0.wrong >= r.wrong
    ensures r.guessed <= Play(r, letters).0.guessed
    ensures Play(r, letters).0.word == r.word
    ensures forall i :: 0 <= i < |letters| ==> Lower(letters[i]) in Play(r, letters).0.guessed
    decreases letters
  {
    if letters != [] {
      GuessKeepsInv(r, letters[0]);
      PlayKeepsInv(Guess(r, letters[0]).0, letters[1..]);
    }
  }

  /** Once every letter of a word without placeholder characters has been
      guessed, in any order and among any other guesses, the word is guessed. */
  lemma AllLettersGuessedWins(word: string, letters: seq<char>)
    requires Placeholder !in word
    requires forall c :: c in word ==> exists i :: 0 <= i < |letters| && Lower(letters[i]) == Lower(c)
    ensures IsWon(Play(NewRound(word), letters).0)
  {
    var r := NewRound(word);
    NewRoundInv(word);
    PlayKeepsInv(r, letters);
    var end := Play(r, letters).0;
    forall c | c in end.word ensures c in end.guessed {
      var k :| 0 <= k < |r.word| && r.word[k] == c;
      assert word[k] in word;
      var i :| 0 <= i < |letters| && Lower(letters[i]) == Lower(word[k]);
    }
    WonIffAllLettersGuessed(end);
  }

  /** Target "cat", guesses c, a, t in an order that puts wrong letters
      between them: the word is guessed. */
  lemma CatScenario()
    ensures IsWon(Play(NewRound("cat"), "tzca").0)
  {
    var l := "tzca";
    assert l[2] == 'c' && l[3] == 'a' && l[0] == 't';
    AllLettersGuessedWins("cat", l);
  }

  /** When guesses stop once the round is over, the counter never passes
      the limit, since each guess raises it by at most one. */
  lemma {:induction false} GuardedWrongBounded(r: Round, letters: seq<char>)
    requires r.wrong <= MaxGuesses
    ensures r.wrong <= PlayGuarded(r, letters).wrong <= MaxGuesses
    decreases letters
  {
    if letters != [] {
      if IsOver(r) {
        GuardedWrongBounded(r, letters[1..]);
      } else {
        GuardedWrongBounded(Guess(r, letters[0]).0, letters[1..]);
      }
    }
  }

  /** Target "tree", guesses t, r, x, e: hit, hit, miss, hit; one wrong
      guess; the word is guessed. */
  lemma TreeScenario()
    ensures Play(NewRound("tree"), "trxe").1 == [true, true, false, true]
    ensures Play(NewRound("tree"), "trxe").0.wrong == 1
    ensures IsWon(Play(NewRound("tree"), "trxe").0)
  {
  }

  /** Distinct new letters that all miss each add one to the counter and
      leave the mask as it was. */
  lemma {:induction false} AllMisses(r: Round, letters: seq<char>)
    requires forall i :: 0 <= i < |letters| ==> Lower(letters[i]) == letters[i]
    requires forall i :: 0 <= i < |letters| ==> letters[i] !in r.word && letters[i] !in r.guessed
    requires forall i, j :: 0 <= i < j < |letters| ==> letters[i] != letters[j]
    ensures Play(r, letters).0.wrong == r.wrong + |letters|
    ensures Play(r, letters).0.mask == r.mask
    ensures Play(r, letters).0.word == r.word
    ensures Play(r, letters).1 == seq(|letters|, _ => false)
    decreases letters
  {
    if letters != [] {
      var c := letters[0];
      var r1 := Guess(r, c).0;
      assert Reveal(r.word, r.mask, c) == r.mask;
      assert forall i :: 1 <= i < |letters| ==> letters[i] != c;
      AllMisses(r1, letters[1..]);
    }
  }

  /** Target "dog", seven distinct wrong guesses: lost, not won, counter 7. */
  lemma DogScenario()
    ensures Play(NewRound("dog"), "abcefhi").0.wrong == 7
    ensures IsOver(Play(NewRound("dog"), "abcefhi").0)
    ensures !IsWon(Play(NewRound("dog"), "abcefhi").0)
  {
    var r := NewRound("dog");
    assert r.word == "dog";
    AllMisses(r, "abcefhi");
    assert Play(r, "abcefhi").0.mask[0] != 'd';
  }

  /** Target "hello", guess l: both l positions are revealed. */
  lemma HelloScenario()
    ensures Play(NewRound("hello"), "l").0.mask == "__ll_"
  {
  }

  /** A letter already guessed, however long ago, changes nothing and
      reports false. */
  lemma RepeatedLetter(r: Round, letter: char)
    requires Lower(letter) in r.guessed
    ensures Guess(r, letter) == (r, false)
  {
  }

  /** A repeated guess changes nothing and reports false. */
  lemma RepeatIsNoOp(r: Round, letter: char)
    ensures Guess(Guess(r, letter).0, letter) == (Guess(r, letter).0, false)
  {
  }
}
