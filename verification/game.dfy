/** The hangman round engine as the object it is: the word, a character
    array for the reveal mask, the set of guessed letters and the
    wrong-guess counter, updated in place by each guess. */
module Game {
  import opened Letters
  import opened Engine

  class HangManGame {
    var word: string
    var guessedWord: array<char>
    var guessedLetters: set<char>
    var wrongGuesses: nat

    /** The round this object holds, as a value. */
    ghost function Model(): Round
      reads this, guessedWord
    {
      Round(word, guessedWord[..], guessedLetters, wrongGuesses)
    }

    ghost predicate Valid()
      reads this, guessedWord
    {
      Inv(Model())
    }

    /** A new round on `words[pick]`, where `pick` is the index the random
        source chose. */
    constructor (words: seq<string>, pick: nat)
      requires pick < |words|
      ensures Valid() && fresh(guessedWord)
      ensures ChooseWord(words, pick) == Some(word)
      ensures Model() == NewRound(words[pick])
      ensures guessedWord.Length == |word|
      ensures forall i :: 0 <= i < guessedWord.Length ==> guessedWord[i] == Placeholder
      ensures guessedLetters == {} && wrongGuesses == 0
    {
      var w := LowerWord(words[pick]);
      var mask := new char[|w|];
      for i := 0 to mask.Length
        invariant forall k :: 0 <= k < i ==> mask[k] == Placeholder
      {
        mask[i] := Placeholder;
      }
      word := w;
      guessedWord := mask;
      guessedLetters := {};
      wrongGuesses := 0;
      new;
      assert guessedWord[..] == Hidden(words[pick]);
      NewRoundInv(words[pick]);
    }

    /** Processes one guess. The letter is lower-cased; a letter guessed
        before yields false and changes nothing; otherwise it is recorded,
        every position holding it is revealed, and a letter found nowhere
        counts as a wrong guess. The result says whether it was found. */
    method GuessLetter(letter: char) returns (correct: bool)
      requires Valid()
      modifies this, guessedWord
      ensures Valid() && guessedWord == old(guessedWord) && word == old(word)
      ensures (Model(), correct) == Guess(old(Model()), letter)
      ensures Lower(letter) in old(guessedLetters) ==>
                !correct && guessedLetters == old(guessedLetters) &&
                wrongGuesses == old(wrongGuesses) && guessedWord[..] == old(guessedWord[..])
      ensures Lower(letter) !in old(guessedLetters) ==>
                guessedLetters == old(guessedLetters) + {Lower(letter)} &&
                (correct <==> Lower(letter) in word)
      ensures correct ==>
                && wrongGuesses == old(wrongGuesses)
                && (forall i :: 0 <= i < |word| && word[i] == Lower(letter) ==> guessedWord[i] == Lower(letter))
                && (forall i :: 0 <= i < |word| && word[i] != Lower(letter) ==> guessedWord[i] == old(guessedWord[i]))
      ensures !correct ==> guessedWord[..] == old(guessedWord[..])
      ensures !correct && Lower(letter) !in old(guessedLetters) ==> wrongGuesses == old(wrongGuesses) + 1
      ensures !old(IsGameOver()) ==> wrongGuesses <= MaxGuesses
    {
      ghost var before := Model();
      var c := Lower(letter);
      if c in guessedLetters {
        return false;
      }
      guessedLetters := guessedLetters + {c};
      correct := false;
      for i := 0 to |word|
        invariant word == before.word && guessedWord == old(guessedWord)
        invariant guessedWord.Length == |word|
        invariant guessedLetters == before.guessed + {c} && wrongGuesses == before.wrong
        invariant forall k :: 0 <= k < i ==> guessedWord[k] == (if word[k] == c then c else old(guessedWord[k]))
        invariant forall k :: i <= k < guessedWord.Length ==> guessedWord[k] == old(guessedWord[k])
        invariant correct <==> exists k :: 0 <= k < i && word[k] == c
      {
        if word[i] == c {
          guessedWord[i] := c;
          correct := true;
        }
      }
      if !correct {
        wrongGuesses := wrongGuesses + 1;
      }
      assert guessedWord[..] == Reveal(word, before.mask, c);
      GuessKeepsInv(before, letter);
    }

    /** The mask as shown to the player. */
    function GetGuessedWord(): (s: string)
      reads this, guessedWord
      requires Valid()
      ensures s == MaskFor(word, guessedLetters)
    {
      guessedWord[..]
    }

    /** The letters guessed so far, all in lower case. */
    function GetGuessedLetters(): (s: set<char>)
      reads this, guessedWord
      requires Valid()
      ensures s == guessedLetters
      ensures forall c :: c in s ==> Lower(c) == c
    {
      guessedLetters
    }

    /** The word is guessed when the mask shows it in full. */
    predicate IsWordGuessed()
      reads this, guessedWord
      requires Valid()
      ensures IsWordGuessed() <==>
                forall i :: 0 <= i < |word| ==> word[i] in guessedLetters || word[i] == Placeholder
    {
      WonIff(Model());
      GetGuessedWord() == word
    }

    /** The round is over when it is lost or won. */
    predicate IsGameOver()
      reads this, guessedWord
      requires Valid()
      ensures IsGameOver() == IsOver(Model())
      ensures IsWordGuessed() ==> IsGameOver()
      ensures !IsGameOver() ==> wrongGuesses < MaxGuesses
    {
      wrongGuesses >= MaxGuesses || GetGuessedWord() == word
    }

    /** The number of wrong guesses: the guessed letters not in the word. */
    function GetWrongGuesses(): (n: nat)
      reads this, guessedWord
      requires Valid()
      ensures n == |WrongLetters(word, guessedLetters)|
    {
      wrongGuesses
    }

    /** The target word, in lower case. */
    function GetWord(): (w: string)
      reads this, guessedWord
      requires Valid()
      ensures w == word && IsLowerWord(w)
    {
      word
    }
  }
}
