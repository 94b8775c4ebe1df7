/**
 * The game engine of `HangmanGame` (src/HangmanGame.java) without its Swing
 * layer. The class keeps the source's fields and updates them in place; the
 * random numbers `resetGame` draws and the name typed in the win dialog are
 * parameters. Each method is proved to follow the value-level rules of
 * module `Rules`.
 */
module Game {
  import opened Wrappers
  import opened Text
  import opened Leaderboard
  import opened Rules
  import Trie

  /**
   * `name != null && !name.trim().isEmpty()`: the win dialog returned a name
   * worth recording, which is never empty.
   */
  function NameAccepted(name: Option<string>): (accepted: bool)
    ensures accepted ==> name.Some? && name.value != []
  {
    name.Some? && Trim(name.value) != []
  }

  /** The leaderboard entries a win with `score` attempts left adds. */
  function WinEntry(name: Option<string>, score: int): seq<PlayerScore> {
    if NameAccepted(name) then [PlayerScore(name.value, score)] else []
  }

  /** The listed words, as a set. */
  ghost function WordSet(): set<string> {
    set k | 0 <= k < |Words| :: Words[k]
  }

  /** The start of `HangmanGame()`: a new trie into which every listed word is inserted. */
  method LoadWords() returns (t: Trie.Trie)
    ensures fresh(t) && fresh(t.Repr)
    ensures t.Valid() && t.Words == WordSet()
  {
    t := new Trie.Trie();
    for j := 0 to |Words|
      invariant t.Valid() && fresh(t.Repr)
      invariant t.Words == set k | 0 <= k < j :: Words[k]
    {
      t.Insert(Words[j]);
      assert (set k | 0 <= k < j + 1 :: Words[k]) == (set k | 0 <= k < j :: Words[k]) + {Words[j]};
    }
  }

  /**
   * A name is recorded exactly when the dialog returned one with a character
   * other than a space or a control character.
   */
  lemma NameAcceptedIffNotBlank(name: Option<string>)
    ensures NameAccepted(name) <==> name.Some? && exists i :: 0 <= i < |name.value| && !IsTrimmable(name.value[i])
  {
    if name.Some? {
      TrimEmptyIffBlank(name.value);
    }
  }

  /** Trimming the text built by the loop of `updateLabels` gives the label text. */
  lemma TrimBuiltDisplay(raw: string, word: string, letters: set<char>)
    requires forall i :: 0 <= i < |word| ==> IsLowerLetter(word[i])
    requires |raw| == 2 * |word|
    requires forall k :: 0 <= k < |raw| ==> raw[k] == if k % 2 == 0 then Token(word[k / 2], letters) else ' '
    ensures Trim(raw) == Display(word, letters)
  {
    if word != [] {
      TrimDropsLast(raw);
      BuiltIsDisplay(raw, word, letters);
      DisplayUntrimmed(word, letters);
    }
  }

  /** The label text of a word of lower-case letters has nothing for `trim` to remove. */
  lemma DisplayUntrimmed(word: string, letters: set<char>)
    requires forall i :: 0 <= i < |word| ==> IsLowerLetter(word[i])
    ensures Trim(Display(word, letters)) == Display(word, letters)
  {
    if word != [] {
      var d := Display(word, letters);
      assert d[0] == Token(word[0], letters);
      assert d[|d| - 1] == d[2 * (|word| - 1)] == Token(word[|word| - 1], letters);
      TrimUntrimmedEnds(d);
    }
  }

  /** The text built by the loop of `updateLabels`, without its final space, is the label text. */
  lemma BuiltIsDisplay(raw: string, word: string, letters: set<char>)
    requires word != [] && |raw| == 2 * |word|
    requires forall k :: 0 <= k < |raw| ==> raw[k] == if k % 2 == 0 then Token(word[k / 2], letters) else ' '
    ensures raw[..|raw| - 1] == Display(word, letters)
  {
    forall k | 0 <= k < |raw| - 1 ensures raw[k] == Display(word, letters)[k] {
    }
  }

  class HangmanGame {
    var trie: Trie.Trie
    var leaderboard: seq<PlayerScore>
    var wordToGuess: string
    var guessedWord: array<char>
    var guessedLetters: set<char>
    var attemptsLeft: int

    /** The round fields as a value. */
    function Snapshot(): Round
      reads this, guessedWord
    {
      Round(wordToGuess, guessedWord[..], guessedLetters, attemptsLeft)
    }

    ghost predicate Valid()
      reads this, guessedWord, trie, trie.Repr
    {
      WellFormed(Snapshot()) && trie.Valid()
    }

    /**
     * The state between two events: a round on a listed word is in progress,
     * with at least one attempt left and some letter still unknown, every
     * recorded score is between 1 and `MaxAttempts`, and the trie holds
     * exactly the listed words.
     */
    ghost predicate Settled()
      reads this, guessedWord, trie, trie.Repr
    {
      && Valid()
      && wordToGuess in Words
      && trie.Words == WordSet()
      && 1 <= attemptsLeft
      && !AllGuessed(wordToGuess, guessedLetters)
      && (forall e :: e in leaderboard ==> 1 <= e.score <= MaxAttempts)
    }

    /** `HangmanGame()`: loads the words into the trie, starts with an empty leaderboard and a fresh round. */
    constructor (word: string, draws: seq<nat>)
      requires word in Words && Draws(word, draws)
      ensures Settled() && fresh(guessedWord) && fresh(trie) && fresh(trie.Repr)
      ensures forall k :: 0 <= k < |Words| ==> trie.HasWord(Words[k])
      ensures leaderboard == []
      ensures Snapshot() == StartRound(word, draws)
    {
      var t := LoadWords();
      trie := t;
      leaderboard := [];
      // The round fields are set by `resetGame` below.
      wordToGuess := [];
      guessedWord := new char[0];
      guessedLetters := {};
      attemptsLeft := 0;
      new;
      WordsPlayable(word);
      ResetGame(word, draws);
      StartRoundOpen(word, draws);
    }

    /**
     * `resetGame()` on the chosen `word`: reveals the positions the draws
     * select, seeds the known letters with theirs and restores all attempts.
     */
    method ResetGame(word: string, draws: seq<nat>)
      requires Playable(word) && Draws(word, draws)
      modifies this
      ensures WellFormed(Snapshot()) && fresh(guessedWord)
      ensures Snapshot() == StartRound(word, draws)
      ensures trie == old(trie) && leaderboard == old(leaderboard)
    {
      wordToGuess := word;
      guessedWord := new char[|word|];
      guessedLetters := {};
      attemptsLeft := MaxAttempts;
      var revealedIndexes := RevealPositions(word, draws);
      MaskWord(word, revealedIndexes);
      StartRoundWellFormed(word, draws);
    }

    /**
     * The retry loop of `resetGame`: takes draws until `RevealCount` distinct
     * positions are revealed, adding the letter at each drawn position to the
     * known letters.
     */
    method RevealPositions(word: string, draws: seq<nat>) returns (revealedIndexes: set<nat>)
      requires Draws(word, draws)
      modifies this`guessedLetters
      ensures revealedIndexes == Shown(word, draws)
      ensures guessedLetters == old(guessedLetters) + LettersAt(word, revealedIndexes)
    {
      var revealCount := RevealCount(|word|);
      revealedIndexes := {};
      var k := 0;
      while |revealedIndexes| < revealCount
        invariant k <= |draws| && revealedIndexes == Drawn(draws, k)
        invariant guessedLetters == old(guessedLetters) + LettersAt(word, revealedIndexes)
        invariant forall j :: 0 <= j < k ==> |Drawn(draws, j)| < revealCount
        decreases |draws| - k
      {
        var index := draws[k];
        revealedIndexes := revealedIndexes + {index};
        guessedLetters := guessedLetters + {word[index]};
        assert LettersAt(word, revealedIndexes) == LettersAt(word, Drawn(draws, k)) + {word[index]};
        k := k + 1;
      }
      StopAt(draws, revealCount, 0, k);
    }

    /** The filling loop of `resetGame`: a revealed position shows its letter, any other `_`. */
    method MaskWord(word: string, revealedIndexes: set<nat>)
      requires guessedWord.Length == |word|
      modifies guessedWord
      ensures guessedWord[..] == Masked(word, revealedIndexes)
    {
      for i := 0 to |word|
        invariant forall j :: 0 <= j < i ==> guessedWord[j] == Masked(word, revealedIndexes)[j]
      {
        guessedWord[i] := if i in revealedIndexes then word[i] else '_';
      }
    }

    /** The guess-evaluation part of `actionPerformed`. */
    method Guess(input: string)
      requires Valid()
      modifies this, guessedWord
      ensures Valid()
      ensures Snapshot() == Apply(old(Snapshot()), input)
      ensures guessedWord == old(guessedWord) && trie == old(trie) && leaderboard == old(leaderboard)
    {
      ghost var before := Snapshot();
      GuessKeepsWellFormed(before, input);
      var lowered := Lower(input);
      if |lowered| == 1 && IsLetter(lowered[0]) {
        var guess := lowered[0];
        if guess !in guessedLetters {
          guessedLetters := guessedLetters + {guess};
          if guess in wordToGuess {
            for i := 0 to |wordToGuess|
              modifies guessedWord
              invariant forall j :: 0 <= j < i ==> guessedWord[j] == Reveal(before.slots, wordToGuess, guess)[j]
              invariant forall j :: i <= j < guessedWord.Length ==> guessedWord[j] == before.slots[j]
            {
              if wordToGuess[i] == guess {
                guessedWord[i] := guess;
              }
            }
            assert guessedWord[..] == Reveal(before.slots, wordToGuess, guess);
          } else {
            attemptsLeft := attemptsLeft - 1;
          }
        }
      }
    }

    /** `isWordGuessed()`: every letter of the word is known. */
    method IsWordGuessed() returns (guessed: bool)
      ensures guessed <==> AllGuessed(wordToGuess, guessedLetters)
    {
      for i := 0 to |wordToGuess|
        invariant forall j :: 0 <= j < i ==> wordToGuess[j] in guessedLetters
      {
        if wordToGuess[i] !in guessedLetters {
          return false;
        }
      }
      return true;
    }

    /**
     * What `updateLabels` shows: the word label's text and the leaderboard in
     * the order a copy of the queue is drained. The stored leaderboard is
     * left as it is.
     */
    method UpdateLabels() returns (wordText: string, standings: seq<PlayerScore>)
      requires Valid()
      ensures wordText == Display(wordToGuess, guessedLetters)
      ensures Ranked(standings) && multiset(standings) == multiset(leaderboard)
    {
      var displayWord := [];
      for i := 0 to |wordToGuess|
        invariant |displayWord| == 2 * i
        invariant forall j :: 0 <= j < 2 * i ==> displayWord[j] == if j % 2 == 0 then Token(wordToGuess[j / 2], guessedLetters) else ' '
      {
        var c := wordToGuess[i];
        if c in guessedLetters {
          displayWord := displayWord + [c, ' '];
        } else {
          displayWord := displayWord + ['_', ' '];
        }
      }
      TrimBuiltDisplay(displayWord, wordToGuess, guessedLetters);
      wordText := Trim(displayWord);
      standings := Enumerate(leaderboard);
    }

    /**
     * The end-of-guess part of `actionPerformed`: a guessed word is a win,
     * which records the player's name with the attempts left when the name is
     * not blank; otherwise no attempt left is a loss. Either starts a new
     * round; anything else leaves the state as it is.
     */
    method HandleTerminal(name: Option<string>, word: string, draws: seq<nat>)
      requires Valid() && Playable(word) && Draws(word, draws)
      modifies this
      ensures Valid() && trie == old(trie)
      ensures var won := AllGuessed(old(wordToGuess), old(guessedLetters));
        && leaderboard == old(leaderboard) + (if won then WinEntry(name, old(attemptsLeft)) else [])
        && (won || old(attemptsLeft) == 0 ==> Snapshot() == StartRound(word, draws) && fresh(guessedWord))
        && (!won && old(attemptsLeft) != 0 ==> Snapshot() == old(Snapshot()) && guessedWord == old(guessedWord))
    {
      var won := IsWordGuessed();
      if won {
        RecordWin(name);
        ResetGame(word, draws);
      } else if attemptsLeft == 0 {
        ResetGame(word, draws);
      }
    }

    /** The win dialog's outcome: a name that is not blank is recorded with the attempts left. */
    method RecordWin(name: Option<string>)
      modifies this`leaderboard
      ensures leaderboard == old(leaderboard) + WinEntry(name, attemptsLeft)
    {
      if name.Some? && Trim(name.value) != [] {
        leaderboard := leaderboard + [PlayerScore(name.value, attemptsLeft)];
      }
    }

    /**
     * `actionPerformed`: one guess, then the end-of-guess handling. It keeps
     * the state settled: the round it leaves is either the guessed one, still
     * open, or a fresh one, and a win records the attempts left, which the
     * winning guess did not reduce.
     */
    method ActionPerformed(input: string, name: Option<string>, word: string, draws: seq<nat>)
      requires Settled() && word in Words && Draws(word, draws)
      modifies this, guessedWord
      ensures Settled() && trie == old(trie)
      ensures guessedWord == old(guessedWord) || fresh(guessedWord)
      ensures var next := Apply(old(Snapshot()), input);
        var won := AllGuessed(next.word, next.letters);
        && leaderboard == old(leaderboard) + (if won then WinEntry(name, next.attempts) else [])
        && (won || next.attempts == 0 ==> Snapshot() == StartRound(word, draws))
        && (!won && next.attempts != 0 ==> Snapshot() == next)
    {
      ghost var before := Snapshot();
      GuessKeepsWellFormed(before, input);
      if AllGuessed(Apply(before, input).word, Apply(before, input).letters) {
        WinningGuessCostsNothing(before, input);
      }
      WordsPlayable(word);
      StartRoundOpen(word, draws);
      Guess(input);
      HandleTerminal(name, word, draws);
    }
  }
}
