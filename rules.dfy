/**
 * The rules of one round of the game in src/HangmanGame.java, stated on
 * values. A `Round` gathers the four round fields of `HangmanGame`
 * (`wordToGuess`, `guessedWord`, `guessedLetters`, `attemptsLeft`); `Apply`
 * is the effect of one guess, `StartRound` the round `resetGame` starts and
 * `Display` the text `updateLabels` puts in the word label. The class in
 * module `Game` is proved to follow these functions, and the lemmas here
 * state what the game promises about them.
 */
module Rules {
  import opened Wrappers
  import opened Text

  const MaxAttempts: int := 6
  const Words: seq<string> := ["computer", "science", "java", "hangman", "programming", "university", "technology"]

  /** `Math.max(1, n / 4)`: how many positions `resetGame` reveals in a word of length `n`. */
  function RevealCount(n: nat): (r: nat)
    ensures 1 <= r && n / 4 <= r && (r == 1 || r == n / 4)
    ensures 1 <= n ==> r <= n
  {
    if 1 >= n / 4 then 1 else n / 4
  }

  /**
   * What the rules rely on about a word: at least three letters, all
   * lower-case, the first three distinct, and at most two positions revealed.
   */
  predicate Playable(w: string) {
    && 3 <= |w| && RevealCount(|w|) <= 2
    && (forall i :: 0 <= i < |w| ==> IsLowerLetter(w[i]))
    && w[0] != w[1] && w[1] != w[2] && w[0] != w[2]
  }

  /** Every listed word is playable. */
  lemma WordsPlayable(w: string)
    requires w in Words
    ensures Playable(w)
  {
  }

  /**
   * The guess read from the input field: the lower-cased input when it is a
   * single letter, nothing otherwise.
   */
  function ParseGuess(input: string): (r: Option<char>)
    ensures r.Some? <==> |input| == 1 && IsLetter(input[0])
    ensures r.Some? ==> r.value == LowerChar(input[0]) && IsLowerLetter(r.value)
  {
    var lowered := Lower(input);
    if |lowered| == 1 && IsLetter(lowered[0]) then Some(lowered[0]) else None
  }

  /** The round fields of the game. `slots` is the content of the `guessedWord` array. */
  datatype Round = Round(word: string, slots: seq<char>, letters: set<char>, attempts: int)

  /**
   * The round invariant: the word is playable, there is one slot per
   * letter, every slot is `_` or holds the letter of the word at that
   * position, a filled slot's letter has been guessed or revealed, and no
   * more than `MaxAttempts` attempts are left.
   */
  predicate WellFormed(r: Round) {
    && Playable(r.word)
    && |r.slots| == |r.word|
    && (forall i :: 0 <= i < |r.slots| ==> r.slots[i] == '_' || (r.slots[i] == r.word[i] && r.slots[i] in r.letters))
    && r.attempts <= MaxAttempts
  }

  /** Every letter of `word` is among `letters`. */
  predicate AllGuessed(word: string, letters: set<char>) {
    forall i :: 0 <= i < |word| ==> word[i] in letters
  }

  /** `slots` with every position where `word` holds `g` set to `g`. */
  function Reveal(slots: seq<char>, word: string, g: char): seq<char> {
    seq(|slots|, i requires 0 <= i < |slots| => if i < |word| && word[i] == g then g else slots[i])
  }

  /**
   * The effect of the guess typed as `input` on the round: the word and the
   * number of slots stay, at most the guessed letter is added, and an
   * attempt is lost only for a new letter that is not in the word.
   */
  function Apply(r: Round, input: string): (next: Round)
    ensures next.word == r.word && |next.slots| == |r.slots|
    ensures r.letters <= next.letters
    ensures next.letters != r.letters ==> ParseGuess(input).Some? && next.letters == r.letters + {ParseGuess(input).value}
    ensures r.attempts - 1 <= next.attempts <= r.attempts
    ensures next.attempts != r.attempts ==>
              ParseGuess(input).Some? && ParseGuess(input).value !in r.letters && ParseGuess(input).value !in r.word
  {
    match ParseGuess(input)
    case None => r
    case Some(g) =>
      if g in r.letters then r
      else if g in r.word then r.(slots := Reveal(r.slots, r.word, g), letters := r.letters + {g})
      else r.(letters := r.letters + {g}, attempts := r.attempts - 1)
  }

  /**
   * What a guess does: input that is not a single letter, or a letter
   * already tried, changes nothing; a new letter is recorded, and then it
   * either fills every position holding it and costs nothing, or, when the
   * word does not contain it, costs exactly one attempt and fills nothing.
   */
  lemma GuessEffect(r: Round, input: string)
    ensures var r' := Apply(r, input);
      && r'.word == r.word
      && (ParseGuess(input).None? || ParseGuess(input).value in r.letters ==> r' == r)
      && (ParseGuess(input).Some? && ParseGuess(input).value !in r.letters ==>
            var g := ParseGuess(input).value;
            && r'.letters == r.letters + {g}
            && (g in r.word ==>
                  && r'.attempts == r.attempts
                  && |r'.slots| == |r.slots|
                  && (forall i :: 0 <= i < |r.slots| && i < |r.word| && r.word[i] == g ==> r'.slots[i] == g)
                  && (forall i :: 0 <= i < |r.slots| && !(i < |r.word| && r.word[i] == g) ==> r'.slots[i] == r.slots[i]))
            && (g !in r.word ==> r'.attempts == r.attempts - 1 && r'.slots == r.slots))
  {
  }

  /** Repeating a guess has no further effect. */
  lemma GuessIdempotent(r: Round, input: string)
    ensures Apply(Apply(r, input), input) == Apply(r, input)
  {
  }

  /** A guess keeps the round invariant, never loses a letter and costs at most one attempt. */
  lemma GuessKeepsWellFormed(r: Round, input: string)
    requires WellFormed(r)
    ensures WellFormed(Apply(r, input))
    ensures r.letters <= Apply(r, input).letters
    ensures r.attempts - 1 <= Apply(r, input).attempts <= r.attempts
  {
    var r' := Apply(r, input);
    if ParseGuess(input).Some? && ParseGuess(input).value !in r.letters && ParseGuess(input).value in r.word {
      var g := ParseGuess(input).value;
      forall i | 0 <= i < |r'.slots|
        ensures r'.slots[i] == '_' || (r'.slots[i] == r'.word[i] && r'.slots[i] in r'.letters)
      {
        if r.word[i] != g {
          assert r'.slots[i] == r.slots[i];
        }
      }
    }
  }

  /**
   * A guess that completes the word was a correct one, so it cost no attempt:
   * the score recorded for a win is the number of attempts left before it.
   */
  lemma WinningGuessCostsNothing(r: Round, input: string)
    requires !AllGuessed(r.word, r.letters)
    requires AllGuessed(Apply(r, input).word, Apply(r, input).letters)
    ensures Apply(r, input).attempts == r.attempts
  {
    var r' := Apply(r, input);
    var i :| 0 <= i < |r.word| && r.word[i] !in r.letters;
    assert r.word[i] in r'.letters;
  }

  /** The token shown for the letter `c`: the letter once it is known, `_` otherwise. */
  function Token(c: char, letters: set<char>): char {
    if c in letters then c else '_'
  }

  /**
   * The text of the word label: one token per letter of `word`, separated by
   * single spaces, with no space at either end.
   */
  function Display(word: string, letters: set<char>): (d: string)
    ensures |d| == if word == [] then 0 else 2 * |word| - 1
  {
    if word == [] then []
    else seq(2 * |word| - 1, k requires 0 <= k < 2 * |word| - 1 => if k % 2 == 0 then Token(word[k / 2], letters) else ' ')
  }

  /** The token of the `i`-th letter sits at position `2 * i`, with a single space after every token but the last. */
  lemma DisplayLayout(word: string, letters: set<char>)
    ensures forall i :: 0 <= i < |word| ==> Display(word, letters)[2 * i] == Token(word[i], letters)
    ensures forall i :: 0 <= i < |word| - 1 ==> Display(word, letters)[2 * i + 1] == ' '
  {
  }

  /**
   * For a word without `_`, the label shows a `_` exactly when some letter of
   * the word is still unknown, that is, exactly when the word is not guessed.
   */
  lemma BlankShownIffNotGuessed(word: string, letters: set<char>)
    requires forall i :: 0 <= i < |word| ==> word[i] != '_'
    ensures '_' in Display(word, letters) <==> !AllGuessed(word, letters)
  {
    var d := Display(word, letters);
    if '_' in d {
      var k :| 0 <= k < |d| && d[k] == '_';
      assert k % 2 == 0 && word[k / 2] !in letters;
    }
    if !AllGuessed(word, letters) {
      var i :| 0 <= i < |word| && word[i] !in letters;
      assert d[2 * i] == '_';
    }
  }

  /** The distinct values among the first `k` draws `c[..k]`. */
  function Drawn(c: seq<nat>, k: nat): set<nat>
    requires k <= |c|
  {
    if k == 0 then {} else Drawn(c, k - 1) + {c[k - 1]}
  }

  /** Every drawn value is below a bound that every draw respects. */
  lemma {:induction false} DrawnBelow(c: seq<nat>, k: nat, n: nat)
    requires k <= |c| && forall j :: 0 <= j < |c| ==> c[j] < n
    ensures forall x :: x in Drawn(c, k) ==> x < n
  {
    if k > 0 {
      DrawnBelow(c, k - 1, n);
    }
  }

  /**
   * How many draws the retry loop of `resetGame` consumes, starting after
   * `k` of them: the first `n` at which `c[..n]` holds `count` distinct values.
   */
  function Stop(c: seq<nat>, count: nat, k: nat): (n: nat)
    requires k <= |c| && count <= |Drawn(c, |c|)|
    ensures k <= n <= |c|
    ensures count <= |Drawn(c, n)|
    ensures forall j :: k <= j < n ==> |Drawn(c, j)| < count
    decreases |c| - k
  {
    if count <= |Drawn(c, k)| then k else Stop(c, count, k + 1)
  }

  /** `Stop` from `k` is the first point at or after `k` where `count` distinct values have been drawn. */
  lemma {:induction false} StopAt(c: seq<nat>, count: nat, k: nat, n: nat)
    requires k <= n <= |c| && count <= |Drawn(c, n)| && count <= |Drawn(c, |c|)|
    requires forall j :: k <= j < n ==> |Drawn(c, j)| < count
    ensures Stop(c, count, k) == n
    decreases n - k
  {
    if k < n {
      StopAt(c, count, k + 1, n);
    }
  }

  /**
   * The position draws `c` of `resetGame` for `word`: each is inside the
   * word, and enough of them are distinct for the retry loop to stop.
   */
  predicate Draws(word: string, c: seq<nat>) {
    && (forall j :: 0 <= j < |c| ==> c[j] < |word|)
    && RevealCount(|word|) <= |Drawn(c, |c|)|
  }

  /** The positions `resetGame` reveals. */
  function Shown(word: string, c: seq<nat>): set<nat>
    requires Draws(word, c)
  {
    Drawn(c, Stop(c, RevealCount(|word|), 0))
  }

  /** `word` with the positions in `shown` filled and every other one `_`. */
  function Masked(word: string, shown: set<nat>): seq<char> {
    seq(|word|, i requires 0 <= i < |word| => if i in shown then word[i] else '_')
  }

  /** The letters of `word` at the positions in `shown`. */
  function LettersAt(word: string, shown: set<nat>): set<char> {
    set i | i in shown && i < |word| :: word[i]
  }

  /**
   * The round `resetGame` starts on `word`: all attempts left, one slot per
   * letter, each slot `_` or the word's letter, and only letters of the
   * word known.
   */
  function StartRound(word: string, c: seq<nat>): (r: Round)
    requires Draws(word, c)
    ensures r.word == word && r.attempts == MaxAttempts && |r.slots| == |word|
    ensures forall i :: 0 <= i < |word| ==> r.slots[i] == '_' || r.slots[i] == word[i]
  {
    var shown := Shown(word, c);
    Round(word, Masked(word, shown), LettersAt(word, shown), MaxAttempts)
  }

  /**
   * The retry loop reveals exactly `RevealCount` distinct positions of the
   * word, all of them inside it.
   */
  lemma ShownExactly(word: string, c: seq<nat>)
    requires Draws(word, c)
    ensures |Shown(word, c)| == RevealCount(|word|)
    ensures forall i :: i in Shown(word, c) ==> i < |word|
  {
    var count := RevealCount(|word|);
    var n := Stop(c, count, 0);
    assert |Drawn(c, n - 1)| < count;
    DrawnBelow(c, n, |word|);
  }
  /** Revealing at most two positions of a word whose first three letters differ leaves a letter unknown. */
  lemma FewRevealsLeaveALetter(word: string, shown: set<nat>)
    requires 3 <= |word| && word[0] != word[1] && word[1] != word[2] && word[0] != word[2]
    requires |shown| <= 2 && forall i :: i in shown ==> i < |word|
    ensures !AllGuessed(word, LettersAt(word, shown))
  {
    var letters := LettersAt(word, shown);
    if shown == {} {
      assert word[0] !in letters;
    } else {
      var x :| x in shown;
      var rest := shown - {x};
      assert shown == rest + {x} && |rest| == |shown| - 1;
      if rest == {} {
        assert letters <= {word[x]} by {
          forall l | l in letters ensures l == word[x] {
            var i :| i in shown && i < |word| && word[i] == l;
            assert i == x;
          }
        }
      } else {
        var y :| y in rest;
        assert rest == (rest - {y}) + {y} && |rest - {y}| == |rest| - 1;
        assert rest - {y} == {};
        assert letters <= {word[x], word[y]} by {
          forall l | l in letters ensures l == word[x] || l == word[y] {
            var i :| i in shown && i < |word| && word[i] == l;
            assert i == x || i == y;
          }
        }
      }
    }
  }

  /** The round `resetGame` starts satisfies the round invariant. */
  lemma StartRoundWellFormed(word: string, c: seq<nat>)
    requires Playable(word) && Draws(word, c)
    ensures WellFormed(StartRound(word, c))
  {
  }

  /** The round `resetGame` starts is not already won. */
  lemma StartRoundOpen(word: string, c: seq<nat>)
    requires Playable(word) && Draws(word, c)
    ensures !AllGuessed(word, StartRound(word, c).letters)
  {
    ShownExactly(word, c);
    FewRevealsLeaveALetter(word, Shown(word, c));
  }

  /**
   * The round `resetGame` starts: it satisfies the round invariant, has all
   * `MaxAttempts` attempts left, shows exactly the revealed positions, knows
   * exactly their letters, and is never already won.
   */
  lemma StartRoundFacts(word: string, c: seq<nat>)
    requires Playable(word) && Draws(word, c)
    ensures var r := StartRound(word, c);
      && WellFormed(r)
      && r.attempts == MaxAttempts
      && (forall i :: 0 <= i < |word| ==> (r.slots[i] != '_' <==> i in Shown(word, c)))
      && (forall i :: i in Shown(word, c) ==> i < |word| && word[i] in r.letters)
      && (forall l :: l in r.letters ==> exists i :: i in Shown(word, c) && i < |word| && word[i] == l)
      && !AllGuessed(word, r.letters)
  {
    ShownExactly(word, c);
    StartRoundOpen(word, c);
  }
}
