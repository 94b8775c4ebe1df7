# Hangman game engine in Dafny

This project models the game engine of `HangmanGame` (src/HangmanGame.java), a
Swing Hangman game. The Swing layer is removed. What remains is:

- the round state: the word to guess, the `guessedWord` array, the set of guessed
  letters and the attempts left;
- `resetGame`, which picks a word, reveals `max(1, length / 4)` random positions
  and seeds the guessed letters with theirs;
- the guess handling and end-of-guess handling of `actionPerformed`;
- `isWordGuessed`;
- the word text and the leaderboard enumeration of `updateLabels`;
- the leaderboard, a priority queue ordered by descending score;
- the prefix tree (`TrieNode`, `Trie.insert`) loaded with the word list.

Modules:

- `Wrappers` (its own file): `Option`, used for the name the win dialog returns.
- `Text`: `String.trim` (exact), and `toLowerCase` / `Character.isLetter` restricted to ASCII.
- `Leaderboard`: `PlayerScore`, and draining the queue with `poll` (`Enumerate`).
- `Trie`: the classes `TrieNode` and `Trie`. Nodes keep mutable child maps. A ghost
  description (`Paths`, `Kids`, `PathOf`, `Words`, `Repr`) states what `Insert` does.
- `Rules`: the round as a value (`Round`). It defines the effect of one guess
  (`Apply`), the round `resetGame` starts (`StartRound`) and the label text
  (`Display`), and proves what the game promises about them.
- `Game`: the class `HangmanGame`. Its fields are updated in place and
  `guessedWord` is an `array<char>`. Each method is proved to follow the
  functions of `Rules`.

The random choices of `resetGame` are parameters:

- `word` is the chosen word; callers require it to be in `Words`.
- `draws` is the sequence of `nextInt(length)` results the retry loop consumes.
  `Draws(word, draws)` requires every draw to be inside the word and enough draws
  to be distinct for the loop to stop.

The name typed in the win dialog is an `Option<string>` parameter; `None` means
the dialog was cancelled.

Two behaviours of the source are modelled as written:

- Wrong guesses are added to `guessedLetters` too.
- `guessedWord` is never read for the display, which comes from `guessedLetters`.
  When `resetGame` reveals one occurrence of a repeated letter, the other
  occurrences stay `_` in `guessedWord`. A later guess of that letter counts as
  already guessed, so they are never filled. The invariant `WellFormed` allows this:
  a slot is `_` or the word's letter.

## Model

| member | source | states |
|---|---|---|
| Text.TrimEnd | src/HangmanGame.java:123 | the result is a prefix of the input, ends in a non-trimmable character or is empty, and everything dropped is trimmable |
| Text.TrimStart | src/HangmanGame.java:123 | the result is a suffix of the input, starts with a non-trimmable character or is empty, and everything dropped is trimmable |
| Text.Trim | src/HangmanGame.java:123 | `String.trim`: the result is no longer than the input and is empty or starts and ends with a kept character (see TrimIsSlice, TrimEmptyIffBlank, TrimUntrimmedEnds) |
| Text.TrimIsSlice | src/HangmanGame.java:123 | what `trim` keeps is one slice of the input, and everything before and after it is trimmable |
| Text.TrimDropsLast | src/HangmanGame.java:123 | a trailing space or control character does not change the trim |
| Text.TrimEmptyIffBlank | src/HangmanGame.java:169 | `trim()` of a string is empty exactly when every character of it is at most U+0020 |
| Text.TrimUntrimmedEnds | src/HangmanGame.java:123 | a string with no trimmable character at either end is its own trim |
| Text.LowerChar | src/HangmanGame.java:147 | lower-casing keeps letters letters, turns every letter into a lower-case one of the same letter, and leaves non-upper-case characters alone |
| Text.Lower | src/HangmanGame.java:147 | `String.toLowerCase` restricted to ASCII: keeps the length and lower-cases each character |
| Leaderboard.TopIndex | src/HangmanGame.java:129 | `poll` takes an entry whose score is at least every score in the queue |
| Leaderboard.RemoveAt | src/HangmanGame.java:129 | after `poll`, the queue holds exactly the other entries |
| Leaderboard.Enumerate | src/HangmanGame.java:127-131 | draining a copy of the queue yields every stored entry once (as a multiset), in non-increasing score order |
| Leaderboard.NewTopScoreFirst | src/HangmanGame.java:27 | an entry added with a score above all others is first in every ranked enumeration |
| Trie.TrieNode.constructor | src/HangmanGame.java:204-207 | a new node has no children and is not the end of a word |
| Trie.PrefixClosed | src/HangmanGame.java:213-216 | in a linked tree, every prefix of a path from the root is itself a path |
| Trie.AddLeaf | src/HangmanGame.java:215 | hanging a new leaf under an existing node along a missing edge keeps the path description a tree |
| Trie.Trie.WordPrefixes | src/HangmanGame.java:212-218 | every prefix of an inserted word is spelled by a path from the root |
| Trie.Trie.constructor | src/HangmanGame.java:209-210 | a new trie has only the root path and no words |
| Trie.Trie.Insert | src/HangmanGame.java:212-218 | afterwards every prefix of the word is a path, the word is marked, earlier paths reach the same nodes, no other path is added, and reinserting a word changes nothing |
| Trie.Trie.Step | src/HangmanGame.java:214-215 | one step of the walk reaches the node at the next prefix, adding only that prefix |
| Trie.Trie.ComputeIfAbsent | src/HangmanGame.java:215 | returns the child along the character, creating it only when missing; old paths keep their nodes |
| Trie.Trie.AddChild | src/HangmanGame.java:215 | a fresh child under the node adds exactly one path and leaves the marked words alone |
| Trie.Trie.MarkEnd | src/HangmanGame.java:217 | setting the flag adds exactly that path to the words and changes no path |
| Rules.RevealCount | src/HangmanGame.java:97 | the number of revealed positions is at least 1 and at least length/4, is one of the two, and never exceeds a non-empty word's length |
| Rules.WordsPlayable | src/HangmanGame.java:7 | every listed word is lower-case, at least three letters long with its first three letters distinct, and gets at most two reveals |
| Rules.ParseGuess | src/HangmanGame.java:147-149 | a guess is read exactly when the input is one letter, and it is that letter lower-cased |
| Rules.Apply | src/HangmanGame.java:147-161 | the effect of one guess on the round: word and slot count kept, at most the guessed letter added, an attempt lost only for a new letter not in the word (full case analysis in GuessEffect, GuessIdempotent, GuessKeepsWellFormed) |
| Rules.GuessEffect | src/HangmanGame.java:147-161 | invalid input or a letter already tried changes nothing; a new letter is recorded and either fills exactly its positions at no cost, or costs exactly one attempt and fills nothing |
| Rules.GuessIdempotent | src/HangmanGame.java:147-150 | repeating the same guess has no further effect |
| Rules.GuessKeepsWellFormed | src/HangmanGame.java:150-160 | a guess keeps the round invariant (filled slots hold the word's letter, which is known), never forgets a letter and costs at most one attempt |
| Rules.WinningGuessCostsNothing | src/HangmanGame.java:152-159 | a guess that completes the word cost no attempt, so the recorded score is the attempts left before it |
| Rules.Display | src/HangmanGame.java:114-123 | the word label text: two characters per letter less the final space, so `2n - 1` for a word of `n` letters (layout in DisplayLayout; see BlankShownIffNotGuessed, TrimBuiltDisplay) |
| Rules.DisplayLayout | src/HangmanGame.java:114-123 | the token of letter `i` (the letter once known, `_` otherwise) is at position `2i`, with a single space after every token but the last |
| Rules.BlankShownIffNotGuessed | src/HangmanGame.java:113-144 | the word label shows a `_` exactly when `isWordGuessed` is false |
| Rules.DrawnBelow | src/HangmanGame.java:100-101 | positions drawn inside the word stay inside the word |
| Rules.Stop | src/HangmanGame.java:99-103 | the retry loop stops at the first draw that completes the required number of distinct positions |
| Rules.StopAt | src/HangmanGame.java:99-103 | any point where enough distinct positions are first reached is where the retry loop stops |
| Rules.StartRound | src/HangmanGame.java:92-107 | the round `resetGame` starts: all attempts left, one slot per letter, each `_` or the word's letter (see ShownExactly, StartRoundFacts, StartRoundOpen) |
| Rules.ShownExactly | src/HangmanGame.java:97-103 | `resetGame` reveals exactly `max(1, length / 4)` distinct positions, all inside the word |
| Rules.FewRevealsLeaveALetter | src/HangmanGame.java:97-102 | revealing at most two positions of a word whose first three letters differ leaves some letter unknown |
| Rules.StartRoundWellFormed | src/HangmanGame.java:92-107 | the round `resetGame` starts satisfies the round invariant |
| Rules.StartRoundOpen | src/HangmanGame.java:92-107 | the round `resetGame` starts is never already won |
| Rules.StartRoundFacts | src/HangmanGame.java:92-107 | after `resetGame`: all attempts left, a slot is filled exactly at a revealed position, and the known letters are exactly the revealed ones |
| Game.LoadWords | src/HangmanGame.java:24-25 | the trie built at start-up holds exactly the listed words |
| Game.NameAccepted | src/HangmanGame.java:169 | the dialog returned a name worth recording, which is never empty (both directions in NameAcceptedIffNotBlank) |
| Game.NameAcceptedIffNotBlank | src/HangmanGame.java:169 | a win is recorded exactly when the dialog returned a name with a character above U+0020 |
| Game.TrimBuiltDisplay | src/HangmanGame.java:114-123 | trimming the built token-and-space text gives one token per letter, single spaces between them and none at the ends |
| Game.DisplayUntrimmed | src/HangmanGame.java:123 | the label text of a word of lower-case letters has nothing for `trim` to remove |
| Game.BuiltIsDisplay | src/HangmanGame.java:114-122 | the text built by the loop, without its final space, is the label text |
| Game.HangmanGame.constructor | src/HangmanGame.java:23-31 | the game starts with every listed word in the trie, an empty leaderboard and the round `resetGame` starts, in the settled state |
| Game.HangmanGame.ResetGame | src/HangmanGame.java:90-107 | the new round fields are the round `resetGame` starts; the trie and leaderboard are untouched |
| Game.HangmanGame.RevealPositions | src/HangmanGame.java:97-103 | the retry loop reveals the positions `Stop` selects and adds exactly their letters |
| Game.HangmanGame.MaskWord | src/HangmanGame.java:105-107 | `guessedWord` shows the letter at revealed positions and `_` elsewhere |
| Game.HangmanGame.Guess | src/HangmanGame.java:147-162 | the round fields after a guess are the guess's effect on the round before it; the array, trie and leaderboard are kept |
| Game.HangmanGame.IsWordGuessed | src/HangmanGame.java:137-144 | true exactly when every letter of the word is known |
| Game.HangmanGame.UpdateLabels | src/HangmanGame.java:113-131 | the word label text is the display of the round, and the leaderboard is listed ranked without changing the stored one |
| Game.HangmanGame.HandleTerminal | src/HangmanGame.java:167-176 | the win is checked first and records the name with the attempts left only if it is not blank; win and loss both start a new round; otherwise nothing changes |
| Game.HangmanGame.RecordWin | src/HangmanGame.java:169-171 | a name that is not blank is added with the attempts left; otherwise the leaderboard is unchanged |
| Game.HangmanGame.ActionPerformed | src/HangmanGame.java:146-177 | one event keeps the state settled (a round in progress with 1 to 6 attempts left, scores 1 to 6) and performs the guess and then the win, loss or continue step; `guessedWord` is the same array or a new one, so events can follow one another |

## Left out

- The Swing user interface is not modelled: `setupUI`, the letter buttons, the `HangmanPanel` gallows painting, label prefixes such as "Word: " and "Attempts left: ", the HTML of the leaderboard label, and repainting. `UpdateLabels` returns the word text and the ranked entries instead.
- `JOptionPane` dialogs are not modelled. The name prompt is an `Option<string>` parameter and the game-over message is dropped.
- `java.util.Random` is not modelled. The chosen word and the stream of `nextInt` results are parameters.
- Game.HangmanGame.RevealPositions: requires the supplied draws to contain enough distinct positions. The source's retry loop terminates only with probability 1.
- Game.HangmanGame.ResetGame and Game.HangmanGame.HandleTerminal accept any playable word. The constructor and `ActionPerformed` require a listed word, as `WORDS[rand.nextInt(WORDS.length)]` picks.
- Text.LowerChar, Text.Lower and Text.IsLetter cover ASCII only and ignore the locale. Java's `String.toLowerCase` follows Unicode and the default locale: it can change a string's length, and under a Turkish locale a capital `I` lowers to a dotless `ı`, which the source then counts as a wrong guess while the model reads it as `i`.
- Leaderboard.Enumerate: the order among equal scores is not specified, as `PriorityQueue` leaves it. Only the score order and the multiset of entries are stated.
- The source's `Trie` has no query operation. `HasWord` and `HasPrefix` are specification predicates over the trie's ghost description, not part of the source.
- `main` is not modelled; it only creates the game.
