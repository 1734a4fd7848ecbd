# Wordle as an adversarial game, in Dafny

This project models the Wordle part of `minimax_games`. The Python code is in
`src/minimax_games/games/wordle/node.py` and `src/minimax_games/games/wordle/game.py`.

The model covers:

- **Evaluation** (`evaluation.dfy`). `present()`, `evaluate()` and `score_evaluation()`.
  - The feedback is a string over `=` (exact), `-` (displaced) and `.` (absent).
  - Two sentinel strings, `_____` and `^^^^^`, mark the search bounds.
  - `evaluate()` appears twice. `Feedback` is the function that specifies it. `Evaluate` is the method with the source's character-by-character loop, proved equal to `Feedback`.
- **Pruner** (`pruner.dfy`). `prune_correct()`, `prune_present()`, `prune_missing()` and `prune()`.
  - Every list comprehension of the pruner is one `Rule` applied by `Keep`.
  - A rule that reads `w[i]` on a word too short for it raises `IndexError`. The model keeps that error as a value. It does not forbid short words up front.
  - `prune()` is also written twice. `Pruned`/`PruneFrom`/`PrunePositions` state it as a value. `Prune` is the loop over the reversed pairs, with its early return and its `break`, proved equal to `Pruned`.
- **WordleNodes** (`node.dfy`). The class `WordleNode`, with the fields `moves`, `vocabulary` and `depth`.
  - It covers the node's role, terminal test, heuristic score, score ordering and sentinel factories.
  - `prune()` overwrites the node's own vocabulary. A maximising node's `children()` prunes first; every node then builds one child per vocabulary word.
- **WordleGame** (`game.dfy`).
  - `AutoScorer`.
  - The opening rules and the root node of `AlphaBetaGuesser`.
  - The `Wordle` state machine: `guess`, `score`, `move`, `is_terminal` and `__str__`.
  - The loop of `main()`.
  - The check in `WordleArgs.__init__`.
- **Outcomes** (`outcomes.dfy`). Python exceptions become values:
  - `Result` for a call that returns a value or raises;
  - `Outcome` for a procedure that returns `None` or raises;
  - `Error` names the exception class.

The guesser and the scorer are function parameters. A guesser returns a `Result`, because `AlphaBetaGuesser` can raise. The alpha-beta search is a function parameter `Search`. It maps the root's moves, vocabulary and depth to the moves of the node the search selects.

Notes on the code's behaviour, all of which the model keeps:

- `evaluate()` zips its arguments, so the pattern is as long as the shorter of the two words.
- The duplicate-letter rule counts every earlier occurrence of the letter in `guess[:i]`, whatever mark that occurrence received.
- A maximising node that is not a sentinel scores by the depth/distinct-letter heuristic, whether or not it is terminal.
- A node's move list and its depth are independent. The root built by `AlphaBetaGuesser` has two moves at depth `1 + 2*len(guesses)`.
- The guesser's next word is the second-to-last move of the node the search selects.
- Only the five-letter `"====="` ends pruning early. For words of another length, even an all-exact score drops the guessed word (`Pruner.OtherLengthsNeverSolve`).

The headline results:

- Suppose every score is the true feedback of its guess, and the truth word, the guesses and the vocabulary all have five letters. Then pruning raises nothing and keeps the truth word, over one pair or over the whole history (`Pruner.TruthSurvives`).
- Every word the pruner keeps is consistent with every pair. The kept words are an ordered sub-list of the input (`Pruner.PruneOnePair`, `Pruner.PruneHistory`).
- Pruning twice by the same pair changes nothing (`Pruner.PruneIdempotent`).
- Driven by `move()` from a fresh game, neither `RuntimeError` can happen (`WordleGame.Wordle.Move`).
- In a game against the automatic scorer, only the guesser can raise. If the guesser raises nothing, the result lies in 0..2*len(truth), which is 0..10 for a five-letter truth word. With a five-letter truth word and last guess, the result is 10 exactly when that guess is the truth (`WordleGame.AutoScoredGame`).

## Model

All paths are relative to the repository root.

| member | source | states |
|---|---|---|
| Evaluation.Present | src/minimax_games/games/wordle/node.py:16-23 | the mark is '-' or '.'; '-' at position 0, and after it '.' exactly when the truth holds c no more often than guess[:i] |
| Evaluation.Mark | src/minimax_games/games/wordle/node.py:30-35 | the symbol at a position is one of '.', '-', '='; it is '=' iff the letters agree, and '.' when the truth lacks the guessed letter |
| Evaluation.Feedback | src/minimax_games/games/wordle/node.py:26-36 | the pattern is as long as the shorter of truth and guess and uses only '.', '-', '=' |
| Evaluation.Evaluate | src/minimax_games/games/wordle/node.py:26-36 | the character loop builds exactly the pattern `Feedback` specifies |
| Evaluation.FeedbackAt | src/minimax_games/games/wordle/node.py:17-23 | at each position: '=' iff the letters agree; '.' for a letter the truth lacks; otherwise '-' iff the letter occurs in guess[:i] fewer times than in the truth |
| Evaluation.SolvedIffSame | src/minimax_games/games/wordle/node.py:29-31 | for equal lengths the pattern is all '=' iff guess equals truth; for five letters it is "=====" iff they are equal |
| Evaluation.DisplacedAtMostAim | src/minimax_games/games/wordle/node.py:18-22 | duplicate-letter rule: a letter is marked '-' at most as many times as the truth holds it |
| Evaluation.FirstOccurrenceMarked | src/minimax_games/games/wordle/node.py:17-23 | the first occurrence in the guess of a letter the truth holds is never marked '.' |
| Evaluation.Points | src/minimax_games/games/wordle/node.py:46-47 | the weight sum is at most twice the length; it is 0 iff every symbol is '.' and the maximum iff every symbol is '=' |
| Evaluation.ScoreEvaluation | src/minimax_games/games/wordle/node.py:39-47 | the sentinels score -100 and 100; every other pattern scores in 0..2*length |
| Evaluation.FeedbackIsNoSentinel | src/minimax_games/games/wordle/node.py:10-13 | no evaluation equals a sentinel string |
| Evaluation.FeedbackScore | src/minimax_games/games/wordle/node.py:26-47 | an evaluation is scorable and scores in 0..2*length: the maximum iff the guess agrees with the truth on the compared prefix, 0 iff every letter is absent; 0..10 for five-letter words, "=====" scores 10 and "....." 0 |
| Evaluation.ExampleRepeated | src/minimax_games/games/wordle/node.py:17-36 | the guess "aafgh" against "abcde" scores "=....": the second 'a' is absent |
| Evaluation.ExampleRotation | src/minimax_games/games/wordle/node.py:17-36 | the rotation "eabcd" against "abcde" scores "-----" |
| Evaluation.ExampleExtremes | src/minimax_games/games/wordle/node.py:26-36 | a disjoint guess scores "....."; the truth itself scores "=====" |
| Pruner.Filter | src/minimax_games/games/wordle/node.py:51 | a comprehension keeps exactly the words that satisfy its condition, and never grows the list |
| Pruner.FilterIsSublist | src/minimax_games/games/wordle/node.py:51 | a comprehension keeps the surviving words in their original order |
| Pruner.PruneCorrectKeeps | src/minimax_games/games/wordle/node.py:50-51 | prune_correct raises IndexError iff some word is too short for position i; otherwise it keeps, in order, exactly the words with c at i |
| Pruner.PrunePresentKeeps | src/minimax_games/games/wordle/node.py:54-55 | prune_present raises IndexError iff some word holding c is too short for position i; otherwise it keeps, in order, exactly the words holding c but not at i |
| Pruner.PruneMissingKeeps | src/minimax_games/games/wordle/node.py:58-65 | prune_missing keeps, in order, exactly the words without c; if c scored non-absent elsewhere in the guess it acts as prune_present instead |
| Pruner.PruneAtKeeps | src/minimax_games/games/wordle/node.py:84-93 | one position: ValueError exactly for an unknown symbol, IndexError only for a word too short; otherwise an ordered sub-list holding exactly the words with c at i ('='), with c elsewhere than i ('-'), without c ('.'), or with c elsewhere than i ('.' when c scored non-absent elsewhere in the guess) |
| Pruner.Pruned | src/minimax_games/games/wordle/node.py:68-96 | mismatched lengths raise ValueError; an empty history keeps the words; a final "=====" returns exactly [guess] |
| Pruner.Prune | src/minimax_games/games/wordle/node.py:68-96 | the loop over the reversed pairs, with its early return and break, computes exactly `Pruned` |
| Pruner.ErrorPersists | src/minimax_games/games/wordle/node.py:84-93 | once the position loop has raised, every later position raises the same exception |
| Pruner.PositionsFilter | src/minimax_games/games/wordle/node.py:84-93 | a position loop that succeeds keeps exactly, in order, the words that fit every position's rule |
| Pruner.PositionsSucceed | src/minimax_games/games/wordle/node.py:84-93 | on known symbols and words long enough, the position loop raises nothing |
| Pruner.PositionErrors | src/minimax_games/games/wordle/node.py:84-93 | the position loop raises only ValueError or IndexError: ValueError only for an unknown symbol, always when there is one; IndexError only for a word too short |
| Pruner.PositionsOnSubset | src/minimax_games/games/wordle/node.py:84-93 | words drawn from a list the position loop accepts are accepted too, and filtered by the same rules |
| Pruner.FinalOnlyUsesLastPair | src/minimax_games/games/wordle/node.py:94-95 | with final_only only the most recent guess/score pair matters |
| Pruner.PruneOnePair | src/minimax_games/games/wordle/node.py:78-93 | one pair that is not "=====": ValueError only for unknown symbols, IndexError only for short words; on long enough words it succeeds iff the symbols are known; on success it returns an ordered sub-list without the guess, holding exactly the words consistent with the pair |
| Pruner.PruneIdempotent | src/minimax_games/games/wordle/node.py:78-96 | applying the same pair to a pruned list again returns it unchanged |
| Pruner.PruneHistory | src/minimax_games/games/wordle/node.py:78-96 | over the full history the result is the guess of an all-exact pair, or an ordered sub-list consistent with every pair |
| Pruner.ConsistentAt | src/minimax_games/games/wordle/node.py:50-65 | a word that survives a pair is not the guess, and satisfies at every position the exact, displaced or absent rule (duplicate-aware) |
| Pruner.TruthAdmitted | src/minimax_games/games/wordle/node.py:58-65 | the truth word satisfies the rule its own feedback puts on each position, including the duplicate-aware absent rule |
| Pruner.TruthFits | src/minimax_games/games/wordle/node.py:84-91 | the truth word fits every position of its own feedback |
| Pruner.TruthSurvivesPair | src/minimax_games/games/wordle/node.py:82-93 | one honest pair, not all-exact, raises nothing and keeps the truth among five-letter words |
| Pruner.OtherLengthsNeverSolve | src/minimax_games/games/wordle/node.py:79-82 | a word of other than five letters never gets "=====", even against itself; pruning by its own all-exact feedback drops it, leaving nothing |
| Pruner.TruthSurvives | src/minimax_games/games/wordle/node.py:68-96 | with honest scores and five-letter words, prune raises nothing and keeps the truth word, with or without final_only |
| WordleNodes.DistinctCount | src/minimax_games/games/wordle/node.py:190 | len(set(s)) is at most len(s) |
| WordleNodes.WordleNode.constructor | src/minimax_games/games/wordle/node.py:155-163 | stores moves, vocabulary and depth as given |
| WordleNodes.WordleNode.Score | src/minimax_games/games/wordle/node.py:179-190 | sentinels score -100/100; a real move scores in 0..2*length; a non-sentinel maximising node scores at most len(last move), and 0 beyond depth 4; a minimising "=====" scores 10 |
| WordleNodes.WordleNode.Prune | src/minimax_games/games/wordle/node.py:221-229 | with fewer than two moves nothing changes; otherwise the vocabulary becomes prune(vocabulary, [moves[-2]], [moves[-1]]); if that raises, the vocabulary is kept |
| WordleNodes.WordleNode.Children | src/minimax_games/games/wordle/node.py:200-219 | a maximising node prunes itself first; then one fresh, distinct child per vocabulary word, one ply deeper with the opposite role, its own copy of the vocabulary, and the parent's moves plus the word or evaluate(word, moves[-1]); the parent's moves and depth are unchanged |
| WordleNodes.WordleNode.Minimum | src/minimax_games/games/wordle/node.py:234-235 | a fresh node with the single move "_____", no vocabulary, scoring -100 |
| WordleNodes.WordleNode.Maximum | src/minimax_games/games/wordle/node.py:231-232 | a fresh node with the single move "^^^^^", no vocabulary, scoring 100 |
| WordleNodes.SentinelsBracket | src/minimax_games/games/wordle/node.py:167-177 | under the score ordering, minimum() < n < maximum() for every scorable node n whose last move is not a sentinel and has fewer than 50 symbols |
| WordleNodes.DeepTies | src/minimax_games/games/wordle/node.py:167-189 | beyond depth 4 all non-sentinel maximising nodes score 0, so any two compare equal under all four operators |
| WordleNodes.SolvingChildIsTerminal | src/minimax_games/games/wordle/node.py:192-198 | a child of a minimising node is maximising; with five-letter words it is terminal iff its candidate word is the last guess or it reaches depth 13 |
| WordleGame.AutoFeedback | src/minimax_games/games/wordle/game.py:35-36 | an automatic score is scorable, no sentinel, in 0..2*len(truth); for five-letter words it is "=====" and scores 10 iff the guess is the truth |
| WordleGame.AutoScorer | src/minimax_games/games/wordle/game.py:31-36 | the scorer returns evaluate(truth, g); its feedback is scorable, no sentinel, in range, and "=====" exactly for the truth among five-letter guesses |
| WordleGame.NextTurn | src/minimax_games/games/wordle/game.py:70-85 | "crate" with no history; IndexError for one guess and no score; "bogus" after a single "....."; otherwise prune(..., final_only=False) of the whole history: its exception (ValueError for mismatched lengths) propagates, and its success always builds the root with moves [guesses[-1], scores[-1]], odd depth 1+2*len(guesses) and the pruned vocabulary |
| WordleGame.AlphaBetaGuess | src/minimax_games/games/wordle/game.py:70-95 | the opening word for an opening turn; the root's exception; for a root, Ok(best[-2]) iff the node the search selects has at least two moves, IndexError otherwise |
| WordleGame.GuessFromGrandchild | src/minimax_games/games/wordle/game.py:86-95 | a search answering with a grandchild of the root makes that grandchild's guess word the next guess |
| WordleGame.RootNodeRole | src/minimax_games/games/wordle/node.py:192-198 | the root the guesser builds is maximising, and terminal iff the history has six guesses or its last score is "=====" |
| WordleGame.RootKeepsTruth | src/minimax_games/games/wordle/game.py:75-85 | with an honest history over five-letter words the root is built and its vocabulary still holds the truth |
| WordleGame.HonestOver | src/minimax_games/games/wordle/game.py:140-143 | with honest scores of five-letter guesses for a five-letter truth word, the game is terminal iff the truth has been guessed or six scores are recorded |
| WordleGame.Final | src/minimax_games/games/wordle/game.py:164 | main's value raises KeyError iff the last score is not scorable; otherwise it is score_evaluation of the last score, in range |
| WordleGame.Wordle.constructor | src/minimax_games/games/wordle/game.py:99-110 | a fresh game: no guesses, no scores, a guess due |
| WordleGame.Wordle.Guess | src/minimax_games/games/wordle/game.py:120-123 | RuntimeError while a guess is unscored; otherwise exactly one guess is appended |
| WordleGame.Wordle.Score | src/minimax_games/games/wordle/game.py:125-130 | RuntimeError when every guess is scored; otherwise scorer(guesses[-1]) is appended and returned |
| WordleGame.Wordle.Move | src/minimax_games/games/wordle/game.py:132-138 | guesses or scores as guess_next says and toggles it; keeps len(scores) <= len(guesses) <= len(scores)+1; from that state only the guesser's own exception can escape |
| WordleGame.RenderNewlines | src/minimax_games/games/wordle/game.py:112-118 | with one-line guesses and scores, the display holds one newline fewer than the scored pairs (none without pairs), plus one before a pending guess, so a lone pending guess is "\n" followed by the guess |
| WordleGame.RenderAfterGuess | src/minimax_games/games/wordle/game.py:116-117 | a new pending guess appears on its own last line |
| WordleGame.RenderAfterScore | src/minimax_games/games/wordle/game.py:113-115 | scoring the pending guess turns its line into "guess score" |
| WordleGame.RenderExamples | src/minimax_games/games/wordle/game.py:112-118 | the display of the first steps: "", then "\ncrate", then "crate .....", then "crate .....\nbogus" |
| WordleGame.PlayFrom | src/minimax_games/games/wordle/game.py:157-164 | a game runs at most 6 rounds, each guess from the guesser and each score from the scorer; it stops at the first terminal state with score_evaluation of the last score, or with the guesser's exception |
| WordleGame.ScoreFrom | src/minimax_games/games/wordle/game.py:157-164 | the same from a score turn |
| WordleGame.Play | src/minimax_games/games/wordle/game.py:146-164 | the while-loop of main over a Wordle object ends in exactly the game `PlayFrom` describes |
| WordleGame.GameEnd | src/minimax_games/games/wordle/game.py:157-164 | a finished game's last score is the scorer's verdict on its last guess |
| WordleGame.AlphaBetaOpening | src/minimax_games/games/wordle/game.py:70-74 | a game driven by AlphaBetaGuesser, with any vocabulary, search and scorer, opens with "crate" and follows an all-absent first score with "bogus" |
| WordleGame.AutoScoredGame | src/minimax_games/games/wordle/game.py:146-164 | with the automatic scorer only the guesser can raise; the result is in 0..2*len(truth), and for five-letter words it is 10 iff the last guess is the truth |
| WordleGame.NewWordleArgs | src/minimax_games/games/wordle/game.py:176-182 | ValueError iff the truth is not in the vocabulary; otherwise the fields as given with the log level upper-cased |

## Left out

- `UserScorer` and `UserGuesser` are console prompts (`input()`/`print`) and are not modelled.
- `WordleArgs.from_argument_parser` and `cli` are not modelled: argparse, reading the word file and `random.choice`.
- The alpha-beta search engine (`minimax_games.search.alphabeta`) is not part of this model. It is the parameter `Search`, and its `a`/`b` bounds and `soft` flag are not passed.
- WordleGame.AlphaBetaGuess: `Search` is a total function, so an exception raised inside the search is not modelled. Only the IndexError of `best_guess.moves[-2]` is.
- `src/minimax_games/games/tic_tac_toe/game.py` and `src/minimax_games/games/wordle/__main__.py` are not part of this model.
- Logging and `functools.cache` change no result and are left out.
- The `print` calls of `main()` are left out.
- WordleGame.Play: takes no `truth` argument, because `main()` never reads it. The final guesses and scores are ghost results.
- WordleNodes.WordleNode.Children: returns the whole list of children at once, where the source is a lazy generator. An exception from `prune()` ends it before any child.
- WordleNodes.WordleNode.Score: requires a non-empty move list and a last move that is scorable when it is scored by `score_evaluation`. The source raises IndexError or KeyError otherwise.
- Evaluation.ScoreEvaluation: requires a sentinel or a string over '.', '-', '='. The source raises KeyError otherwise. That KeyError is modelled one level up, in `WordleGame.Final`.
- WordleGame.Upper: upper-cases ASCII letters only. Python's Unicode case mapping is not modelled.
- A guesser's exception is a `Result` value. A scorer is a total function; a scorer that raises is not modelled.
- Several definitions carry no contract of their own. The lemmas named here state what holds of them:
  - The comparison operators `__lt__`, `__le__`, `__gt__` and `__ge__`: `WordleNodes.SentinelsBracket` and `WordleNodes.DeepTies`.
  - `is_maximising` and the node's `is_terminal`: `WordleNodes.SolvingChildIsTerminal`, `WordleGame.RootNodeRole` and `WordleNodes.WordleNode.Children`.
  - The game's `is_terminal`: `WordleGame.HonestOver` and `WordleGame.PlayFrom`.
  - `__str__`: `WordleGame.RenderNewlines`, `WordleGame.RenderExamples`, `WordleGame.RenderAfterGuess` and `WordleGame.RenderAfterScore`.
  - `prune_correct`, `prune_present` and `prune_missing`: the three `Pruner.Prune…Keeps` lemmas.
  - `AlphaBetaGuesser`: `WordleGame.AlphaBetaOpening`.
