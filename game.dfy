/**
 * The Wordle game of src/minimax_games/games/wordle/game.py: the automatic
 * scorer, the alpha-beta guesser's opening rules and root node, the
 * guess/score state machine, its display, the driving loop of main() and the
 * validation of the command-line arguments.
 */
module WordleGame {
  import opened Outcomes
  import opened Evaluation
  import Pruner
  import WordleNodes

  /** A guesser picks the next guess from the history; it may raise. */
  type Guesser = (seq<string>, seq<string>) -> Result<string>

  /** A scorer gives the feedback a guess receives. */
  type Scorer = string -> string

  /**
   * The alpha-beta search, left opaque: from the root node's moves,
   * vocabulary and depth, the moves of the node it selects.
   */
  type Search = (seq<string>, seq<string>, int) -> seq<string>

  /** The facts about one AutoScorer feedback that the game relies on. */
  lemma AutoFeedback(truth: string, g: string)
    ensures var f := Feedback(truth, g);
      && Scorable(f) && !IsSentinel(f) && 0 <= ScoreEvaluation(f) <= 2 * |truth|
      && (|truth| == 5 && |g| == 5 ==> (f == CORRECT_GUESS <==> g == truth))
      && (|truth| == 5 && |g| == 5 ==> (ScoreEvaluation(f) == 10 <==> g == truth))
  {
    FeedbackScore(truth, g);
    FeedbackIsNoSentinel(truth, g);
    if |truth| == 5 && |g| == 5 {
      SolvedIffSame(truth, g);
    }
  }

  /** The facts of AutoFeedback about a feedback f of guess g, as one predicate. */
  predicate FeedbackFacts(truth: string, g: string, f: string)
  {
    && Scorable(f) && !IsSentinel(f) && 0 <= ScoreEvaluation(f) <= 2 * |truth|
    && (|truth| == 5 && |g| == 5 ==> (f == CORRECT_GUESS <==> g == truth))
  }

  /**
   * AutoScorer(truth): the scorer that evaluates every guess against the
   * truth word. Its feedback is always scorable, never a sentinel, within
   * 0..2*len(truth), and for five-letter words it is all-exact exactly for
   * the truth itself.
   */
  function AutoScorer(truth: string): (s: Scorer)
    ensures forall g :: s(g) == Feedback(truth, g)
    ensures forall g :: Scorable(s(g)) && !IsSentinel(s(g)) && 0 <= ScoreEvaluation(s(g)) <= 2 * |truth|
    ensures forall g :: |truth| == 5 && |g| == 5 ==> (s(g) == CORRECT_GUESS <==> g == truth)
  {
    forall g ensures FeedbackFacts(truth, g, Feedback(truth, g)) {
      AutoFeedback(truth, g);
    }
    g => Feedback(truth, g)
  }

  /** What AlphaBetaGuesser does with a history: a fixed opening word, or a search from a root node. */
  datatype Turn = Open(word: string) | Root(moves: seq<string>, vocabulary: seq<string>, depth: int)

  /**
   * The opening rules and root construction of AlphaBetaGuesser: "crate"
   * first; "bogus" after a single all-absent score; otherwise a maximising
   * root holding the last guess and score, over the vocabulary pruned by the
   * whole history, at depth 1 + 2*len(guesses).
   */
  function NextTurn(vocabulary: seq<string>, guesses: seq<string>, scores: seq<string>): (r: Result<Turn>)
    ensures guesses == [] ==> r == Ok(Open("crate"))
    ensures |guesses| == 1 && scores == [] ==> r == Err(IndexError)
    ensures |guesses| == 1 && scores != [] && scores[|scores| - 1] == COMPLETELY_WRONG ==> r == Ok(Open("bogus"))
    ensures |guesses| > 1 && |guesses| != |scores| ==> r == Err(ValueError)
    ensures r.Ok? && r.value.Open? ==> r.value.word in {"crate", "bogus"}
    ensures r.Ok? && r.value.Root? ==>
      && |guesses| == |scores| > 0
      && r.value.moves == [guesses[|guesses| - 1], scores[|scores| - 1]]
      && r.value.depth == 1 + 2 * |guesses|
      && r.value.depth % 2 == 1
      && Pruner.Pruned(vocabulary, guesses, scores, false) == Ok(r.value.vocabulary)
    ensures guesses != [] && !(|guesses| == 1 && (scores == [] || scores[|scores| - 1] == COMPLETELY_WRONG)) ==>
      var p := Pruner.Pruned(vocabulary, guesses, scores, false);
      && (p.Err? ==> r == Err(p.error))
      && (p.Ok? ==> r == Ok(Root([guesses[|guesses| - 1], scores[|scores| - 1]], p.value, 1 + 2 * |guesses|)))
  {
    if guesses == [] then Ok(Open("crate"))
    else if |guesses| == 1 && scores == [] then Err(IndexError)
    else if |guesses| == 1 && scores[|scores| - 1] == COMPLETELY_WRONG then Ok(Open("bogus"))
    else
      match Pruner.Pruned(vocabulary, guesses, scores, false)
      case Err(e) => Err(e)
      case Ok(words) =>
        Ok(Root([guesses[|guesses| - 1], scores[|scores| - 1]], words, 1 + 2 * |guesses|))
  }

  /**
   * AlphaBetaGuesser.__call__: the opening word, or the second-to-last move
   * of the node the search selects (IndexError when it has fewer than two moves).
   */
  function AlphaBetaGuess(vocabulary: seq<string>, search: Search, guesses: seq<string>, scores: seq<string>): (r: Result<string>)
    ensures guesses == [] ==> r == Ok("crate")
    ensures NextTurn(vocabulary, guesses, scores).Err? ==> r == Err(NextTurn(vocabulary, guesses, scores).error)
    ensures r.Ok? && r.value !in {"crate", "bogus"} ==>
      var t := NextTurn(vocabulary, guesses, scores);
      t.Ok? && t.value.Root? &&
      var best := search(t.value.moves, t.value.vocabulary, t.value.depth);
      2 <= |best| && r.value == best[|best| - 2]
    ensures var t := NextTurn(vocabulary, guesses, scores);
      && (t.Ok? && t.value.Open? ==> r == Ok(t.value.word))
      && (t.Ok? && t.value.Root? ==>
            var best := search(t.value.moves, t.value.vocabulary, t.value.depth);
            && (r.Ok? <==> 2 <= |best|)
            && (r.Ok? ==> r.value == best[|best| - 2])
            && (r.Err? ==> r.error == IndexError))
  {
    match NextTurn(vocabulary, guesses, scores)
    case Err(e) => Err(e)
    case Ok(Open(w)) => Ok(w)
    case Ok(Root(moves, words, depth)) =>
      var best := search(moves, words, depth);
      if |best| < 2 then Err(IndexError) else Ok(best[|best| - 2])
  }

  /** AlphaBetaGuesser(vocabulary) as a guesser. */
  function AlphaBetaGuesser(vocabulary: seq<string>, search: Search): Guesser
  {
    (guesses, scores) => AlphaBetaGuess(vocabulary, search, guesses, scores)
  }

  /**
   * A search that answers with a grandchild of the root (a guess word and
   * its feedback appended to the root's moves) makes that guess word the
   * guesser's choice.
   */
  lemma GuessFromGrandchild(vocabulary: seq<string>, search: Search, guesses: seq<string>, scores: seq<string>,
                            w: string, f: string)
    requires var t := NextTurn(vocabulary, guesses, scores);
      t.Ok? && t.value.Root? && search(t.value.moves, t.value.vocabulary, t.value.depth) == t.value.moves + [w, f]
    ensures AlphaBetaGuess(vocabulary, search, guesses, scores) == Ok(w)
  {
    var t := NextTurn(vocabulary, guesses, scores).value;
    var best := t.moves + [w, f];
    assert best[|best| - 2] == w;
  }

  /**
   * When the history is honest for a five-letter truth word of a five-letter
   * vocabulary, and the opening rules do not apply, the root node is built
   * and its vocabulary still holds the truth word.
   */
  lemma RootKeepsTruth(vocabulary: seq<string>, truth: string, guesses: seq<string>, scores: seq<string>)
    requires Pruner.Honest(truth, guesses, scores) && Pruner.FiveLetters(guesses) && guesses != []
    requires !(|guesses| == 1 && scores[0] == COMPLETELY_WRONG)
    requires truth in vocabulary && Pruner.FiveLetters(vocabulary) && |truth| == 5
    ensures var t := NextTurn(vocabulary, guesses, scores);
      t.Ok? && t.value.Root? && truth in t.value.vocabulary && Pruner.FiveLetters(t.value.vocabulary)
  {
    Pruner.TruthSurvives(vocabulary, truth, guesses, scores, false);
    var words := Pruner.Pruned(vocabulary, guesses, scores, false).value;
    assert |guesses| == |scores| > 0;
    assert !(|guesses| == 1 && scores[|scores| - 1] == COMPLETELY_WRONG);
    assert NextTurn(vocabulary, guesses, scores)
      == Ok(Root([guesses[|guesses| - 1], scores[|scores| - 1]], words, 1 + 2 * |guesses|));
  }

  /**
   * The root node the guesser searches from is maximising, and it is terminal
   * exactly when the history holds six guesses or its last score is all-exact.
   */
  lemma RootNodeRole(vocabulary: seq<string>, guesses: seq<string>, scores: seq<string>, n: WordleNodes.WordleNode)
    requires var t := NextTurn(vocabulary, guesses, scores);
      t.Ok? && t.value.Root? && n.moves == t.value.moves && n.depth == t.value.depth
    ensures n.IsMaximising()
    ensures n.IsTerminal() <==> |guesses| == 6 || scores[|scores| - 1] == CORRECT_GUESS
  {
  }

  /** is_terminal(): some score is all-exact, or six scores are recorded. */
  predicate Over(scores: seq<string>)
  {
    CORRECT_GUESS in scores || |scores| == 6
  }

  /**
   * With honest scores of five-letter guesses for a five-letter truth word,
   * the game is over exactly when the truth has been guessed or six scores
   * are recorded.
   */
  lemma HonestOver(truth: string, guesses: seq<string>, scores: seq<string>)
    requires Pruner.Honest(truth, guesses, scores) && Pruner.FiveLetters(guesses) && |truth| == 5
    ensures Over(scores) <==> truth in guesses || |scores| == 6
  {
    if CORRECT_GUESS in scores {
      var k :| 0 <= k < |scores| && scores[k] == CORRECT_GUESS;
      assert guesses[k] in guesses;
      SolvedIffSame(truth, guesses[k]);
    }
    if truth in guesses {
      var k :| 0 <= k < |guesses| && guesses[k] == truth;
      SolvedIffSame(truth, truth);
      assert scores[k] == CORRECT_GUESS;
    }
  }

  /** The value main() returns for the final scores: score_evaluation of the last, or KeyError. */
  function Final(scores: seq<string>): (r: Result<int>)
    requires scores != []
    ensures r.Err? <==> !Scorable(scores[|scores| - 1])
    ensures r.Err? ==> r.error == KeyError
    ensures r.Ok? ==> r.value == ScoreEvaluation(scores[|scores| - 1])
    ensures r.Ok? && !IsSentinel(scores[|scores| - 1]) ==> 0 <= r.value <= 2 * |scores[|scores| - 1]|
  {
    var last := scores[|scores| - 1];
    if Scorable(last) then Ok(ScoreEvaluation(last)) else Err(KeyError)
  }

  /** The guess/score state machine of the game. */
  class Wordle {
    const guesser: Guesser
    const scorer: Scorer
    const vocabulary: seq<string>
    var guessNext: bool
    var guesses: seq<string>
    var scores: seq<string>

    /** The alternation invariant: at most one guess is awaiting its score, exactly when a score is due. */
    ghost predicate Valid()
      reads this
    {
      |scores| <= |guesses| <= |scores| + 1 && (guessNext <==> |guesses| == |scores|)
    }

    constructor (guesser: Guesser, scorer: Scorer, vocabulary: seq<string>)
      ensures this.guesser == guesser && this.scorer == scorer && this.vocabulary == vocabulary
      ensures guessNext && guesses == [] && scores == []
      ensures Valid()
    {
      this.guesser := guesser;
      this.scorer := scorer;
      this.vocabulary := vocabulary;
      guessNext := true;
      guesses := [];
      scores := [];
    }

    /** guess(): RuntimeError while a guess is unscored; otherwise appends exactly one guess. */
    method Guess(guess: string) returns (r: Outcome)
      modifies this`guesses
      ensures old(|guesses| > |scores|) ==> r == Fail(RuntimeError) && guesses == old(guesses)
      ensures old(|guesses| <= |scores|) ==> r == Pass && guesses == old(guesses) + [guess]
    {
      if |guesses| > |scores| {
        return Fail(RuntimeError);
      }
      guesses := guesses + [guess];
      return Pass;
    }

    /**
     * score(): RuntimeError when every guess is scored; IndexError when there
     * is no guess at all; otherwise appends the scorer's feedback for the
     * last guess and returns it.
     */
    method Score() returns (r: Result<string>)
      modifies this`scores
      ensures old(|scores| == |guesses|) ==> r == Err(RuntimeError) && scores == old(scores)
      ensures old(|scores| != |guesses|) && guesses == [] ==> r == Err(IndexError) && scores == old(scores)
      ensures old(|scores| != |guesses|) && guesses != [] ==>
        r == Ok(scorer(guesses[|guesses| - 1])) && scores == old(scores) + [r.value]
    {
      if |scores| == |guesses| {
        return Err(RuntimeError);
      }
      if guesses == [] {
        return Err(IndexError);
      }
      var score := scorer(guesses[|guesses| - 1]);
      scores := scores + [score];
      return Ok(score);
    }

    /**
     * move(): guesses or scores as guess_next says, and toggles guess_next
     * unless that raised. From a valid state the alternation invariant is
     * kept and the only possible failure is the guesser's own.
     */
    method Move() returns (r: Outcome)
      modifies this`guessNext, this`guesses, this`scores
      ensures old(guessNext) ==> scores == old(scores)
      ensures old(guessNext) && guesser(old(guesses), old(scores)).Err? ==>
        r == Fail(guesser(old(guesses), old(scores)).error) && guesses == old(guesses) && guessNext
      ensures old(guessNext) && guesser(old(guesses), old(scores)).Ok? && old(|guesses| > |scores|) ==>
        r == Fail(RuntimeError) && guesses == old(guesses) && guessNext
      ensures old(guessNext) && guesser(old(guesses), old(scores)).Ok? && old(|guesses| <= |scores|) ==>
        r == Pass && guesses == old(guesses) + [guesser(old(guesses), old(scores)).value] && !guessNext
      ensures !old(guessNext) ==> guesses == old(guesses)
      ensures !old(guessNext) && old(|scores| == |guesses|) ==> r == Fail(RuntimeError) && scores == old(scores) && !guessNext
      ensures !old(guessNext) && old(|scores| != |guesses|) && guesses == [] ==>
        r == Fail(IndexError) && scores == old(scores) && !guessNext
      ensures !old(guessNext) && old(|scores| != |guesses|) && guesses != [] ==>
        r == Pass && scores == old(scores) + [scorer(guesses[|guesses| - 1])] && guessNext
      ensures old(Valid()) ==> Valid()
      ensures old(Valid()) && r.Fail? ==>
        old(guessNext) && r == Fail(guesser(old(guesses), old(scores)).error)
    {
      if guessNext {
        var g := guesser(guesses, scores);
        if g.Err? {
          return Fail(g.error);
        }
        r := Guess(g.value);
        if r.Fail? {
          return;
        }
      } else {
        var s := Score();
        if s.Err? {
          return Fail(s.error);
        }
        r := Pass;
      }
      guessNext := !guessNext;
    }

    /** is_terminal() of the game. */
    predicate IsTerminal()
      reads this
    {
      Over(scores)
    }
  }

  /** The lines of the display: "guess score" for each scored pair. */
  function Lines(guesses: seq<string>, scores: seq<string>): (ls: seq<string>)
    ensures |ls| == Min(|guesses|, |scores|)
    ensures forall i :: 0 <= i < |ls| ==> ls[i] == guesses[i] + " " + scores[i]
  {
    seq(Min(|guesses|, |scores|), i requires 0 <= i < Min(|guesses|, |scores|) => guesses[i] + " " + scores[i])
  }

  /** "\n".join(ls). */
  function JoinLines(ls: seq<string>): string
  {
    if ls == [] then ""
    else if |ls| == 1 then ls[0]
    else JoinLines(ls[..|ls| - 1]) + "\n" + ls[|ls| - 1]
  }

  /** __str__(): the scored pairs one per line, then a pending guess on its own line. */
  function Render(guesses: seq<string>, scores: seq<string>): string
  {
    JoinLines(Lines(guesses, scores)) + (if |guesses| > |scores| then "\n" + guesses[|guesses| - 1] else "")
  }

  /** A string of one line. */
  predicate OneLine(s: string)
  {
    '\n' !in s
  }

  /** The number of newline characters of s. */
  function Newlines(s: string): nat
  {
    multiset(s)['\n']
  }

  /** Joining two strings with a newline adds exactly that newline. */
  lemma NewlinesJoin(a: string, b: string)
    ensures Newlines(a + "\n" + b) == Newlines(a) + 1 + Newlines(b)
  {
    assert multiset(a + "\n" + b) == multiset(a) + multiset("\n") + multiset(b);
  }

  /** A display line of one-line parts is one line. */
  lemma LineIsOneLine(guess: string, score: string)
    requires OneLine(guess) && OneLine(score)
    ensures OneLine(guess + " " + score)
  {
    assert guess + " " + score == guess + (" " + score);
  }

  lemma {:induction false} JoinLinesNewlines(ls: seq<string>)
    requires forall i :: 0 <= i < |ls| ==> OneLine(ls[i])
    ensures Newlines(JoinLines(ls)) == if ls == [] then 0 else |ls| - 1
  {
    if |ls| > 1 {
      var front := ls[..|ls| - 1];
      JoinLinesNewlines(front);
      assert OneLine(ls[|ls| - 1]);
      NewlinesJoin(JoinLines(front), ls[|ls| - 1]);
    } else if |ls| == 1 {
      assert OneLine(ls[0]);
    }
  }

  /**
   * With one-line guesses and scores, the display has one line per scored
   * pair plus one for a pending guess: its newlines number the pairs less
   * one, plus one more when a guess is pending.
   */
  lemma RenderNewlines(guesses: seq<string>, scores: seq<string>)
    requires forall i :: 0 <= i < |guesses| ==> OneLine(guesses[i])
    requires forall i :: 0 <= i < |scores| ==> OneLine(scores[i])
    ensures var pairs := Min(|guesses|, |scores|);
      Newlines(Render(guesses, scores))
        == (if pairs == 0 then 0 else pairs - 1) + (if |guesses| > |scores| then 1 else 0)
  {
    var ls := Lines(guesses, scores);
    forall i | 0 <= i < |ls| ensures OneLine(ls[i]) {
      LineIsOneLine(guesses[i], scores[i]);
    }
    JoinLinesNewlines(ls);
    var body := JoinLines(ls);
    if |guesses| > |scores| {
      var last := guesses[|guesses| - 1];
      assert Render(guesses, scores) == body + "\n" + last;
      assert multiset(last)['\n'] == 0 by {
        assert OneLine(last);
      }
      NewlinesJoin(body, last);
    } else {
      assert Render(guesses, scores) == body;
    }
  }

  /** What a guess does to the display of a fully scored game: one more line holding the guess. */
  lemma RenderAfterGuess(guesses: seq<string>, scores: seq<string>, guess: string)
    requires |guesses| == |scores|
    ensures Render(guesses + [guess], scores) == Render(guesses, scores) + "\n" + guess
  {
    assert Lines(guesses + [guess], scores) == Lines(guesses, scores);
  }

  /** What a score does to the display: the pending guess line gains its score. */
  lemma RenderAfterScore(guesses: seq<string>, scores: seq<string>, score: string)
    requires |guesses| == |scores| + 1
    ensures var g := guesses[|guesses| - 1];
      Render(guesses, scores + [score])
        == if scores == [] then g + " " + score
           else Render(guesses[..|scores|], scores) + "\n" + g + " " + score
  {
    var g := guesses[|guesses| - 1];
    var ls := Lines(guesses, scores + [score]);
    assert ls[..|scores|] == Lines(guesses[..|scores|], scores);
    assert ls[|ls| - 1] == g + " " + score;
  }

  /**
   * The display at the first steps of a game: empty, then the pending guess
   * after a newline, then the scored line, then the next pending guess.
   */
  lemma RenderExamples()
    ensures Render([], []) == ""
    ensures Render(["crate"], []) == "\ncrate"
    ensures Render(["crate"], ["....."]) == "crate ....."
    ensures Render(["crate", "bogus"], ["....."]) == "crate .....\nbogus"
  {
    var line := "crate" + " " + ".....";
    assert line == "crate .....";
    assert Lines(["crate"], []) == [];
    assert Lines(["crate"], ["....."]) == [line];
    assert Lines(["crate", "bogus"], ["....."]) == [line];
  }

  /** The record of a whole game: the guesses, the scores and what main() returns or raises. */
  datatype Game = Game(guesses: seq<string>, scores: seq<string>, result: Result<int>)

  /**
   * The rest of a game from a guess turn: the guesser picks (its exception
   * ends the game), then the pending guess is scored.
   */
  function PlayFrom(guesser: Guesser, scorer: Scorer, guesses: seq<string>, scores: seq<string>): (g: Game)
    requires |guesses| == |scores| < 6 && !Over(scores)
    ensures |g.guesses| == |g.scores| <= 6
    ensures guesses <= g.guesses && scores <= g.scores
    ensures forall i :: |guesses| <= i < |g.guesses| ==> guesser(g.guesses[..i], g.scores[..i]) == Ok(g.guesses[i])
    ensures forall i :: |scores| <= i < |g.scores| ==> g.scores[i] == scorer(g.guesses[i])
    ensures forall i :: |scores| <= i < |g.scores| ==> !Over(g.scores[..i])
    ensures Over(g.scores) ==> g.result == Final(g.scores)
    ensures !Over(g.scores) ==> guesser(g.guesses, g.scores).Err? && g.result == Err(guesser(g.guesses, g.scores).error)
    decreases 6 - |scores|, 1
  {
    match guesser(guesses, scores)
    case Err(e) => Game(guesses, scores, Err(e))
    case Ok(x) =>
      var g := ScoreFrom(guesser, scorer, guesses + [x], scores);
      assert g.guesses[..|guesses|] == guesses && g.guesses[|guesses|] == x && g.scores[..|scores|] == scores;
      forall i | |guesses| <= i < |g.guesses| ensures guesser(g.guesses[..i], g.scores[..i]) == Ok(g.guesses[i]) {
        if i == |guesses| {
          assert g.guesses[..i] == guesses && g.scores[..i] == scores;
        }
      }
      forall i | |scores| <= i < |g.scores| ensures !Over(g.scores[..i]) {
        if i == |scores| {
          assert g.scores[..i] == scores;
        }
      }
      g
  }

  /** The rest of a game from a score turn: the last guess is scored; the game ends once it is over. */
  function ScoreFrom(guesser: Guesser, scorer: Scorer, guesses: seq<string>, scores: seq<string>): (g: Game)
    requires |guesses| == |scores| + 1 && |scores| < 6 && !Over(scores)
    ensures |g.guesses| == |g.scores| <= 6
    ensures guesses <= g.guesses && scores <= g.scores
    ensures forall i :: |guesses| <= i < |g.guesses| ==> guesser(g.guesses[..i], g.scores[..i]) == Ok(g.guesses[i])
    ensures forall i :: |scores| <= i < |g.scores| ==> g.scores[i] == scorer(g.guesses[i])
    ensures forall i :: |scores| < i < |g.scores| ==> !Over(g.scores[..i])
    ensures Over(g.scores) ==> g.result == Final(g.scores)
    ensures !Over(g.scores) ==> guesser(g.guesses, g.scores).Err? && g.result == Err(guesser(g.guesses, g.scores).error)
    decreases 6 - |scores|, 0
  {
    var ss := scores + [scorer(guesses[|guesses| - 1])];
    if Over(ss) then Game(guesses, ss, Final(ss))
    else
      var g := PlayFrom(guesser, scorer, guesses, ss);
      assert g.scores[..|ss|] == ss && g.scores[|scores|] == ss[|scores|];
      assert g.guesses[..|guesses|] == guesses;
      forall i | |scores| <= i < |g.scores| ensures g.scores[i] == scorer(g.guesses[i]) {
        if i == |scores| {
          assert g.guesses[i] == guesses[|guesses| - 1];
        }
      }
      g
  }

  /**
   * main(): a game from the empty history, moving until it is terminal, then
   * score_evaluation of the last score. The ghost results are the final
   * guesses and scores; truth and the console output of main() take no part.
   */
  method Play(vocabulary: seq<string>, guesser: Guesser, scorer: Scorer)
    returns (r: Result<int>, ghost guesses: seq<string>, ghost scores: seq<string>)
    ensures r == PlayFrom(guesser, scorer, [], []).result
    ensures Game(guesses, scores, r) == PlayFrom(guesser, scorer, [], [])
  {
    var wordle := new Wordle(guesser, scorer, vocabulary);
    ghost var game := PlayFrom(guesser, scorer, [], []);
    while true
      invariant wordle.Valid() && wordle.guesser == guesser && wordle.scorer == scorer
      invariant |wordle.scores| < 6 && !Over(wordle.scores)
      invariant wordle.guessNext ==> PlayFrom(guesser, scorer, wordle.guesses, wordle.scores) == game
      invariant !wordle.guessNext ==> ScoreFrom(guesser, scorer, wordle.guesses, wordle.scores) == game
      decreases 12 - |wordle.guesses| - |wordle.scores|
    {
      var o := wordle.Move();
      if o.Fail? {
        r, guesses, scores := Err(o.error), wordle.guesses, wordle.scores;
        return;
      }
      if wordle.IsTerminal() {
        break;
      }
    }
    guesses, scores := wordle.guesses, wordle.scores;
    var last := wordle.scores[|wordle.scores| - 1];
    if Scorable(last) {
      r := Ok(ScoreEvaluation(last));
    } else {
      r := Err(KeyError);
    }
  }

  /** How any game ends: its last score is the scorer's feedback on its last guess. */
  lemma GameEnd(guesser: Guesser, scorer: Scorer)
    ensures var g := PlayFrom(guesser, scorer, [], []);
      && |g.guesses| == |g.scores|
      && (g.guesses != [] ==> g.scores[|g.scores| - 1] == scorer(g.guesses[|g.guesses| - 1]))
      && (Over(g.scores) ==> g.guesses != [] && g.result == Final(g.scores))
      && (!Over(g.scores) ==> guesser(g.guesses, g.scores) == Err(g.result.error) && g.result.Err?)
  {
    var g := PlayFrom(guesser, scorer, [], []);
    if g.guesses != [] {
      assert 0 <= |g.scores| - 1 < |g.scores|;
    }
  }

  /**
   * A game driven by AlphaBetaGuesser opens with "crate", and follows an
   * all-absent first score with "bogus", whatever the vocabulary and search.
   */
  lemma AlphaBetaOpening(vocabulary: seq<string>, search: Search, scorer: Scorer)
    ensures var g := PlayFrom(AlphaBetaGuesser(vocabulary, search), scorer, [], []);
      && |g.guesses| >= 1 && g.guesses[0] == "crate"
      && (scorer("crate") == COMPLETELY_WRONG ==> |g.guesses| >= 2 && g.guesses[1] == "bogus")
  {
    var guesser := AlphaBetaGuesser(vocabulary, search);
    var g := PlayFrom(guesser, scorer, [], []);
    assert guesser([], []) == Ok("crate");
    assert g.guesses[..0] == [] && g.scores[..0] == [];
    assert g.guesses[0] == "crate";
    if scorer("crate") == COMPLETELY_WRONG {
      assert g.scores[0] == COMPLETELY_WRONG;
      assert guesser(["crate"], [COMPLETELY_WRONG]) == Ok("bogus");
      assert !Over([COMPLETELY_WRONG]);
      assert g.guesses[..1] == ["crate"] && g.scores[..1] == [COMPLETELY_WRONG];
    }
  }

  /**
   * Played with the AutoScorer (or any scorer that evaluates guesses against
   * the truth word), a game raises only what its guesser raises (never
   * KeyError from scoring), returns a score within 0..2*len(truth), and for a
   * five-letter truth and a five-letter final guess returns 10 exactly when
   * that guess is the truth.
   */
  lemma AutoScoredGame(truth: string, guesser: Guesser, scorer: Scorer)
    requires forall g :: scorer(g) == Feedback(truth, g)
    ensures var g := PlayFrom(guesser, scorer, [], []);
      && (g.result.Err? ==> !Over(g.scores) && guesser(g.guesses, g.scores) == Err(g.result.error))
      && (g.result.Ok? ==> g.guesses != [] && 0 <= g.result.value <= 2 * |truth|)
      && (g.result.Ok? && |truth| == 5 && |g.guesses[|g.guesses| - 1]| == 5 ==>
            (g.result.value == 10 <==> g.guesses[|g.guesses| - 1] == truth))
  {
    GameEnd(guesser, scorer);
    var g := PlayFrom(guesser, scorer, [], []);
    if Over(g.scores) {
      var last := g.guesses[|g.guesses| - 1];
      var final := g.scores[|g.scores| - 1];
      assert final == Feedback(truth, last);
      AutoFeedback(truth, last);
      assert Scorable(final);
      assert g.result == Ok(ScoreEvaluation(final));
    }
  }

  /** The validated arguments of the command line. */
  datatype WordleArgs = WordleArgs(truth: string, vocabulary: seq<string>, guesser: Guesser, scorer: Scorer,
                                   logLevel: string)

  /** str.upper() on ASCII letters. */
  function UpperChar(c: char): char
  {
    if 'a' <= c <= 'z' then (c as int - 32) as char else c
  }

  /** str.upper(): every ASCII lower-case letter upper-cased, everything else kept. */
  function Upper(s: string): (u: string)
    ensures |u| == |s|
    ensures forall i :: 0 <= i < |s| ==> u[i] == UpperChar(s[i])
  {
    seq(|s|, i requires 0 <= i < |s| => UpperChar(s[i]))
  }

  /**
   * WordleArgs.__init__: ValueError exactly when the truth word is not in the
   * vocabulary; otherwise the fields as given, with the log level upper-cased.
   */
  function NewWordleArgs(truth: string, vocabulary: seq<string>, guesser: Guesser, scorer: Scorer,
                         logLevel: string): (r: Result<WordleArgs>)
    ensures r.Err? <==> truth !in vocabulary
    ensures r.Err? ==> r.error == ValueError
    ensures r.Ok? ==>
      && r.value.truth == truth && r.value.vocabulary == vocabulary
      && r.value.guesser == guesser && r.value.scorer == scorer && r.value.logLevel == Upper(logLevel)
  {
    if truth !in vocabulary then Err(ValueError)
    else Ok(WordleArgs(truth, vocabulary, guesser, scorer, Upper(logLevel)))
  }
}
