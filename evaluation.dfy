/**
 * The Wordle feedback evaluator and the pattern scorer of
 * src/minimax_games/games/wordle/node.py.
 *
 * A feedback pattern has one symbol per letter position: '=' (the letter is
 * exact), '-' (the truth word holds the letter elsewhere) and '.' (absent).
 * Two further five-character strings are reserved as sentinels that mark the
 * lower and upper search bound.
 */
module Evaluation {
  import opened Outcomes

  const CORRECT_GUESS: string := "====="
  const COMPLETELY_WRONG: string := "....."
  const MINIMUM_NODE: string := "_____"
  const MAXIMUM_NODE: string := "^^^^^"

  /** The smaller of two lengths: how many pairs zip() yields. */
  function Min(a: int, b: int): int
  {
    if a < b then a else b
  }

  /**
   * present(): the mark of guess letter c at position i when the truth word
   * (the aim) holds c but not at i. It is '-' at position 0, and elsewhere
   * while c occurs fewer times in guess[0:i] than in the aim.
   */
  function Present(aim: string, guess: string, c: char, i: int): (r: char)
    ensures r == '-' || r == '.'
    ensures r == '.' ==> 0 < i
    ensures 0 < i <= |guess| ==> (r == '.' <==> multiset(aim)[c] <= multiset(guess[..i])[c])
  {
    if i > 0 && multiset(aim)[c] <= multiset(guess[..Min(i, |guess|)])[c] then '.' else '-'
  }

  /** The symbol evaluate() appends at position i. */
  function Mark(aim: string, guess: string, i: nat): (r: char)
    requires i < |aim| && i < |guess|
    ensures r in ".-="
    ensures r == '=' <==> aim[i] == guess[i]
    ensures guess[i] !in aim ==> r == '.'
  {
    if aim[i] == guess[i] then '='
    else if guess[i] in aim then Present(aim, guess, guess[i], i)
    else '.'
  }

  /** Every symbol is one of '.', '-' and '='. */
  predicate IsPattern(sc: string)
  {
    forall i :: 0 <= i < |sc| ==> sc[i] in ".-="
  }

  /**
   * evaluate(aim, guess) as a value: one symbol per position of
   * zip(aim, guess), so as long as the shorter of the two words.
   */
  function Feedback(aim: string, guess: string): (r: string)
    ensures |r| == Min(|aim|, |guess|)
    ensures IsPattern(r)
  {
    seq(Min(|aim|, |guess|), i requires 0 <= i < Min(|aim|, |guess|) => Mark(aim, guess, i))
  }

  /** evaluate(): builds the pattern symbol by symbol, as the source's loop does. */
  method Evaluate(aim: string, guess: string) returns (status: string)
    ensures status == Feedback(aim, guess)
  {
    status := "";
    var n := if |aim| < |guess| then |aim| else |guess|;
    for i := 0 to n
      invariant status == Feedback(aim, guess)[..i]
    {
      var aimc, guessc := aim[i], guess[i];
      if aimc == guessc {
        status := status + "=";
      } else if guessc in aim {
        status := status + [Present(aim, guess, guessc, i)];
      } else {
        status := status + ".";
      }
    }
    assert Feedback(aim, guess)[..n] == Feedback(aim, guess);
  }

  /**
   * The symbol at each position: '=' exactly when the letters agree; '.' for
   * a letter the aim lacks; otherwise '-' exactly while the letter occurs in
   * guess[0:i] fewer times than in the aim (position 0 included).
   */
  lemma FeedbackAt(aim: string, guess: string, i: nat)
    requires i < |aim| && i < |guess|
    ensures var r := Feedback(aim, guess);
      && (r[i] == '=' <==> aim[i] == guess[i])
      && (aim[i] != guess[i] && guess[i] !in aim ==> r[i] == '.')
      && (aim[i] != guess[i] && guess[i] in aim ==>
            (r[i] == '-' <==> multiset(guess[..i])[guess[i]] < multiset(aim)[guess[i]]))
  {
    var c := guess[i];
    if c in aim {
      assert c in multiset(aim);
    }
    if i == 0 {
      assert guess[..i] == [];
    } else {
      assert Min(i, |guess|) == i;
    }
  }

  /** A word scores all-exact against itself, and against nothing else of its length. */
  lemma SolvedIffSame(aim: string, guess: string)
    requires |aim| == |guess|
    ensures (forall i :: 0 <= i < |aim| ==> Feedback(aim, guess)[i] == '=') <==> aim == guess
    ensures |aim| == 5 ==> (Feedback(aim, guess) == CORRECT_GUESS <==> aim == guess)
  {
    if aim != guess {
      var i :| 0 <= i < |aim| && aim[i] != guess[i];
      FeedbackAt(aim, guess, i);
    }
    if |aim| == 5 {
      if Feedback(aim, guess) == CORRECT_GUESS {
        forall i | 0 <= i < 5 ensures aim[i] == guess[i] {
          FeedbackAt(aim, guess, i);
        }
      }
    }
  }

  /** How many of the first n positions hold guess letter c marked '-'. */
  function DisplacedCount(r: string, guess: string, c: char, n: nat): nat
    requires n <= |r| && n <= |guess|
  {
    if n == 0 then 0
    else DisplacedCount(r, guess, c, n - 1) + (if r[n - 1] == '-' && guess[n - 1] == c then 1 else 0)
  }

  lemma {:induction false} DisplacedInPrefix(aim: string, guess: string, c: char, n: nat)
    requires n <= |aim| && n <= |guess|
    ensures DisplacedCount(Feedback(aim, guess), guess, c, n) <= multiset(guess[..n])[c]
    ensures DisplacedCount(Feedback(aim, guess), guess, c, n) <= multiset(aim)[c]
  {
    if n > 0 {
      DisplacedInPrefix(aim, guess, c, n - 1);
      assert guess[..n] == guess[..n - 1] + [guess[n - 1]];
      FeedbackAt(aim, guess, n - 1);
    }
  }

  /**
   * The duplicate-letter rule: a letter of the aim is marked displaced ('-')
   * at most as many times as the aim holds it.
   */
  lemma DisplacedAtMostAim(aim: string, guess: string, c: char)
    ensures var r := Feedback(aim, guess);
      DisplacedCount(r, guess, c, |r|) <= multiset(aim)[c]
  {
    var n := Min(|aim|, |guess|);
    DisplacedInPrefix(aim, guess, c, n);
  }

  /** The first occurrence in the guess of a letter the aim holds is never marked absent. */
  lemma FirstOccurrenceMarked(aim: string, guess: string, i: nat)
    requires i < |aim| && i < |guess|
    requires guess[i] in aim && guess[i] !in guess[..i]
    ensures Feedback(aim, guess)[i] != '.'
  {
    FeedbackAt(aim, guess, i);
    assert multiset(guess[..i])[guess[i]] == 0;
    assert guess[i] in multiset(aim);
  }

  /** Either bound sentinel. */
  predicate IsSentinel(sc: string)
  {
    sc == MINIMUM_NODE || sc == MAXIMUM_NODE
  }

  /** The strings score_evaluation accepts; any other raises KeyError. */
  predicate Scorable(sc: string)
  {
    IsSentinel(sc) || IsPattern(sc)
  }

  /** The weight of one symbol: '.' 0, '-' 1, '=' 2. */
  function SymbolPoints(s: char): nat
    requires s in ".-="
  {
    if s == '=' then 2 else if s == '-' then 1 else 0
  }

  /** The sum of the symbol weights of a pattern. */
  function Points(sc: string): (r: nat)
    requires IsPattern(sc)
    ensures r <= 2 * |sc|
    ensures r == 0 <==> forall i :: 0 <= i < |sc| ==> sc[i] == '.'
    ensures r == 2 * |sc| <==> forall i :: 0 <= i < |sc| ==> sc[i] == '='
  {
    if sc == [] then 0
    else
      assert IsPattern(sc[1..]) by {
        forall i | 0 <= i < |sc[1..]| ensures sc[1..][i] in ".-=" { assert sc[1..][i] == sc[i + 1]; }
      }
      assert forall i :: 1 <= i < |sc| ==> sc[i] == sc[1..][i - 1];
      SymbolPoints(sc[0]) + Points(sc[1..])
  }

  /** score_evaluation(): -100 and 100 for the sentinels, the symbol weights otherwise. */
  function ScoreEvaluation(sc: string): (r: int)
    requires Scorable(sc)
    ensures sc == MINIMUM_NODE ==> r == -100
    ensures sc == MAXIMUM_NODE ==> r == 100
    ensures !IsSentinel(sc) ==> 0 <= r <= 2 * |sc|
  {
    if sc == MINIMUM_NODE then -100
    else if sc == MAXIMUM_NODE then 100
    else Points(sc)
  }

  /** No feedback is a sentinel. */
  lemma FeedbackIsNoSentinel(aim: string, guess: string)
    ensures !IsSentinel(Feedback(aim, guess))
  {
    var r := Feedback(aim, guess);
    if |r| == 5 {
      assert r[0] in ".-=";
    }
  }

  /**
   * A real evaluation scores between 0 and twice its length: the maximum
   * exactly when every letter is exact, 0 exactly when every letter is absent.
   * For five-letter words that is 0..10, "=====" scoring 10 and "....." 0.
   */
  lemma FeedbackScore(aim: string, guess: string)
    ensures var r := Feedback(aim, guess);
      && Scorable(r)
      && 0 <= ScoreEvaluation(r) <= 2 * |r|
      && (ScoreEvaluation(r) == 2 * |r| <==> aim[..|r|] == guess[..|r|])
      && (ScoreEvaluation(r) == 0 <==> forall i :: 0 <= i < |r| ==> r[i] == '.')
      && (|aim| == 5 && |guess| == 5 ==> 0 <= ScoreEvaluation(r) <= 10)
      && (r == CORRECT_GUESS ==> ScoreEvaluation(r) == 10)
      && (r == COMPLETELY_WRONG ==> ScoreEvaluation(r) == 0)
  {
    var r := Feedback(aim, guess);
    FeedbackIsNoSentinel(aim, guess);
    if aim[..|r|] == guess[..|r|] {
      forall i | 0 <= i < |r| ensures r[i] == '=' {
        assert aim[..|r|][i] == guess[..|r|][i];
        FeedbackAt(aim, guess, i);
      }
    }
    if forall i :: 0 <= i < |r| ==> r[i] == '=' {
      forall i | 0 <= i < |r| ensures aim[..|r|][i] == guess[..|r|][i] {
        FeedbackAt(aim, guess, i);
      }
    }
  }

  /** Worked example: a repeated guess letter is marked only once. */
  lemma ExampleRepeated()
    ensures Feedback("abcde", "aafgh") == "=...."
  {
    assert "aafgh"[..1] == "a";
    assert multiset("abcde")['a'] == 1;
    assert multiset("a")['a'] == 1;
  }

  /** Position i of the rotation example: the letter occurs once in the aim and not before i in the guess. */
  lemma RotationMark(i: nat)
    requires 0 < i < 5
    ensures Mark("abcde", "eabcd", i) == '-'
  {
    var aim, g := "abcde", "eabcd";
    var c := g[i];
    assert c == aim[i - 1] && c != aim[i];
    assert c in multiset(aim);
    assert c !in multiset(g[..i]) by {
      assert c !in g[..i];
    }
  }

  /** Worked example: a rotation is displaced everywhere. */
  lemma ExampleRotation()
    ensures Feedback("abcde", "eabcd") == "-----"
  {
    var f := Feedback("abcde", "eabcd");
    assert f[0] == Mark("abcde", "eabcd", 0) == '-';
    forall i | 1 <= i < 5 ensures f[i] == '-' {
      RotationMark(i);
    }
  }

  /** Worked examples: a disjoint guess is absent everywhere, the truth itself exact everywhere. */
  lemma ExampleExtremes()
    ensures Feedback("abcde", "fghij") == "....."
    ensures Feedback("abcde", "abcde") == CORRECT_GUESS
  {
  }
}
