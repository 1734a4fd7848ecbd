/**
 * The vocabulary pruner of src/minimax_games/games/wordle/node.py: a list
 * filter driven by the guess/score history.
 *
 * Every filter of the source is one of four rules on a candidate word. A
 * rule that reads w[i] raises IndexError on a word too short for it; that is
 * modelled as an Err(IndexError) result rather than excluded up front.
 */
module Pruner {
  import opened Outcomes
  import opened Evaluation

  /** Keeps, in order, the words of s that satisfy p. */
  function Filter(s: seq<string>, p: string -> bool): (r: seq<string>)
    ensures forall x {:trigger x in r} :: x in r <==> x in s && p(x)
    ensures |r| <= |s|
  {
    if s == [] then [] else (if p(s[0]) then [s[0]] else []) + Filter(s[1..], p)
  }

  /** a is b with some elements left out, the rest in their order. */
  predicate IsSublist(a: seq<string>, b: seq<string>)
    decreases |b|
  {
    if b == [] then a == []
    else IsSublist(a, b[1..]) || (a != [] && a[0] == b[0] && IsSublist(a[1..], b[1..]))
  }

  lemma {:induction false} FilterIsSublist(s: seq<string>, p: string -> bool)
    ensures IsSublist(Filter(s, p), s)
  {
    if s != [] {
      FilterIsSublist(s[1..], p);
      var a := Filter(s, p);
      if p(s[0]) {
        assert a == [s[0]] + Filter(s[1..], p);
        assert a[0] == s[0] && a[1..] == Filter(s[1..], p);
      } else {
        assert a == Filter(s[1..], p);
      }
    }
  }

  lemma {:induction false} FilterFilter(s: seq<string>, p: string -> bool, q: string -> bool, pq: string -> bool)
    requires forall x :: pq(x) == (p(x) && q(x))
    ensures Filter(Filter(s, p), q) == Filter(s, pq)
  {
    if s != [] {
      var t := Filter(s[1..], p);
      FilterFilter(s[1..], p, q, pq);
      assert pq(s[0]) == (p(s[0]) && q(s[0]));
      if p(s[0]) {
        calc {
          Filter(Filter(s, p), q);
          { assert Filter(s, p) == [s[0]] + t; }
          Filter([s[0]] + t, q);
          { assert ([s[0]] + t)[0] == s[0] && ([s[0]] + t)[1..] == t; }
          (if q(s[0]) then [s[0]] else []) + Filter(t, q);
        }
      } else {
        assert Filter(s, p) == t;
      }
    }
  }

  lemma {:induction false} FilterKeepsAll(s: seq<string>, p: string -> bool)
    requires forall x :: x in s ==> p(x)
    ensures Filter(s, p) == s
  {
    if s != [] {
      FilterKeepsAll(s[1..], p);
    }
  }

  /** The four tests the comprehensions of the pruner apply to a word. */
  datatype Rule =
    | NotGuess(guess: string)   // w != guess
    | Exact(i: nat, c: char)    // w[i] == c
    | Displaced(i: nat, c: char) // c in w and w[i] != c
    | Absent(c: char)           // c not in w

  predicate Holds(rule: Rule, w: string)
  {
    match rule
    case NotGuess(g) => w != g
    case Exact(i, c) => i < |w| && w[i] == c
    case Displaced(i, c) => c in w && i < |w| && w[i] != c
    case Absent(c) => c !in w
  }

  /** The rule evaluates w[i] on this word and the index is out of range. */
  predicate Faults(rule: Rule, w: string)
  {
    match rule
    case Exact(i, _) => |w| <= i
    case Displaced(i, c) => c in w && |w| <= i
    case _ => false
  }

  /** The words the rule admits, in order. */
  function Select(words: seq<string>, rule: Rule): seq<string>
  {
    Filter(words, w => Holds(rule, w))
  }

  /** [w for w in words if <rule>], which raises IndexError if the rule faults on a word. */
  function Keep(words: seq<string>, rule: Rule): Result<seq<string>>
  {
    if exists w :: w in words && Faults(rule, w) then Err(IndexError)
    else Ok(Select(words, rule))
  }

  /** [w for w in words if w != guess]: a guess that is not all-exact is not the truth. */
  function DropGuess(words: seq<string>, guess: string): seq<string>
  {
    Filter(words, w => Holds(NotGuess(guess), w))
  }

  /** prune_correct(): the words with c at position i. */
  function PruneCorrect(words: seq<string>, i: nat, c: char): (r: Result<seq<string>>)
  {
    Keep(words, Exact(i, c))
  }

  /** prune_present(): the words holding c, but not at position i. */
  function PrunePresent(words: seq<string>, i: nat, c: char): (r: Result<seq<string>>)
  {
    Keep(words, Displaced(i, c))
  }

  /** Some position of the guess holding c scored something other than '.'. */
  predicate Exhausted(status: string, guess: string, c: char)
  {
    exists j :: 0 <= j < |status| && j < |guess| && guess[j] == c && status[j] != '.'
  }

  /**
   * prune_missing(): an absent mark excludes every word holding c, unless c
   * scored non-absent elsewhere in the same guess; then it only rules out c at i.
   */
  function PruneMissing(words: seq<string>, i: nat, c: char, status: string, guess: string)
    : (r: Result<seq<string>>)
  {
    if Exhausted(status, guess, c) then Keep(words, Displaced(i, c)) else Keep(words, Absent(c))
  }

  /** The rule that symbol score[i] imposes, or None for an unknown symbol. */
  function Constraint(guess: string, score: string, i: nat): Option<Rule>
    requires i < |guess| && i < |score|
  {
    var c := guess[i];
    if score[i] == '=' then Some(Exact(i, c))
    else if score[i] == '-' then Some(Displaced(i, c))
    else if score[i] == '.' then Some(if Exhausted(score, guess, c) then Displaced(i, c) else Absent(c))
    else None
  }

  /** One pass of the inner loop of prune(): position i of a guess and its score. */
  function PruneAt(words: seq<string>, guess: string, score: string, i: nat): (r: Result<seq<string>>)
    requires i < |guess| && i < |score|
    ensures r == match Constraint(guess, score, i)
                 case None => Err(ValueError)
                 case Some(rule) => Keep(words, rule)
  {
    var c := guess[i];
    if score[i] == '=' then PruneCorrect(words, i, c)
    else if score[i] == '-' then PrunePresent(words, i, c)
    else if score[i] == '.' then PruneMissing(words, i, c, score, guess)
    else Err(ValueError)
  }

  /**
   * One position of the inner loop: ValueError exactly for an unknown symbol;
   * IndexError only for a word too short for position i; otherwise an ordered
   * sub-list of the words that meet the rule of the symbol at i.
   */
  lemma PruneAtKeeps(words: seq<string>, guess: string, score: string, i: nat)
    requires i < |guess| && i < |score|
    ensures var r := PruneAt(words, guess, score, i); var c := guess[i];
      && (r == Err(ValueError) <==> score[i] !in ".-=")
      && (r.Err? ==> r.error == ValueError || exists w :: w in words && |w| <= i)
      && (r.Ok? ==> IsSublist(r.value, words))
      && (r.Ok? && score[i] == '=' ==> forall w :: w in r.value <==> w in words && i < |w| && w[i] == c)
      && (r.Ok? && score[i] == '-' ==> forall w :: w in r.value <==> w in words && c in w && i < |w| && w[i] != c)
      && (r.Ok? && score[i] == '.' && !Exhausted(score, guess, c) ==>
            forall w :: w in r.value <==> w in words && c !in w)
      && (r.Ok? && score[i] == '.' && Exhausted(score, guess, c) ==>
            forall w :: w in r.value <==> w in words && c in w && i < |w| && w[i] != c)
  {
    match Constraint(guess, score, i)
    case None =>
    case Some(rule) =>
      FilterIsSublist(words, w => Holds(rule, w));
      if PruneAt(words, guess, score, i).Err? {
        var w :| w in words && Faults(rule, w);
        FaultMeansShort(guess, score, i, w);
      }
  }

  /** The inner loop of prune() over positions 0..k-1 of one pair. */
  function PrunePositions(words: seq<string>, guess: string, score: string, k: nat): Result<seq<string>>
    requires k <= |guess| && k <= |score|
  {
    if k == 0 then Ok(words)
    else match PrunePositions(words, guess, score, k - 1)
      case Err(e) => Err(e)
      case Ok(ws) => PruneAt(ws, guess, score, k - 1)
  }

  /**
   * The outer loop of prune() over the pairs k-1, k-2, ..., 0: an all-exact
   * score returns its guess alone; otherwise the guess is dropped and its
   * positions applied; final_only stops after the first pair.
   */
  function PruneFrom(words: seq<string>, guesses: seq<string>, scores: seq<string>, k: nat, finalOnly: bool)
    : Result<seq<string>>
    requires |guesses| == |scores| && k <= |guesses|
    decreases k
  {
    if k == 0 then Ok(words)
    else
      var guess, score := guesses[k - 1], scores[k - 1];
      if score == CORRECT_GUESS then Ok([guess])
      else
        match PrunePositions(DropGuess(words, guess), guess, score, Min(|guess|, |score|))
        case Err(e) => Err(e)
        case Ok(ws) => if finalOnly then Ok(ws) else PruneFrom(ws, guesses, scores, k - 1, finalOnly)
  }

  /** prune() as a value. */
  function Pruned(words: seq<string>, guesses: seq<string>, scores: seq<string>, finalOnly: bool)
    : (r: Result<seq<string>>)
    ensures |guesses| != |scores| ==> r == Err(ValueError)
    ensures |guesses| == |scores| == 0 ==> r == Ok(words)
    ensures |guesses| == |scores| > 0 && scores[|scores| - 1] == CORRECT_GUESS ==>
      r == Ok([guesses[|guesses| - 1]])
  {
    if |guesses| != |scores| then Err(ValueError)
    else PruneFrom(words, guesses, scores, |guesses|, finalOnly)
  }

  /** Once the position loop has raised, the later positions keep the same exception. */
  lemma {:induction false} ErrorPersists(words: seq<string>, guess: string, score: string, i: nat, j: nat, e: Error)
    requires i <= j <= |guess| && j <= |score|
    requires PrunePositions(words, guess, score, i) == Err(e)
    ensures PrunePositions(words, guess, score, j) == Err(e)
    decreases j
  {
    if i < j {
      ErrorPersists(words, guess, score, i, j - 1, e);
    }
  }

  /** prune(): reassigns the word list while walking the pairs from the most recent. */
  method Prune(words: seq<string>, guesses: seq<string>, scores: seq<string>, finalOnly: bool)
    returns (r: Result<seq<string>>)
    ensures r == Pruned(words, guesses, scores, finalOnly)
  {
    if |guesses| != |scores| {
      return Err(ValueError);
    }
    var current := words;
    var k: nat := |guesses|;
    while k > 0
      invariant k <= |guesses|
      invariant PruneFrom(current, guesses, scores, k, finalOnly) == Pruned(words, guesses, scores, finalOnly)
    {
      var guess, score := guesses[k - 1], scores[k - 1];
      if score == CORRECT_GUESS {
        return Ok([guess]);
      }
      var kept := DropGuess(current, guess);
      current := kept;
      var n := Min(|guess|, |score|);
      for i := 0 to n
        invariant PrunePositions(kept, guess, score, i) == Ok(current)
      {
        var c, s := guess[i], score[i];
        var next: Result<seq<string>>;
        if s == '=' {
          next := PruneCorrect(current, i, c);
        } else if s == '-' {
          next := PrunePresent(current, i, c);
        } else if s == '.' {
          next := PruneMissing(current, i, c, score, guess);
        } else {
          next := Err(ValueError);
        }
        if next.Err? {
          ErrorPersists(kept, guess, score, i + 1, n, next.error);
          return Err(next.error);
        }
        current := next.value;
      }
      if finalOnly {
        return Ok(current);
      }
      k := k - 1;
    }
    return Ok(current);
  }

  /** w satisfies the rules of positions 0..k-1 of the pair (and every symbol there is known). */
  predicate Fits(w: string, guess: string, score: string, k: nat)
    requires k <= |guess| && k <= |score|
  {
    k == 0 || (Fits(w, guess, score, k - 1) && Admits(guess, score, k - 1, w))
  }

  /** The symbol at position j is known and its rule holds of w. */
  predicate Admits(guess: string, score: string, j: nat, w: string)
    requires j < |guess| && j < |score|
  {
    Constraint(guess, score, j).Some? && Holds(Constraint(guess, score, j).value, w)
  }

  lemma {:induction false} FitsEveryPosition(w: string, guess: string, score: string, k: nat)
    requires k <= |guess| && k <= |score|
    ensures Fits(w, guess, score, k) <==> forall j :: 0 <= j < k ==> Admits(guess, score, j, w)
  {
    if k > 0 {
      FitsEveryPosition(w, guess, score, k - 1);
    }
  }

  /** The words that fit positions 0..k-1, in order. */
  function Fitting(words: seq<string>, guess: string, score: string, k: nat): seq<string>
    requires k <= |guess| && k <= |score|
  {
    Filter(words, w => Fits(w, guess, score, k))
  }

  /** A word that one guess/score pair leaves possible. */
  predicate Consistent(w: string, guess: string, score: string)
  {
    w != guess && Fits(w, guess, score, Min(|guess|, |score|))
  }

  /** Every symbol within the zipped length is known. */
  predicate KnownSymbols(guess: string, score: string)
  {
    forall j :: 0 <= j < |guess| && j < |score| ==> score[j] in ".-="
  }

  /** The position loop, when it succeeds, keeps exactly the words that fit every position. */
  lemma {:induction false} PositionsFilter(words: seq<string>, guess: string, score: string, k: nat)
    requires k <= |guess| && k <= |score|
    ensures PrunePositions(words, guess, score, k).Ok? ==>
      PrunePositions(words, guess, score, k).value == Fitting(words, guess, score, k)
  {
    if k == 0 {
      FilterKeepsAll(words, w => Fits(w, guess, score, 0));
    } else {
      PositionsFilter(words, guess, score, k - 1);
      var prev := PrunePositions(words, guess, score, k - 1);
      if prev.Ok? && Constraint(guess, score, k - 1).Some? {
        FittingStep(words, guess, score, k);
      }
    }
  }

  /** Filtering the words that fit positions 0..k-2 by the rule of position k-1 gives those that fit 0..k-1. */
  lemma FittingStep(words: seq<string>, guess: string, score: string, k: nat)
    requires 0 < k <= |guess| && k <= |score|
    requires Constraint(guess, score, k - 1).Some?
    ensures Select(Fitting(words, guess, score, k - 1), Constraint(guess, score, k - 1).value)
         == Fitting(words, guess, score, k)
  {
    var rule := Constraint(guess, score, k - 1).value;
    FilterFilter(words, w => Fits(w, guess, score, k - 1), w => Holds(rule, w), w => Fits(w, guess, score, k));
  }

  /** The rule of a known symbol at position j faults on no word drawn from words longer than j. */
  lemma LongWordsKept(words: seq<string>, ws: seq<string>, guess: string, score: string, j: nat)
    requires j < |guess| && j < |score| && score[j] in ".-="
    requires forall w :: w in words ==> j < |w|
    requires ws == Fitting(words, guess, score, j)
    ensures Keep(ws, Constraint(guess, score, j).value) == Ok(Select(ws, Constraint(guess, score, j).value))
  {
    var rule := Constraint(guess, score, j).value;
    forall w | w in ws ensures !Faults(rule, w) {
      assert w in words;
    }
  }

  /** On words at least k letters long and known symbols, the position loop raises nothing. */
  lemma {:induction false} PositionsSucceed(words: seq<string>, guess: string, score: string, k: nat)
    requires k <= |guess| && k <= |score|
    requires forall j :: 0 <= j < k ==> score[j] in ".-="
    requires forall w :: w in words ==> k <= |w|
    ensures PrunePositions(words, guess, score, k).Ok?
  {
    if k > 0 {
      PositionsSucceed(words, guess, score, k - 1);
      var prev := PrunePositions(words, guess, score, k - 1);
      assert prev.Ok?;
      var ws := prev.value;
      PositionsFilter(words, guess, score, k - 1);
      assert ws == Fitting(words, guess, score, k - 1);
      assert score[k - 1] in ".-=";
      assert forall w :: w in words ==> k - 1 < |w|;
      LongWordsKept(words, ws, guess, score, k - 1);
      var rule := Constraint(guess, score, k - 1).value;
      assert PruneAt(ws, guess, score, k - 1) == Keep(ws, rule);
      assert PrunePositions(words, guess, score, k) == PruneAt(ws, guess, score, k - 1);
    }
  }

  /** A rule that faults on no word of a list faults on no word of a list drawn from it. */
  lemma KeepOnSubset(big: seq<string>, small: seq<string>, rule: Rule)
    requires Keep(big, rule).Ok?
    requires forall w :: w in small ==> w in big
    ensures Keep(small, rule) == Ok(Select(small, rule))
  {
    forall w | w in small ensures !Faults(rule, w) {
      assert w in big;
    }
  }

  /** A list drawn from one the position loop accepted is accepted too, and filtered the same way. */
  lemma {:induction false} PositionsOnSubset(big: seq<string>, small: seq<string>, guess: string, score: string, k: nat)
    requires k <= |guess| && k <= |score|
    requires PrunePositions(big, guess, score, k).Ok?
    requires forall w :: w in small ==> w in big
    ensures PrunePositions(small, guess, score, k) == Ok(Fitting(small, guess, score, k))
  {
    if k == 0 {
      FilterKeepsAll(small, w => Fits(w, guess, score, 0));
    } else {
      assert PrunePositions(big, guess, score, k - 1).Ok?;
      PositionsOnSubset(big, small, guess, score, k - 1);
      PositionsFilter(big, guess, score, k - 1);
      var b := Fitting(big, guess, score, k - 1);
      var s := Fitting(small, guess, score, k - 1);
      assert PruneAt(b, guess, score, k - 1).Ok?;
      var rule := Constraint(guess, score, k - 1).value;
      KeepOnSubset(b, s, rule);
      assert PruneAt(s, guess, score, k - 1) == Ok(Select(s, rule));
      assert PrunePositions(small, guess, score, k) == PruneAt(s, guess, score, k - 1);
      FittingStep(small, guess, score, k);
    }
  }

  /** With final_only, only the most recent pair matters. */
  lemma FinalOnlyUsesLastPair(words: seq<string>, guesses: seq<string>, scores: seq<string>)
    requires |guesses| == |scores| > 0
    ensures Pruned(words, guesses, scores, true)
         == Pruned(words, [guesses[|guesses| - 1]], [scores[|scores| - 1]], true)
  {
  }

  /**
   * One pair that is not all-exact: an error exactly for an unknown symbol or a
   * word too short for a rule, ValueError only for an unknown symbol; otherwise
   * the result is the ordered sub-list of the words consistent with the pair,
   * and the guessed word is gone.
   */
  lemma PruneOnePair(words: seq<string>, guess: string, score: string)
    requires score != CORRECT_GUESS
    ensures var r := Pruned(words, [guess], [score], true);
      && (r == Err(ValueError) ==> !KnownSymbols(guess, score))
      && (r == Err(IndexError) ==> exists w :: w in words && |w| < Min(|guess|, |score|))
      && (r.Err? ==> r.error == ValueError || r.error == IndexError)
      && ((forall w :: w in words ==> Min(|guess|, |score|) <= |w|) ==> (r.Ok? <==> KnownSymbols(guess, score)))
      && (r.Ok? ==> IsSublist(r.value, words) && guess !in r.value
                    && forall w :: w in r.value <==> w in words && Consistent(w, guess, score))
  {
    var n := Min(|guess|, |score|);
    var kept := DropGuess(words, guess);
    var r := Pruned(words, [guess], [score], true);
    assert r == PrunePositions(kept, guess, score, n);
    PositionsFilter(kept, guess, score, n);
    PositionErrors(kept, guess, score, n);
    if r.Ok? {
      FilterFilter(words, w => Holds(NotGuess(guess), w), w => Fits(w, guess, score, n), w => Consistent(w, guess, score));
      FilterIsSublist(words, w => Consistent(w, guess, score));
    }
    if forall w :: w in words ==> n <= |w| {
      if KnownSymbols(guess, score) {
        PositionsSucceed(kept, guess, score, n);
      }
    }
  }

  /** Which exceptions the position loop can raise, and why. */
  lemma {:induction false} PositionErrors(words: seq<string>, guess: string, score: string, k: nat)
    requires k <= |guess| && k <= |score|
    ensures var r := PrunePositions(words, guess, score, k);
      && (r.Err? ==> r.error == ValueError || r.error == IndexError)
      && (r == Err(ValueError) ==> exists j :: 0 <= j < k && score[j] !in ".-=")
      && (r == Err(IndexError) ==> exists w :: w in words && |w| < k)
      && ((exists j :: 0 <= j < k && score[j] !in ".-=") ==> r.Err?)
  {
    if k > 0 {
      PositionErrors(words, guess, score, k - 1);
      var prev := PrunePositions(words, guess, score, k - 1);
      var r := PrunePositions(words, guess, score, k);
      if prev.Err? {
        assert r == prev;
        if r == Err(ValueError) {
          var j :| 0 <= j < k - 1 && score[j] !in ".-=";
          assert 0 <= j < k;
        } else if r == Err(IndexError) {
          var w :| w in words && |w| < k - 1;
          assert |w| < k;
        }
      } else {
        var ws := prev.value;
        assert r == PruneAt(ws, guess, score, k - 1);
        match Constraint(guess, score, k - 1)
        case None =>
          assert r == Err(ValueError);
        case Some(rule) =>
          assert score[k - 1] in ".-=";
          if r.Err? {
            assert r == Keep(ws, rule);
            var w :| w in ws && Faults(rule, w);
            FaultMeansShort(guess, score, k - 1, w);
            PositionsFilter(words, guess, score, k - 1);
            assert w in words;
          }
      }
    }
  }

  /** The rule of position j faults only on words of at most j letters. */
  lemma FaultMeansShort(guess: string, score: string, j: nat, w: string)
    requires j < |guess| && j < |score| && Constraint(guess, score, j).Some?
    requires Faults(Constraint(guess, score, j).value, w)
    ensures |w| <= j
  {
  }

  /** Applying the same pair a second time changes nothing. */
  lemma PruneIdempotent(words: seq<string>, guess: string, score: string)
    requires Pruned(words, [guess], [score], true).Ok?
    ensures var r := Pruned(words, [guess], [score], true).value;
      Pruned(r, [guess], [score], true) == Ok(r)
  {
    var r := Pruned(words, [guess], [score], true).value;
    if score != CORRECT_GUESS {
      var n := Min(|guess|, |score|);
      var kept := DropGuess(words, guess);
      PositionsFilter(kept, guess, score, n);
      FilterKeepsAll(r, w => Holds(NotGuess(guess), w));
      PositionsOnSubset(kept, r, guess, score, n);
      FilterKeepsAll(r, w => Fits(w, guess, score, n));
    }
  }

  lemma {:induction false} SublistTransitive(a: seq<string>, b: seq<string>, c: seq<string>)
    requires IsSublist(a, b) && IsSublist(b, c)
    ensures IsSublist(a, c)
    decreases |c|
  {
    if c != [] {
      if IsSublist(b, c[1..]) {
        SublistTransitive(a, b, c[1..]);
      } else {
        assert b != [] && b[0] == c[0] && IsSublist(b[1..], c[1..]);
        if IsSublist(a, b[1..]) {
          SublistTransitive(a, b[1..], c[1..]);
        } else {
          SublistTransitive(a[1..], b[1..], c[1..]);
        }
      }
    }
  }

  /**
   * The full history: the result is the guess of an all-exact pair, or an
   * ordered sub-list of the words every one of which is consistent with every pair.
   */
  lemma {:induction false} PruneHistory(words: seq<string>, guesses: seq<string>, scores: seq<string>, k: nat)
    requires |guesses| == |scores| && k <= |guesses|
    requires PruneFrom(words, guesses, scores, k, false).Ok?
    ensures var r := PruneFrom(words, guesses, scores, k, false).value;
      || (exists j :: 0 <= j < k && scores[j] == CORRECT_GUESS && r == [guesses[j]])
      || (IsSublist(r, words) && forall j, w :: 0 <= j < k && w in r ==> Consistent(w, guesses[j], scores[j]))
    decreases k
  {
    if k > 0 {
      var guess, score := guesses[k - 1], scores[k - 1];
      if score != CORRECT_GUESS {
        var n := Min(|guess|, |score|);
        var ws := PrunePositions(DropGuess(words, guess), guess, score, n).value;
        PairStep(words, guess, score);
        assert PruneFrom(words, guesses, scores, k, false) == PruneFrom(ws, guesses, scores, k - 1, false);
        PruneHistory(ws, guesses, scores, k - 1);
        var r := PruneFrom(ws, guesses, scores, k - 1, false).value;
        if exists j :: 0 <= j < k - 1 && scores[j] == CORRECT_GUESS && r == [guesses[j]] {
          var j :| 0 <= j < k - 1 && scores[j] == CORRECT_GUESS && r == [guesses[j]];
          assert 0 <= j < k;
        } else {
          SublistTransitive(r, ws, words);
          SublistMembers(r, ws);
          forall j, w | 0 <= j < k && w in r ensures Consistent(w, guesses[j], scores[j]) {
            if j == k - 1 {
              assert w in ws;
            }
          }
        }
      }
    } else {
      SublistReflexive(words);
    }
  }

  /** One step of the history: the pair's survivors are an ordered sub-list consistent with it. */
  lemma PairStep(words: seq<string>, guess: string, score: string)
    requires score != CORRECT_GUESS
    requires PrunePositions(DropGuess(words, guess), guess, score, Min(|guess|, |score|)).Ok?
    ensures var ws := PrunePositions(DropGuess(words, guess), guess, score, Min(|guess|, |score|)).value;
      IsSublist(ws, words) && forall w :: w in ws ==> Consistent(w, guess, score)
  {
    PruneOnePair(words, guess, score);
    assert Pruned(words, [guess], [score], true)
        == PrunePositions(DropGuess(words, guess), guess, score, Min(|guess|, |score|));
  }

  lemma {:induction false} SublistReflexive(a: seq<string>)
    ensures IsSublist(a, a)
  {
    if a != [] {
      SublistReflexive(a[1..]);
    }
  }

  lemma {:induction false} SublistMembers(a: seq<string>, b: seq<string>)
    requires IsSublist(a, b)
    ensures forall w :: w in a ==> w in b
    decreases |b|
  {
    if b != [] {
      if IsSublist(a, b[1..]) {
        SublistMembers(a, b[1..]);
      } else {
        SublistMembers(a[1..], b[1..]);
        assert a == [a[0]] + a[1..];
      }
    }
  }

  /** prune_correct() keeps, in order, the words with c at position i. */
  lemma PruneCorrectKeeps(words: seq<string>, i: nat, c: char)
    ensures var r := PruneCorrect(words, i, c);
      && (r.Err? <==> exists w :: w in words && |w| <= i)
      && (r.Ok? ==> IsSublist(r.value, words) && forall w :: w in r.value <==> w in words && i < |w| && w[i] == c)
  {
    FilterIsSublist(words, w => Holds(Exact(i, c), w));
  }

  /** prune_present() keeps, in order, the words holding c but not at position i. */
  lemma PrunePresentKeeps(words: seq<string>, i: nat, c: char)
    ensures var r := PrunePresent(words, i, c);
      && (r.Err? <==> exists w :: w in words && c in w && |w| <= i)
      && (r.Ok? ==> IsSublist(r.value, words) && forall w :: w in r.value <==> w in words && c in w && i < |w| && w[i] != c)
  {
    FilterIsSublist(words, w => Holds(Displaced(i, c), w));
  }

  /**
   * prune_missing() keeps the words without c, or, when c scored non-absent
   * elsewhere in the guess, the words holding c but not at position i.
   */
  lemma PruneMissingKeeps(words: seq<string>, i: nat, c: char, status: string, guess: string)
    ensures var r := PruneMissing(words, i, c, status, guess);
      && (!Exhausted(status, guess, c) ==>
            r.Ok? && IsSublist(r.value, words) && forall w :: w in r.value <==> w in words && c !in w)
      && (Exhausted(status, guess, c) ==> r == PrunePresent(words, i, c))
  {
    FilterIsSublist(words, w => Holds(Absent(c), w));
  }

  /** What a word consistent with a pair satisfies at each position. */
  lemma ConsistentAt(w: string, guess: string, score: string, i: nat)
    requires Consistent(w, guess, score) && i < |guess| && i < |score|
    ensures w != guess && score[i] in ".-="
    ensures var c := guess[i];
      && (score[i] == '=' ==> i < |w| && w[i] == c)
      && (score[i] == '-' ==> c in w && i < |w| && w[i] != c)
      && (score[i] == '.' && !Exhausted(score, guess, c) ==> c !in w)
      && (score[i] == '.' && Exhausted(score, guess, c) ==> c in w && i < |w| && w[i] != c)
  {
    FitsEveryPosition(w, guess, score, Min(|guess|, |score|));
    assert Admits(guess, score, i, w);
  }

  /** The first position of s holding c. */
  function FirstIndex(s: string, c: char): (f: nat)
    requires c in s
    ensures f < |s| && s[f] == c && c !in s[..f]
  {
    if s[0] == c then 0
    else
      var f := FirstIndex(s[1..], c);
      assert s[..f + 1] == [s[0]] + s[1..][..f];
      f + 1
  }

  /** The truth word satisfies the rule that its own feedback puts on position j. */
  lemma TruthAdmitted(truth: string, guess: string, j: nat)
    requires j < |truth| && j < |guess|
    ensures Admits(guess, Feedback(truth, guess), j, truth)
  {
    var s := Feedback(truth, guess);
    var c := guess[j];
    FeedbackAt(truth, guess, j);
    if s[j] == '.' {
      if c in truth {
        var f := FirstIndex(guess, c);
        FirstOccurrenceMarked(truth, guess, f);
        assert Exhausted(s, guess, c);
      } else {
        forall k | 0 <= k < |s| && k < |guess| && guess[k] == c ensures s[k] == '.' {
          FeedbackAt(truth, guess, k);
        }
        assert !Exhausted(s, guess, c);
      }
    }
  }

  /** The truth word is consistent with every position of its own feedback. */
  lemma TruthFits(truth: string, guess: string)
    ensures var s := Feedback(truth, guess); Fits(truth, guess, s, |s|)
  {
    var s := Feedback(truth, guess);
    forall j | 0 <= j < |s| ensures Admits(guess, s, j, truth) {
      TruthAdmitted(truth, guess, j);
    }
    FitsEveryPosition(truth, guess, s, |s|);
  }

  /** Every word has five letters. */
  predicate FiveLetters(words: seq<string>)
  {
    forall w :: w in words ==> |w| == 5
  }

  /** Every score of the history is what the truth word gives its guess. */
  predicate Honest(truth: string, guesses: seq<string>, scores: seq<string>)
  {
    |guesses| == |scores| && forall k :: 0 <= k < |guesses| ==> scores[k] == Feedback(truth, guesses[k])
  }

  /** One honest, not all-exact pair keeps the truth word among five-letter words. */
  lemma TruthSurvivesPair(words: seq<string>, truth: string, guess: string, score: string)
    requires score == Feedback(truth, guess) && |guess| == 5 && score != CORRECT_GUESS
    requires truth in words && FiveLetters(words) && |truth| == 5
    ensures var r := PrunePositions(DropGuess(words, guess), guess, score, Min(|guess|, |score|));
      r.Ok? && truth in r.value && FiveLetters(r.value)
  {
    assert |score| == 5;
    SolvedIffSame(truth, guess);
    var kept := DropGuess(words, guess);
    assert truth in kept && FiveLetters(kept);
    PositionsSucceed(kept, guess, score, 5);
    PositionsFilter(kept, guess, score, 5);
    TruthFits(truth, guess);
  }

  lemma {:induction false} TruthSurvivesFrom(words: seq<string>, truth: string, guesses: seq<string>,
                                             scores: seq<string>, k: nat, finalOnly: bool)
    requires Honest(truth, guesses, scores) && FiveLetters(guesses) && k <= |guesses|
    requires truth in words && FiveLetters(words) && |truth| == 5
    ensures var r := PruneFrom(words, guesses, scores, k, finalOnly);
      r.Ok? && truth in r.value && FiveLetters(r.value)
    decreases k
  {
    if k == 0 {
      assert PruneFrom(words, guesses, scores, k, finalOnly) == Ok(words);
    } else {
      var guess, score := guesses[k - 1], scores[k - 1];
      assert |guess| == 5 by { assert guess in guesses; }
      assert score == Feedback(truth, guess);
      if score != CORRECT_GUESS {
        TruthSurvivesPair(words, truth, guess, score);
        var step := PrunePositions(DropGuess(words, guess), guess, score, Min(|guess|, |score|));
        var ws := step.value;
        if !finalOnly {
          TruthSurvivesFrom(ws, truth, guesses, scores, k - 1, finalOnly);
        }
      } else {
        SolvedIffSame(truth, guess);
        assert guess == truth;
        assert PruneFrom(words, guesses, scores, k, finalOnly) == Ok([truth]);
      }
    }
  }

  /**
   * Soundness of the pruner: when every score is the true evaluation of its
   * guess (five-letter words throughout), prune() raises nothing and never
   * discards the truth word, with or without final_only.
   */
  lemma TruthSurvives(words: seq<string>, truth: string, guesses: seq<string>, scores: seq<string>, finalOnly: bool)
    requires Honest(truth, guesses, scores) && FiveLetters(guesses)
    requires truth in words && FiveLetters(words) && |truth| == 5
    ensures var r := Pruned(words, guesses, scores, finalOnly);
      r.Ok? && truth in r.value && FiveLetters(r.value)
  {
    TruthSurvivesFrom(words, truth, guesses, scores, |guesses|, finalOnly);
  }

  /**
   * The short-circuit recognises only the five-letter "=====". For a word of
   * any other length, even its own all-exact feedback is not recognised: the
   * guess is dropped as a wrong answer, and with it the truth.
   */
  lemma OtherLengthsNeverSolve(w: string)
    requires |w| != 5
    ensures Feedback(w, w) != CORRECT_GUESS
    ensures Pruned([w], [w], [Feedback(w, w)], true) == Ok([])
  {
    var score := Feedback(w, w);
    var n := Min(|w|, |score|);
    assert DropGuess([w], w) == [];
    PositionsSucceed([], w, score, n);
    PositionsFilter([], w, score, n);
  }
}
