/**
 * WordleNode of src/minimax_games/games/wordle/node.py: a node of the
 * adversarial Wordle game tree. Odd plies belong to the maximising guesser,
 * who picks a word; even plies to the minimising adversary, who picks the
 * feedback the last guess receives.
 */
module WordleNodes {
  import opened Outcomes
  import opened Evaluation
  import Pruner

  /** The set of characters of s. */
  function Chars(s: string): set<char>
  {
    set c | c in s
  }

  lemma {:induction false} CharsAtMostLength(s: string)
    ensures |Chars(s)| <= |s|
  {
    if s != [] {
      var t := s[..|s| - 1];
      CharsAtMostLength(t);
      assert s == t + [s[|s| - 1]];
      assert Chars(s) == Chars(t) + {s[|s| - 1]};
    }
  }

  /** len(set(s)): the number of distinct characters of s. */
  function DistinctCount(s: string): (r: nat)
    ensures r <= |s|
  {
    CharsAtMostLength(s);
    |Chars(s)|
  }

  class WordleNode {
    var moves: seq<string>
    var vocabulary: seq<string>
    var depth: int

    constructor (moves: seq<string>, vocabulary: seq<string>, depth: int)
      ensures this.moves == moves && this.vocabulary == vocabulary && this.depth == depth
    {
      this.moves := moves;
      this.vocabulary := vocabulary;
      this.depth := depth;
    }

    /** is_maximising(): the parity of the depth. */
    predicate IsMaximising()
      reads this
    {
      depth % 2 == 1
    }

    /** is_terminal(): the ply budget of 13 is reached or the last move is all-exact. */
    predicate IsTerminal()
      reads this
    {
      depth == 13 || (|moves| > 0 && moves[|moves| - 1] == CORRECT_GUESS)
    }

    /** score() neither indexes an empty move list nor scores an unknown symbol. */
    predicate HasScore()
      reads this
    {
      |moves| > 0 && (!IsMaximising() || IsSentinel(moves[|moves| - 1]) ==> Scorable(moves[|moves| - 1]))
    }

    /**
     * score(): a sentinel or a minimising node scores its last move with
     * score_evaluation; any other maximising node, terminal or not, scores 0
     * beyond depth 4 and the number of distinct letters of its last move before.
     */
    function Score(): (r: int)
      reads this
      requires HasScore()
      ensures var last := moves[|moves| - 1];
        && (last == MINIMUM_NODE ==> r == -100)
        && (last == MAXIMUM_NODE ==> r == 100)
        && (!IsSentinel(last) ==> 0 <= r <= 2 * |last|)
        && (IsMaximising() && !IsSentinel(last) ==> r <= |last| && (depth > 4 ==> r == 0))
        && (!IsMaximising() && last == CORRECT_GUESS ==> r == 10)
    {
      var last := moves[|moves| - 1];
      if !IsMaximising() || IsSentinel(last) then ScoreEvaluation(last)
      else if depth > 4 then 0
      else DistinctCount(last)
    }

    /** __lt__, __le__, __gt__, __ge__: nodes are ordered by score alone. */
    predicate Lt(other: WordleNode)
      reads this, other
      requires HasScore() && other.HasScore()
    {
      Score() < other.Score()
    }

    predicate Le(other: WordleNode)
      reads this, other
      requires HasScore() && other.HasScore()
    {
      Score() <= other.Score()
    }

    predicate Gt(other: WordleNode)
      reads this, other
      requires HasScore() && other.HasScore()
    {
      Score() > other.Score()
    }

    predicate Ge(other: WordleNode)
      reads this, other
      requires HasScore() && other.HasScore()
    {
      Score() >= other.Score()
    }

    /**
     * prune(): with at least two moves, replaces the vocabulary by the words
     * that the pair (moves[-2], moves[-1]) leaves; an exception leaves it as it was.
     */
    method Prune() returns (r: Outcome)
      modifies this`vocabulary
      ensures |moves| < 2 ==> r == Pass && vocabulary == old(vocabulary)
      ensures |moves| >= 2 ==>
        var p := Pruner.Pruned(old(vocabulary), [moves[|moves| - 2]], [moves[|moves| - 1]], true);
        && (p.Ok? ==> r == Pass && vocabulary == p.value)
        && (p.Err? ==> r == Fail(p.error) && vocabulary == old(vocabulary))
    {
      if |moves| < 2 {
        return Pass;
      }
      var n := |moves|;
      assert moves[n - 2..n - 1] == [moves[n - 2]] && moves[n - 1..] == [moves[n - 1]];
      var p := Pruner.Prune(vocabulary, moves[n - 2..n - 1], moves[n - 1..], true);
      if p.Err? {
        return Fail(p.error);
      }
      vocabulary := p.value;
      return Pass;
    }

    /** The move a child adds for a candidate word. */
    function ChildMove(word: string): string
      reads this
      requires IsMaximising() || |moves| > 0
    {
      if IsMaximising() then word else Feedback(word, moves[|moves| - 1])
    }

    /**
     * children(): a maximising node first prunes its own vocabulary; then one
     * child per vocabulary word, one ply deeper, with the parent's moves plus the
     * word itself (maximising) or the feedback the last guess gets if that word
     * is the truth (minimising), each child with its own copy of the vocabulary.
     */
    method Children() returns (r: Result<seq<WordleNode>>)
      modifies this`vocabulary
      ensures moves == old(moves) && depth == old(depth)
      ensures IsMaximising() && |moves| >= 2 ==>
        var p := Pruner.Pruned(old(vocabulary), [moves[|moves| - 2]], [moves[|moves| - 1]], true);
        && (p.Err? ==> r == Err(p.error) && vocabulary == old(vocabulary))
        && (p.Ok? ==> vocabulary == p.value)
      ensures !(IsMaximising() && |moves| >= 2) ==> vocabulary == old(vocabulary)
      ensures !IsMaximising() && |moves| == 0 && |vocabulary| > 0 ==> r == Err(IndexError)
      ensures (IsMaximising() || |moves| > 0) && r.Err? ==> IsMaximising() && |moves| >= 2
      ensures r.Ok? ==> (IsMaximising() || |moves| > 0 || |vocabulary| == 0) && |r.value| == |vocabulary|
      ensures r.Ok? ==> forall k :: 0 <= k < |r.value| ==>
        && fresh(r.value[k])
        && r.value[k].depth == depth + 1
        && r.value[k].IsMaximising() != IsMaximising()
        && r.value[k].vocabulary == vocabulary
        && r.value[k].moves == moves + [ChildMove(vocabulary[k])]
      ensures r.Ok? ==> forall j, k :: 0 <= j < k < |r.value| ==> r.value[j] != r.value[k]
      ensures r.Err? <==>
        || (IsMaximising() && |moves| >= 2
            && Pruner.Pruned(old(vocabulary), [moves[|moves| - 2]], [moves[|moves| - 1]], true).Err?)
        || (!IsMaximising() && |moves| == 0 && |old(vocabulary)| > 0)
    {
      if IsMaximising() {
        var o := Prune();
        if o.Fail? {
          return Err(o.error);
        }
      }
      var words := vocabulary;
      var kids: seq<WordleNode> := [];
      for k := 0 to |words|
        invariant vocabulary == words
        invariant |kids| == k
        invariant k > 0 ==> IsMaximising() || |moves| > 0
        invariant forall j :: 0 <= j < k ==>
          && fresh(kids[j])
          && kids[j].depth == depth + 1
          && kids[j].vocabulary == vocabulary
          && kids[j].moves == moves + [ChildMove(vocabulary[j])]
        invariant forall i, j :: 0 <= i < j < k ==> kids[i] != kids[j]
      {
        var move: string;
        if IsMaximising() {
          move := words[k];
        } else {
          if |moves| == 0 {
            return Err(IndexError);
          }
          move := Evaluate(words[k], moves[|moves| - 1]);
        }
        var child := new WordleNode(moves + [move], words, depth + 1);
        kids := kids + [child];
      }
      return Ok(kids);
    }

    /** minimum(): the lower-bound sentinel node. */
    method Minimum() returns (n: WordleNode)
      ensures fresh(n) && n.moves == [MINIMUM_NODE] && n.vocabulary == [] && n.depth == 1
      ensures n.HasScore() && n.Score() == -100
    {
      n := new WordleNode([MINIMUM_NODE], [], 1);
    }

    /** maximum(): the upper-bound sentinel node. */
    method Maximum() returns (n: WordleNode)
      ensures fresh(n) && n.moves == [MAXIMUM_NODE] && n.vocabulary == [] && n.depth == 1
      ensures n.HasScore() && n.Score() == 100
    {
      n := new WordleNode([MAXIMUM_NODE], [], 1);
    }
  }

  /**
   * The sentinels bracket every real node: one whose last move is not a
   * sentinel and is shorter than 50 symbols (a five-letter word or pattern)
   * scores strictly between minimum() and maximum().
   */
  lemma SentinelsBracket(lo: WordleNode, n: WordleNode, hi: WordleNode)
    requires lo.moves == [MINIMUM_NODE] && hi.moves == [MAXIMUM_NODE]
    requires n.HasScore() && !IsSentinel(n.moves[|n.moves| - 1]) && |n.moves[|n.moves| - 1]| < 50
    ensures lo.HasScore() && hi.HasScore()
    ensures lo.Lt(n) && n.Lt(hi) && hi.Gt(n) && n.Gt(lo)
  {
  }

  /**
   * Beyond depth 4 every maximising node that is not a sentinel scores 0, so
   * any two of them compare equal under all four operators: only the order in
   * which children() yields them can tell them apart.
   */
  lemma DeepTies(a: WordleNode, b: WordleNode)
    requires a.HasScore() && b.HasScore()
    requires a.IsMaximising() && b.IsMaximising() && a.depth > 4 && b.depth > 4
    requires !IsSentinel(a.moves[|a.moves| - 1]) && !IsSentinel(b.moves[|b.moves| - 1])
    ensures a.Score() == 0 && b.Score() == 0
    ensures a.Le(b) && a.Ge(b) && !a.Lt(b) && !a.Gt(b)
  {
  }

  /**
   * A child of a minimising node is a maximising node; with five-letter words
   * it is terminal exactly when its candidate word is the last guess (its
   * feedback is all-exact) or it reaches the ply budget of 13.
   */
  lemma SolvingChildIsTerminal(n: WordleNode, word: string, c: WordleNode)
    requires !n.IsMaximising() && |n.moves| > 0
    requires |word| == 5 && |n.moves[|n.moves| - 1]| == 5
    requires c.moves == n.moves + [n.ChildMove(word)] && c.depth == n.depth + 1
    ensures c.IsMaximising()
    ensures c.IsTerminal() <==> word == n.moves[|n.moves| - 1] || c.depth == 13
  {
    var last := n.moves[|n.moves| - 1];
    SolvedIffSame(word, last);
    assert c.moves[|c.moves| - 1] == Feedback(word, last);
  }
}
