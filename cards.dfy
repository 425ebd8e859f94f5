/** The card store: one record per word pair with its study state, and
    counts over a list of cards. */
module Cards {

  /** A card of `start_session`: the pair and its study state. */
  datatype Card = Card(source: string, target: string, completed: bool, incorrectCount: nat, finalScheduled: bool)

  /** A card as `start_session` builds it from a row: the pair, not
      completed, never missed, not yet scheduled for the final round. */
  function NewCard(pair: (string, string)): Card
  {
    Card(pair.0, pair.1, false, 0, false)
  }

  predicate IsFresh(c: Card)
  {
    !c.completed && c.incorrectCount == 0 && !c.finalScheduled
  }

  /** The card after a correct answer, after a miss, and once it is
      scheduled for the final round. */
  function Completing(c: Card): Card { c.(completed := true) }

  function Missing(c: Card): Card { c.(incorrectCount := c.incorrectCount + 1) }

  function Scheduling(c: Card): Card { c.(finalScheduled := true) }

  function Pair(c: Card): (string, string)
  {
    (c.source, c.target)
  }

  function Pairs(cards: seq<Card>): (r: seq<(string, string)>)
    ensures |r| == |cards| && forall i :: 0 <= i < |cards| ==> r[i] == Pair(cards[i])
  {
    seq(|cards|, i requires 0 <= i < |cards| => Pair(cards[i]))
  }

  /** Number of cards that satisfy `p`. */
  function CountIf(cards: seq<Card>, p: Card -> bool): (n: nat)
    ensures n <= |cards|
  {
    if |cards| == 0 then 0
    else CountIf(cards[..|cards| - 1], p) + (if p(cards[|cards| - 1]) then 1 else 0)
  }

  /** Replacing one card changes a count by what the two cards contribute. */
  lemma {:induction false} CountIfUpdate(cards: seq<Card>, i: nat, c: Card, p: Card -> bool)
    requires i < |cards|
    ensures CountIf(cards[i := c], p)
            == CountIf(cards, p) - (if p(cards[i]) then 1 else 0) + (if p(c) then 1 else 0)
  {
    var n := |cards|;
    if i < n - 1 {
      CountIfUpdate(cards[..n - 1], i, c, p);
      assert cards[i := c][..n - 1] == cards[..n - 1][i := c];
    } else {
      assert cards[i := c][..n - 1] == cards[..n - 1];
    }
  }

  /** The count is the whole list exactly when every card satisfies `p`. */
  lemma {:induction false} CountIfAll(cards: seq<Card>, p: Card -> bool)
    ensures CountIf(cards, p) == |cards| <==> forall i :: 0 <= i < |cards| ==> p(cards[i])
  {
    var n := |cards|;
    if n > 0 {
      CountIfAll(cards[..n - 1], p);
      assert forall i :: 0 <= i < n - 1 ==> cards[..n - 1][i] == cards[i];
    }
  }

  /** Counts of two conditions that exclude each other add up to at most
      the number of cards. */
  lemma {:induction false} CountIfDisjoint(cards: seq<Card>, p: Card -> bool, q: Card -> bool)
    requires forall c :: !(p(c) && q(c))
    ensures CountIf(cards, p) + CountIf(cards, q) <= |cards|
  {
    if |cards| > 0 {
      CountIfDisjoint(cards[..|cards| - 1], p, q);
    }
  }

  function Completed(c: Card): bool { c.completed }

  /** Number of cards answered correctly at least once. */
  function CompletedCount(cards: seq<Card>): nat
  {
    CountIf(cards, Completed)
  }

  /** Number of cards missed exactly `k` times. */
  function MissedExactly(cards: seq<Card>, k: nat): nat
  {
    CountIf(cards, (c: Card) => c.incorrectCount == k)
  }

  /** Total number of misses over all cards. */
  function IncorrectTotal(cards: seq<Card>): nat
  {
    if |cards| == 0 then 0
    else IncorrectTotal(cards[..|cards| - 1]) + cards[|cards| - 1].incorrectCount
  }

  lemma {:induction false} IncorrectTotalUpdate(cards: seq<Card>, i: nat, c: Card)
    requires i < |cards|
    ensures IncorrectTotal(cards[i := c]) == IncorrectTotal(cards) - cards[i].incorrectCount + c.incorrectCount
  {
    var n := |cards|;
    if i < n - 1 {
      IncorrectTotalUpdate(cards[..n - 1], i, c);
      assert cards[i := c][..n - 1] == cards[..n - 1][i := c];
    } else {
      assert cards[i := c][..n - 1] == cards[..n - 1];
    }
  }

  lemma {:induction false} IncorrectTotalOfFresh(cards: seq<Card>)
    requires forall i :: 0 <= i < |cards| ==> IsFresh(cards[i])
    ensures IncorrectTotal(cards) == 0 && CompletedCount(cards) == 0
  {
    if |cards| > 0 {
      IncorrectTotalOfFresh(cards[..|cards| - 1]);
    }
  }
}
