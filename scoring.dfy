/** The final score and its message, as `end_session` computes them. */
module Scoring {
  import opened Util
  import opened Cards

  /** Multiplying by a non-negative number keeps the order. */
  lemma MulLeft(a: int, b: int, d: nat)
    requires a <= b
    ensures a * d <= b * d
  {
    assert b * d - a * d == (b - a) * d;
  }

  /** The quotient and remainder of n by d rebuild n. */
  lemma DivMod(n: nat, d: nat)
    requires d > 0
    ensures n == (n / d) * d + n % d && 0 <= n % d < d
  {
  }

  lemma MulSucc(q: int, d: int)
    ensures (q + 1) * d == q * d + d
  {
  }

  /** Python's `round` on the exact quotient n / d, ties going to the even
      neighbour. */
  function RoundHalfEven(n: nat, d: nat): nat
    requires d > 0
  {
    var q := n / d;
    var rem := n % d;
    if 2 * rem < d || (2 * rem == d && q % 2 == 0) then q else q + 1
  }

  /** The rounding is the nearest integer to n / d, and the even one of the
      two when n / d lies exactly halfway. */
  lemma RoundNearest(n: nat, d: nat)
    requires d > 0
    ensures var r := RoundHalfEven(n, d);
            2 * Abs(r * d - n) <= d && (2 * Abs(r * d - n) == d ==> r % 2 == 0)
  {
    var q := n / d;
    var rem := n % d;
    DivMod(n, d);
    if 2 * rem < d || (2 * rem == d && q % 2 == 0) {
      assert RoundHalfEven(n, d) == q;
      assert q * d - n == -rem;
    } else {
      assert RoundHalfEven(n, d) == q + 1;
      MulSucc(q, d);
      assert (q + 1) * d - n == d - rem;
    }
  }

  /** Two integers that both round n / d half to even are equal. */
  lemma RoundingsAgree(n: nat, d: nat, r: int, m: int)
    requires d > 0
    requires 2 * Abs(r * d - n) <= d && (2 * Abs(r * d - n) == d ==> r % 2 == 0)
    requires 2 * Abs(m * d - n) <= d && (2 * Abs(m * d - n) == d ==> m % 2 == 0)
    requires m <= r
    ensures m == r
  {
    assert (m + 1) * d == m * d + d;
    assert (m + 2) * d == m * d + 2 * d;
    if m + 1 == r {
      MulLeft(m + 1, r, d);
    } else if m + 1 < r {
      MulLeft(m + 2, r, d);
    }
  }

  /** Only one integer is the half-to-even rounding of n / d. */
  lemma RoundHalfEvenUnique(n: nat, d: nat, m: int)
    requires d > 0
    requires 2 * Abs(m * d - n) <= d
    requires 2 * Abs(m * d - n) == d ==> m % 2 == 0
    ensures m == RoundHalfEven(n, d)
  {
    var r := RoundHalfEven(n, d);
    RoundNearest(n, d);
    if m <= r {
      RoundingsAgree(n, d, r, m);
    } else {
      RoundingsAgree(n, d, m, r);
    }
  }

  /** The integer quotient does not reverse the order of the dividends. */
  lemma DivMonotone(n1: nat, n2: nat, d: nat)
    requires d > 0 && n1 <= n2
    ensures n1 / d <= n2 / d
  {
    var q1, q2 := n1 / d, n2 / d;
    DivMod(n1, d);
    DivMod(n2, d);
    if q1 > q2 {
      MulLeft(q2 + 1, q1, d);
      MulSucc(q2, d);
    }
  }

  /** Rounding the quotient does not reverse the order of the dividends. */
  lemma RoundMonotone(n1: nat, n2: nat, d: nat)
    requires d > 0 && n1 <= n2
    ensures RoundHalfEven(n1, d) <= RoundHalfEven(n2, d)
  {
    DivMonotone(n1, n2, d);
    if n1 / d == n2 / d {
      DivMod(n1, d);
      DivMod(n2, d);
    }
  }

  /** `(first + once / 5) / total * 100`, rounded, over the exact rationals:
      it is 20 * (5 * first + once) / total; with no cards the score is 0. */
  function ScoreOf(first: nat, once: nat, total: nat): nat
  {
    if total == 0 then 0 else RoundHalfEven(20 * (5 * first + once), total)
  }

  /** The score of a finished session: cards never missed count in full,
      cards missed exactly once count for a fifth, the rest not at all. */
  function FinalScore(cards: seq<Card>): nat
  {
    ScoreOf(MissedExactly(cards, 0), MissedExactly(cards, 1), |cards|)
  }

  /** The two counts exclude each other, so they add up to at most the
      number of cards. */
  lemma FirstAndOnceAtMostAll(cards: seq<Card>)
    ensures MissedExactly(cards, 0) + MissedExactly(cards, 1) <= |cards|
  {
    CountIfDisjoint(cards, (c: Card) => c.incorrectCount == 0, (c: Card) => c.incorrectCount == 1);
  }

  /** The score is a percentage. */
  lemma ScoreBounds(cards: seq<Card>)
    ensures 0 <= FinalScore(cards) <= 100
  {
    FirstAndOnceAtMostAll(cards);
    var t := |cards|;
    if t > 0 {
      var n := 20 * (5 * MissedExactly(cards, 0) + MissedExactly(cards, 1));
      assert n <= 100 * t;
      RoundMonotone(n, 100 * t, t);
      RoundHalfEvenUnique(100 * t, t, 100);
    }
  }

  /** A session in which no card was ever missed scores 100. */
  lemma ScorePerfect(cards: seq<Card>)
    requires |cards| > 0
    requires forall i :: 0 <= i < |cards| ==> cards[i].incorrectCount == 0
    ensures FinalScore(cards) == 100
  {
    CountIfAll(cards, (c: Card) => c.incorrectCount == 0);
    CountIfDisjoint(cards, (c: Card) => c.incorrectCount == 0, (c: Card) => c.incorrectCount == 1);
    var t := |cards|;
    assert MissedExactly(cards, 1) == 0;
    RoundHalfEvenUnique(100 * t, t, 100);
  }

  /** With fewer than 160 cards the score is 100 exactly when no card was
      ever missed. */
  lemma ScoreHundredIff(cards: seq<Card>)
    requires 0 < |cards| < 160
    ensures FinalScore(cards) == 100 <==> forall i :: 0 <= i < |cards| ==> cards[i].incorrectCount == 0
  {
    if forall i :: 0 <= i < |cards| ==> cards[i].incorrectCount == 0 {
      ScorePerfect(cards);
    } else {
      var t := |cards|;
      var first, once := MissedExactly(cards, 0), MissedExactly(cards, 1);
      CountIfAll(cards, (c: Card) => c.incorrectCount == 0);
      FirstAndOnceAtMostAll(cards);
      assert first <= t - 1;
      var n := 20 * (5 * first + once);
      assert n <= 100 * t - 80;
      var r := RoundHalfEven(n, t);
      RoundNearest(n, t);
      assert 2 * (r * t) <= 2 * n + t;
      if r >= 100 {
        MulLeft(100, r, t);
      }
    }
  }

  /** In this exact model, from 160 cards on a miss no longer always
      shows: 159 cards never missed and one missed once is a quotient of
      exactly 99.5, which rounds to the even 100. (The app computes the
      quotient in floating point, where it falls just below 99.5.) */
  lemma ScoreHundredWithOneMiss()
    ensures ScoreOf(159, 1, 160) == 100
  {
    assert 20 * (5 * 159 + 1) == 15920;
    assert 15920 / 160 == 99 && 15920 % 160 == 80;
  }

  /** A further miss on any card never raises the score. */
  lemma MissNeverRaisesScore(cards: seq<Card>, i: nat)
    requires i < |cards|
    ensures FinalScore(cards[i := Missing(cards[i])]) <= FinalScore(cards)
  {
    var after := cards[i := Missing(cards[i])];
    CountIfUpdate(cards, i, Missing(cards[i]), (c: Card) => c.incorrectCount == 0);
    CountIfUpdate(cards, i, Missing(cards[i]), (c: Card) => c.incorrectCount == 1);
    var n := 20 * (5 * MissedExactly(cards, 0) + MissedExactly(cards, 1));
    var m := 20 * (5 * MissedExactly(after, 0) + MissedExactly(after, 1));
    assert m <= n;
    RoundMonotone(m, n, |cards|);
  }

  /** The jokes `end_session` picks from at a score of 69. */
  const Jokes: seq<string> := [
    "Nice! 69 is the best!",
    "Sixty-nine, a fine time!",
    "Keep calm \U{2013} it\U{2019}s 69!",
    "69: You\U{2019}re on fire!",
    "Rock that 69 score!"
  ]

  /** The messages of the six score tiers, lowest first. */
  const Tiers: seq<string> := [
    "Nevermind bro, maybe its better to do something else",
    "Sit tight, this is a heavy sesh. You better dont quit on me now",
    "Keep practicing, you'll get better!",
    "Good job, keep it up!",
    "Excellent work, you're a language master!",
    "Clean sheet bro, you're a language god!"
  ]

  /** The scores at which the next tier starts. */
  const Thresholds: seq<nat> := [10, 30, 50, 80, 100]

  /** How many of the thresholds `score` reaches. */
  function Reached(thresholds: seq<nat>, score: nat): (k: nat)
    ensures k <= |thresholds|
  {
    if |thresholds| == 0 then 0
    else (if thresholds[0] <= score then 1 else 0) + Reached(thresholds[1..], score)
  }

  /** The message of `end_session`: at 69 the joke the random choice picked
      (`joke`), otherwise the message of the score's tier. */
  function Message(score: nat, joke: nat): string
    requires score == 69 ==> joke < |Jokes|
  {
    if score == 69 then Jokes[joke]
    else if score < 10 then Tiers[0]
    else if score < 30 then Tiers[1]
    else if score < 50 then Tiers[2]
    else if score < 80 then Tiers[3]
    else if score < 100 then Tiers[4]
    else Tiers[5]
  }

  /** Away from 69 the message is the tier picked by how many thresholds
      the score reaches. */
  lemma MessageIsTier(score: nat, joke: nat)
    requires score != 69
    ensures Message(score, joke) == Tiers[Reached(Thresholds, score)]
  {
    var t := Thresholds;
    assert Reached(t[5..], score) == 0;
    assert t[4..][1..] == t[5..];
    assert Reached(t[4..], score) == (if score >= 100 then 1 else 0);
    assert t[3..][1..] == t[4..];
    assert Reached(t[3..], score) == (if score >= 80 then 1 else 0) + Reached(t[4..], score);
    assert t[2..][1..] == t[3..];
    assert Reached(t[2..], score) == (if score >= 50 then 1 else 0) + Reached(t[3..], score);
    assert t[1..][1..] == t[2..];
    assert Reached(t[1..], score) == (if score >= 30 then 1 else 0) + Reached(t[2..], score);
    assert Reached(t, score) == (if score >= 10 then 1 else 0) + Reached(t[1..], score);
  }

  /** A higher score never earns a lower tier. */
  lemma {:induction false} ReachedMonotone(thresholds: seq<nat>, s1: nat, s2: nat)
    requires s1 <= s2
    ensures Reached(thresholds, s1) <= Reached(thresholds, s2)
  {
    if |thresholds| > 0 {
      ReachedMonotone(thresholds[1..], s1, s2);
    }
  }

  /** A joke is shown exactly at 69, and the top message exactly from 100. */
  lemma MessageCases(score: nat, joke: nat)
    requires score == 69 ==> joke < |Jokes|
    ensures Message(score, joke) in Jokes <==> score == 69
    ensures Message(score, joke) == Tiers[5] <==> score >= 100
  {
    var m := Message(score, joke);
    if score != 69 {
      assert m in Tiers;
      forall k | 0 <= k < |Jokes|
        ensures m != Jokes[k]
      {
        assert m[0] != Jokes[k][0] || |m| != |Jokes[k]|;
      }
    }
  }

  /** The example session of five cards missed 0, 0, 0, 1 and 3 times
      scores (3 + 1/5) / 5 * 100 = 64 and is told to keep it up. */
  lemma ScoreExample()
    ensures ScoreOf(3, 1, 5) == 64 && Message(64, 0) == "Good job, keep it up!"
  {
  }
}
