/** The session scheduler of `LanguageLearnerApp`: the cards of one session,
    the main queue and the final queue (both holding references to cards,
    modelled as indices into `cards`), the current card and two running
    tallies. */
module Scheduler {
  import opened Util
  import opened Cards
  import Grading

  /** Every entry of `q` names one of `n` cards. */
  predicate InRange(q: seq<nat>, n: nat)
  {
    forall k :: 0 <= k < |q| ==> q[k] < n
  }

  /** [0, 1, ..., n - 1]: the main queue right after `self.cards.copy()`. */
  function Indices(n: nat): (r: seq<nat>)
    ensures |r| == n && forall k :: 0 <= k < n ==> r[k] == k
  {
    seq(n, k requires 0 <= k < n => k)
  }

  /** `q.insert(i, x)`: taking the inserted entry out again gives back `q`. */
  function InsertAt(q: seq<nat>, i: nat, x: nat): (r: seq<nat>)
    requires i <= |q|
    ensures |r| == |q| + 1 && r[i] == x && RemoveAt(r, i) == q
    ensures multiset(r) == multiset(q) + multiset{x}
  {
    var r := q[..i] + [x] + q[i..];
    assert r[..i] == q[..i] && r[i + 1..] == q[i..];
    assert q == q[..i] + q[i..];
    r
  }

  /** Where `schedule_incorrect_card` puts a missed card back: `offset`
      places after the head, or at the end of a shorter queue. */
  function Requeue(q: seq<nat>, card: nat, offset: nat): seq<nat>
  {
    InsertAt(q, Min(offset, |q|), card)
  }

  /** The requeue rule: with an offset in 3..6 the card lands at a position
      between min(3, len) and min(6, len) from the head, the queue grows by
      exactly that one entry and every other entry keeps its order. */
  lemma RequeuePosition(q: seq<nat>, card: nat, offset: nat)
    requires 3 <= offset <= 6
    ensures var r := Requeue(q, card, offset);
            var p := Min(offset, |q|);
            Min(3, |q|) <= p <= Min(6, |q|) && p < |r| && r[p] == card
            && |r| == |q| + 1 && RemoveAt(r, p) == q
  {
  }

  /** The final queue after a miss: the card is appended unless it was
      appended before. */
  function AppendOnce(finalQueue: seq<nat>, card: nat, scheduled: bool): seq<nat>
  {
    if scheduled then finalQueue else finalQueue + [card]
  }

  /** Requeueing and appending a card of the session keep every entry a
      card of the session. */
  lemma MissKeepsInRange(queue: seq<nat>, finalQueue: seq<nat>, c: nat, offset: nat, flagged: bool, n: nat)
    requires InRange(queue, n) && InRange(finalQueue, n) && c < n
    ensures InRange(Requeue(queue, c, offset), n) && InRange(AppendOnce(finalQueue, c, flagged), n)
  {
    var p := Min(offset, |queue|);
    assert Requeue(queue, c, offset) == queue[..p] + [c] + queue[p..];
  }

  /** What `next_card` does to the queues: the card it hands out (none when
      the session ends), the queues afterwards and the card last popped. */
  datatype Draw = Draw(card: Option<nat>, queue: seq<nat>, finalQueue: seq<nat>, current: Option<nat>)

  /** `next_card`'s queue logic: when the main queue is empty the final
      queue becomes the main queue (or, if that is empty too, the session
      ends); then the head is popped, and a card that is already completed
      is passed over by drawing again. Each pop shortens the two queues
      together, so this terminates. */
  function NextDraw(cards: seq<Card>, queue: seq<nat>, finalQueue: seq<nat>, current: Option<nat>): (d: Draw)
    requires InRange(queue, |cards|) && InRange(finalQueue, |cards|)
    ensures InRange(d.queue, |cards|) && InRange(d.finalQueue, |cards|)
    ensures d.card.Some? ==> d.card.value < |cards| && !cards[d.card.value].completed && d.current == d.card
    ensures d.card.None? ==> d.queue == [] && d.finalQueue == []
    ensures d.finalQueue == finalQueue || d.finalQueue == []
    ensures d.card.Some? ==> |d.queue| + |d.finalQueue| < |queue| + |finalQueue|
    ensures current.Some? && current.value < |cards| ==> d.current.Some? && d.current.value < |cards|
    decreases |queue| + |finalQueue|
  {
    if |queue| == 0 && |finalQueue| == 0 then Draw(None, queue, finalQueue, current)
    else
      var q := if |queue| == 0 then finalQueue else queue;
      var f := if |queue| == 0 then [] else finalQueue;
      var c := q[0];
      if cards[c].completed then NextDraw(cards, q[1..], f, Some(c))
      else Draw(Some(c), q[1..], f, Some(c))
  }

  /** The draw of `next_card` after a miss on card `c`: `c` requeued
      `offset` places on and appended to the final queue unless `flagged`
      says it was before. */
  function DrawAfterMiss(cards: seq<Card>, queue: seq<nat>, finalQueue: seq<nat>, c: nat, offset: nat, flagged: bool): Draw
    requires InRange(queue, |cards|) && InRange(finalQueue, |cards|) && c < |cards|
  {
    MissKeepsInRange(queue, finalQueue, c, offset, flagged, |cards|);
    NextDraw(cards, Requeue(queue, c, offset), AppendOnce(finalQueue, c, flagged), Some(c))
  }

  /** A card that is waiting in `q`: named there and not completed. */
  predicate HasPending(cards: seq<Card>, q: seq<nat>)
    requires InRange(q, |cards|)
  {
    exists k :: 0 <= k < |q| && !cards[q[k]].completed
  }

  /** The session ends exactly when neither queue holds a card that is not
      completed yet. */
  lemma {:induction false} DrawEndsIffNothingPending(cards: seq<Card>, queue: seq<nat>, finalQueue: seq<nat>, current: Option<nat>)
    requires InRange(queue, |cards|) && InRange(finalQueue, |cards|)
    ensures NextDraw(cards, queue, finalQueue, current).card.None?
            <==> !HasPending(cards, queue) && !HasPending(cards, finalQueue)
    decreases |queue| + |finalQueue|
  {
    if |queue| == 0 && |finalQueue| == 0 {
    } else {
      var q := if |queue| == 0 then finalQueue else queue;
      var f := if |queue| == 0 then [] else finalQueue;
      var c := q[0];
      if cards[c].completed {
        DrawEndsIffNothingPending(cards, q[1..], f, Some(c));
        assert HasPending(cards, q) <==> HasPending(cards, q[1..]) by {
          if HasPending(cards, q) {
            var k :| 0 <= k < |q| && !cards[q[k]].completed;
            assert q[1..][k - 1] == q[k];
          }
          if HasPending(cards, q[1..]) {
            var k :| 0 <= k < |q[1..]| && !cards[q[1..][k]].completed;
            assert q[k + 1] == q[1..][k];
          }
        }
        assert !HasPending(cards, []);
      } else {
        assert !cards[q[0]].completed;
      }
    }
  }

  /** While the main queue holds a card that is not completed, the draw
      hands out the first such card, drops the completed ones before it and
      leaves the final queue alone. */
  lemma {:induction false} DrawTakesFirstPending(cards: seq<Card>, queue: seq<nat>, finalQueue: seq<nat>, current: Option<nat>, p: nat)
    requires InRange(queue, |cards|) && InRange(finalQueue, |cards|)
    requires p < |queue| && !cards[queue[p]].completed
    requires forall k :: 0 <= k < p ==> cards[queue[k]].completed
    ensures var d := NextDraw(cards, queue, finalQueue, current);
            d.card == Some(queue[p]) && d.queue == queue[p + 1..] && d.finalQueue == finalQueue
    decreases p
  {
    if p > 0 {
      assert cards[queue[0]].completed;
      DrawTakesFirstPending(cards, queue[1..], finalQueue, Some(queue[0]), p - 1);
      assert queue[1..][p - 1 + 1..] == queue[p + 1..];
    }
  }

  /** Once the main queue holds only completed cards, the draw moves the
      final queue into the main queue, empties the final queue and hands
      out its first card that is not completed. */
  lemma {:induction false} DrawRefills(cards: seq<Card>, queue: seq<nat>, finalQueue: seq<nat>, current: Option<nat>, p: nat)
    requires InRange(queue, |cards|) && InRange(finalQueue, |cards|)
    requires forall k :: 0 <= k < |queue| ==> cards[queue[k]].completed
    requires p < |finalQueue| && !cards[finalQueue[p]].completed
    requires forall k :: 0 <= k < p ==> cards[finalQueue[k]].completed
    ensures var d := NextDraw(cards, queue, finalQueue, current);
            d.card == Some(finalQueue[p]) && d.queue == finalQueue[p + 1..] && d.finalQueue == []
    decreases |queue|
  {
    if |queue| == 0 {
      DrawTakesFirstPending(cards, finalQueue, [], current, p);
    } else {
      assert cards[queue[0]].completed;
      DrawRefills(cards, queue[1..], finalQueue, Some(queue[0]), p);
    }
  }

  /** No card that is waiting is lost by a draw: it is handed out or is
      still in one of the queues. */
  lemma {:induction false} DrawKeepsPending(cards: seq<Card>, queue: seq<nat>, finalQueue: seq<nat>, current: Option<nat>, i: nat)
    requires InRange(queue, |cards|) && InRange(finalQueue, |cards|)
    requires i < |cards| && !cards[i].completed && (i in queue || i in finalQueue)
    ensures var d := NextDraw(cards, queue, finalQueue, current);
            d.card == Some(i) || i in d.queue || i in d.finalQueue
    decreases |queue| + |finalQueue|
  {
    var q := if |queue| == 0 then finalQueue else queue;
    var f := if |queue| == 0 then [] else finalQueue;
    assert i in q || i in f;
    var c := q[0];
    if c != i {
      assert i in q[1..] || i in f by {
        if i in q {
          var k :| 0 <= k < |q| && q[k] == i;
          assert q[1..][k - 1] == i;
        }
      }
    }
    if cards[c].completed {
      DrawKeepsPending(cards, q[1..], f, Some(c), i);
    }
  }

  /** With every waiting card in one of the queues, the draw ends the
      session exactly when every card of the session is completed. */
  lemma SessionEndsIffAllCompleted(cards: seq<Card>, queue: seq<nat>, finalQueue: seq<nat>, current: Option<nat>)
    requires InRange(queue, |cards|) && InRange(finalQueue, |cards|)
    requires forall i :: 0 <= i < |cards| && !cards[i].completed ==> i in queue || i in finalQueue
    ensures NextDraw(cards, queue, finalQueue, current).card.None?
            <==> forall i :: 0 <= i < |cards| ==> cards[i].completed
  {
    DrawEndsIffNothingPending(cards, queue, finalQueue, current);
    if exists i :: 0 <= i < |cards| && !cards[i].completed {
      var i :| 0 <= i < |cards| && !cards[i].completed;
      if i in queue {
        var k :| 0 <= k < |queue| && queue[k] == i;
        assert HasPending(cards, queue);
      } else {
        var k :| 0 <= k < |finalQueue| && finalQueue[k] == i;
        assert HasPending(cards, finalQueue);
      }
    }
  }

  /** As written, the final round never shows a card: with every waiting
      card in the main queue (as the session keeps it), once the main queue
      is empty the draw hands out nothing, whatever the final queue holds. */
  lemma FinalRoundHandsOutNothing(cards: seq<Card>, finalQueue: seq<nat>, current: Option<nat>)
    requires InRange(finalQueue, |cards|) && Queued(cards, [])
    ensures NextDraw(cards, [], finalQueue, current).card.None?
  {
    DrawEndsIffNothingPending(cards, [], finalQueue, current);
  }

  /** One card, missed once and then answered correctly: it waits in the
      final queue, and the draw still ends the session without showing it. */
  lemma FinalRoundExample()
    ensures var cards := [Card("a", "A", true, 1, true)];
            NextDraw(cards, [], [0], None) == Draw(None, [], [], Some(0))
  {
  }

  /** A draw together with whether the final round has started. */
  datatype RoundDraw = RoundDraw(draw: Draw, finalRound: bool)

  /** The draw the final round evidently intends: as `NextDraw`, except
      that once the final queue has been moved into the main queue its
      cards are handed out again even though they are completed. */
  function IntendedDraw(cards: seq<Card>, queue: seq<nat>, finalQueue: seq<nat>, current: Option<nat>, finalRound: bool): (r: RoundDraw)
    requires InRange(queue, |cards|) && InRange(finalQueue, |cards|)
    ensures r.draw.card.Some? ==> r.draw.card.value < |cards| && r.draw.current == r.draw.card
    ensures r.draw.card.None? ==> r.draw.queue == [] && r.draw.finalQueue == []
    ensures finalRound ==> r.finalRound
    decreases |queue| + |finalQueue|
  {
    if |queue| == 0 && |finalQueue| == 0 then RoundDraw(Draw(None, queue, finalQueue, current), finalRound)
    else
      var inFinal := finalRound || |queue| == 0;
      var q := if |queue| == 0 then finalQueue else queue;
      var f := if |queue| == 0 then [] else finalQueue;
      var c := q[0];
      if cards[c].completed && !inFinal then IntendedDraw(cards, q[1..], f, Some(c), inFinal)
      else RoundDraw(Draw(Some(c), q[1..], f, Some(c)), inFinal)
  }

  /** With the intended draw, once the main queue holds only completed
      cards, the final round starts and hands out the first card of the
      final queue, completed or not. */
  lemma {:induction false} IntendedFinalRoundRepeats(cards: seq<Card>, queue: seq<nat>, finalQueue: seq<nat>, current: Option<nat>)
    requires InRange(queue, |cards|) && InRange(finalQueue, |cards|)
    requires forall k :: 0 <= k < |queue| ==> cards[queue[k]].completed
    requires |finalQueue| > 0
    ensures var r := IntendedDraw(cards, queue, finalQueue, current, false);
            r.draw.card == Some(finalQueue[0]) && r.draw.queue == finalQueue[1..]
            && r.draw.finalQueue == [] && r.finalRound
    decreases |queue|
  {
    if |queue| > 0 {
      assert cards[queue[0]].completed;
      IntendedFinalRoundRepeats(cards, queue[1..], finalQueue, Some(queue[0]));
    }
  }

  /** Before the final round, while the main queue holds a card that is not
      completed, the intended draw is the draw as written. */
  lemma {:induction false} IntendedMainRoundAgrees(cards: seq<Card>, queue: seq<nat>, finalQueue: seq<nat>, current: Option<nat>, p: nat)
    requires InRange(queue, |cards|) && InRange(finalQueue, |cards|)
    requires p < |queue| && !cards[queue[p]].completed
    requires forall k :: 0 <= k < p ==> cards[queue[k]].completed
    ensures var r := IntendedDraw(cards, queue, finalQueue, current, false);
            r.draw == NextDraw(cards, queue, finalQueue, current) && !r.finalRound
    decreases p
  {
    if p > 0 {
      assert cards[queue[0]].completed;
      IntendedMainRoundAgrees(cards, queue[1..], finalQueue, Some(queue[0]), p - 1);
    }
  }

  /** Queues and the current card name cards of the session. */
  ghost predicate Indexed(cards: seq<Card>, queue: seq<nat>, finalQueue: seq<nat>, current: Option<nat>)
  {
    InRange(queue, |cards|) && InRange(finalQueue, |cards|) && (current.Some? ==> current.value < |cards|)
  }

  /** The final queue is the latest part of the history of appends to it,
      no card is appended twice, a card is in the history exactly when its
      `final_scheduled` flag is set, and only missed cards are flagged. */
  ghost predicate FinalRound(cards: seq<Card>, finalQueue: seq<nat>, history: seq<nat>)
  {
    && InRange(history, |cards|) && Distinct(history)
    && |finalQueue| <= |history| && finalQueue == history[|history| - |finalQueue|..]
    && (forall i :: 0 <= i < |cards| ==> (cards[i].finalScheduled <==> i in history))
    && (forall i :: 0 <= i < |cards| && cards[i].finalScheduled ==> cards[i].incorrectCount > 0)
  }

  /** The tallies count the completed cards and all misses. */
  ghost predicate Tallied(cards: seq<Card>, correctCount: nat, incorrectOverall: nat)
  {
    correctCount == CompletedCount(cards) && incorrectOverall == IncorrectTotal(cards)
  }

  /** Every card that is not completed waits in the main queue. */
  ghost predicate Queued(cards: seq<Card>, queue: seq<nat>)
  {
    forall i :: 0 <= i < |cards| && !cards[i].completed ==> i in queue
  }

  /** Every card that is not completed waits in the main queue or is the
      current card. (A miss always puts the card back into the main queue,
      so the final queue never holds the only copy of a waiting card.) */
  ghost predicate Waiting(cards: seq<Card>, queue: seq<nat>, current: Option<nat>)
  {
    forall i :: 0 <= i < |cards| && !cards[i].completed ==> i in queue || current == Some(i)
  }

  /** The invariant of a session over its values: indices in range, the
      final round consistent, the tallies right and every card that is not
      completed waiting in the main queue or current. */
  ghost predicate Consistent(cards: seq<Card>, queue: seq<nat>, finalQueue: seq<nat>, current: Option<nat>,
                             history: seq<nat>, correct: nat, incorrect: nat)
  {
    && Indexed(cards, queue, finalQueue, current)
    && FinalRound(cards, finalQueue, history)
    && Tallied(cards, correct, incorrect)
    && Waiting(cards, queue, current)
  }

  predicate AllCompleted(cards: seq<Card>)
  {
    forall i :: 0 <= i < |cards| ==> cards[i].completed
  }

  /** Every card missed at least once is flagged for the final round. */
  ghost predicate MissesFlagged(cards: seq<Card>)
  {
    forall i :: 0 <= i < |cards| && cards[i].incorrectCount > 0 ==> cards[i].finalScheduled
  }

  /** A card update that keeps the flag and does not lower the miss count
      keeps the final round consistent. */
  lemma FinalRoundUpdate(cards: seq<Card>, finalQueue: seq<nat>, history: seq<nat>, c: nat, card: Card)
    requires FinalRound(cards, finalQueue, history) && c < |cards|
    requires card.finalScheduled == cards[c].finalScheduled && card.incorrectCount >= cards[c].incorrectCount
    ensures FinalRound(cards[c := card], finalQueue, history)
  {
  }

  /** Flagging a missed card that was not flagged and appending it to the
      final queue keeps the final round consistent. */
  lemma FinalRoundAppend(cards: seq<Card>, finalQueue: seq<nat>, history: seq<nat>, c: nat)
    requires FinalRound(cards, finalQueue, history) && c < |cards|
    requires !cards[c].finalScheduled && cards[c].incorrectCount > 0
    ensures FinalRound(cards[c := Scheduling(cards[c])], finalQueue + [c], history + [c])
  {
    var h := history + [c];
    assert c !in history;
    assert finalQueue + [c] == h[|h| - |finalQueue| - 1..];
    forall i | 0 <= i < |cards|
      ensures cards[c := Scheduling(cards[c])][i].finalScheduled <==> i in h
    {
      assert i in h <==> i in history || i == c;
    }
  }

  /** A card that waits still waits after the current card is put back
      into the main queue, and then every waiting card is in the main
      queue. */
  lemma RequeueKeepsQueued(cards: seq<Card>, queue: seq<nat>, c: nat, offset: nat)
    requires Waiting(cards, queue, Some(c))
    ensures Queued(cards, Requeue(queue, c, offset))
  {
    var r := Requeue(queue, c, offset);
    var p := Min(offset, |queue|);
    assert r[p] == c;
    forall i | 0 <= i < |cards| && !cards[i].completed
      ensures i in r
    {
      if i in queue {
        var k :| 0 <= k < |queue| && queue[k] == i;
        assert r == queue[..p] + [c] + queue[p..];
        if k < p { assert r[k] == i; } else { assert r[k + 1] == i; }
      }
    }
  }

  /** Flagging a card for the final round does not change which cards
      wait. */
  lemma SchedulingKeepsWaiting(cards: seq<Card>, c: nat, queue: seq<nat>, current: Option<nat>)
    requires c < |cards| && Queued(cards, queue)
    ensures Queued(cards[c := Scheduling(cards[c])], queue)
    ensures Waiting(cards[c := Scheduling(cards[c])], queue, current)
  {
  }

  /** The state change of `schedule_incorrect_card` on the current card,
      which has just been missed, keeps the session consistent and leaves
      every card that is not completed waiting in the main queue. */
  lemma RequeueStep(cards: seq<Card>, queue: seq<nat>, finalQueue: seq<nat>, history: seq<nat>, card: nat, offset: nat, correct: nat, incorrect: nat)
    requires Consistent(cards, queue, finalQueue, Some(card), history, correct, incorrect)
    requires cards[card].incorrectCount > 0
    ensures var flagged := cards[card].finalScheduled;
            var after := cards[card := Scheduling(cards[card])];
            var q := Requeue(queue, card, offset);
            var f := AppendOnce(finalQueue, card, flagged);
            && Consistent(after, q, f, Some(card), AppendOnce(history, card, flagged), correct, incorrect)
            && Queued(after, q)
  {
    var flagged := cards[card].finalScheduled;
    var after := cards[card := Scheduling(cards[card])];
    var q := Requeue(queue, card, offset);
    var f := AppendOnce(finalQueue, card, flagged);
    MissKeepsInRange(queue, finalQueue, card, offset, flagged, |cards|);
    assert Indexed(after, q, f, Some(card));
    RequeueKeepsQueued(cards, queue, card, offset);
    SchedulingKeepsWaiting(cards, card, q, Some(card));
    CountIfUpdate(cards, card, Scheduling(cards[card]), Completed);
    IncorrectTotalUpdate(cards, card, Scheduling(cards[card]));
    assert Tallied(after, correct, incorrect);
    if !flagged {
      FinalRoundAppend(cards, finalQueue, history, card);
    } else {
      SchedulingFlagged(cards, card);
    }
    assert FinalRound(after, f, AppendOnce(history, card, flagged));
  }

  /** Popping the head of the main queue: if it is completed every card
      that is not completed still waits in the main queue, otherwise it
      waits there or is the popped card. */
  lemma PopKeepsQueued(cards: seq<Card>, queue: seq<nat>)
    requires InRange(queue, |cards|) && |queue| > 0 && Queued(cards, queue)
    ensures cards[queue[0]].completed ==> Queued(cards, queue[1..])
    ensures Waiting(cards, queue[1..], Some(queue[0]))
  {
    forall i | 0 <= i < |cards| && !cards[i].completed && i != queue[0] && i in queue
      ensures i in queue[1..]
    {
      var k :| 0 <= k < |queue| && queue[k] == i;
      assert queue[1..][k - 1] == i;
    }
  }

  /** Moving the final queue into the empty main queue keeps the session
      consistent. With every waiting card in the main queue, an empty main
      queue means every card is completed, so the final round it starts
      holds only completed cards. */
  lemma RefillStep(cards: seq<Card>, finalQueue: seq<nat>, current: Option<nat>, history: seq<nat>, correct: nat, incorrect: nat)
    requires Consistent(cards, [], finalQueue, current, history, correct, incorrect) && Queued(cards, [])
    ensures Consistent(cards, finalQueue, [], current, history, correct, incorrect) && Queued(cards, finalQueue)
    ensures AllCompleted(cards)
  {
    assert history[|history|..] == [];
  }

  /** Popping the head of the main queue into the current card keeps the
      session consistent; if the head is completed, every waiting card is
      still queued. */
  lemma PopStep(cards: seq<Card>, queue: seq<nat>, finalQueue: seq<nat>, current: Option<nat>, history: seq<nat>, correct: nat, incorrect: nat)
    requires Consistent(cards, queue, finalQueue, current, history, correct, incorrect) && Queued(cards, queue)
    requires |queue| > 0
    ensures Consistent(cards, queue[1..], finalQueue, Some(queue[0]), history, correct, incorrect)
    ensures cards[queue[0]].completed ==> Queued(cards, queue[1..])
  {
    PopKeepsQueued(cards, queue);
    assert Indexed(cards, queue[1..], finalQueue, Some(queue[0]));
  }

  /** Completing the current card, which was not completed, keeps the
      session consistent, credits it once and leaves every card that is not
      completed waiting in the main queue. */
  lemma CompleteStep(cards: seq<Card>, queue: seq<nat>, finalQueue: seq<nat>, history: seq<nat>, c: nat, correct: nat, incorrect: nat)
    requires Consistent(cards, queue, finalQueue, Some(c), history, correct, incorrect)
    requires MissesFlagged(cards) && !cards[c].completed
    ensures var after := cards[c := Completing(cards[c])];
            && Consistent(after, queue, finalQueue, Some(c), history, correct + 1, incorrect)
            && MissesFlagged(after) && Queued(after, queue)
  {
    CountIfUpdate(cards, c, Completing(cards[c]), Completed);
    IncorrectTotalUpdate(cards, c, Completing(cards[c]));
    FinalRoundUpdate(cards, finalQueue, history, c, Completing(cards[c]));
  }

  /** Missing the current card keeps the session consistent apart from
      flagging it, adds one to the miss tally, and once the card is flagged
      every missed card is flagged again. */
  lemma MissStep(cards: seq<Card>, queue: seq<nat>, finalQueue: seq<nat>, history: seq<nat>, c: nat, correct: nat, incorrect: nat)
    requires Consistent(cards, queue, finalQueue, Some(c), history, correct, incorrect)
    requires MissesFlagged(cards)
    ensures var after := cards[c := Missing(cards[c])];
            && Consistent(after, queue, finalQueue, Some(c), history, correct, incorrect + 1)
            && after[c].incorrectCount > 0
            && MissesFlagged(after[c := Scheduling(after[c])])
  {
    CountIfUpdate(cards, c, Missing(cards[c]), Completed);
    IncorrectTotalUpdate(cards, c, Missing(cards[c]));
    FinalRoundUpdate(cards, finalQueue, history, c, Missing(cards[c]));
  }

  /** Exchanging two cards keeps the multiset of pairs and freshness. */
  lemma SwapKeepsPairs(cards: seq<Card>, k: nat, j: nat)
    requires j <= k < |cards|
    ensures var swapped := cards[k := cards[j]][j := cards[k]];
            && multiset(Pairs(swapped)) == multiset(Pairs(cards))
            && ((forall i :: 0 <= i < |cards| ==> IsFresh(cards[i])) ==>
                  forall i :: 0 <= i < |swapped| ==> IsFresh(swapped[i]))
  {
    var before := Pairs(cards);
    assert Pairs(cards[k := cards[j]][j := cards[k]]) == before[k := before[j]][j := before[k]];
  }

  /** Flagging a card that is already flagged changes nothing. */
  lemma SchedulingFlagged(cards: seq<Card>, c: nat)
    requires c < |cards| && cards[c].finalScheduled
    ensures cards[c := Scheduling(cards[c])] == cards
  {
  }

  /** Each card of [0, n) is in `Indices(n)`. */
  lemma IndicesQueued(cards: seq<Card>)
    ensures Queued(cards, Indices(|cards|))
  {
    var q := Indices(|cards|);
    forall i | 0 <= i < |cards|
      ensures i in q
    {
      assert q[i] == i;
    }
  }

  class Session {
    var cards: seq<Card>
    var queue: seq<nat>
    var finalQueue: seq<nat>
    var current: Option<nat>
    var correctCount: nat
    var incorrectOverall: nat
    /** Whether `end_session` has run. */
    var ended: bool
    /** Every card ever appended to the final queue, in order. */
    ghost var finalHistory: seq<nat>

    /** The invariant of a session: queues and the current card name cards
        of the session, the final round is consistent, the tallies count
        the completed cards and all misses, every card that is not
        completed waits in the main queue or is the current card, and the
        session has ended only with both queues empty and every card
        completed. */
    ghost predicate Valid()
      reads this
    {
      && Consistent(cards, queue, finalQueue, current, finalHistory, correctCount, incorrectOverall)
      && (ended ==> queue == [] && finalQueue == [] && AllCompleted(cards))
    }

    /** Between an answer and the next draw: no card has a miss that is not
        flagged, and every card that is not completed waits in the main
        queue. */
    ghost predicate Settled()
      reads this
    {
      Valid() && MissesFlagged(cards) && !ended && Queued(cards, queue)
    }

    /** Waiting for an answer: the current card, if any, is not completed. */
    ghost predicate Ready()
      reads this
    {
      Valid() && MissesFlagged(cards) && !ended && (current.Some? ==> !cards[current.value].completed)
    }

    /** `start_session` (the card build and the queue set-up): one fresh card
        per row, shuffled as `random.shuffle` does (from the back, exchanging
        position k with position `swaps[k]`, which is at most k), the main
        queue holding every card in the shuffled order, the final queue
        empty and both tallies zero. */
    constructor (rows: seq<(string, string)>, swaps: seq<nat>)
      requires |swaps| == |rows| && forall k :: 0 <= k < |swaps| ==> swaps[k] <= k
      ensures Settled() && Ready() && current == None
      ensures |cards| == |rows| && multiset(Pairs(cards)) == multiset(rows)
      ensures forall i :: 0 <= i < |cards| ==> IsFresh(cards[i])
      ensures queue == Indices(|cards|) && finalQueue == [] && finalHistory == []
      ensures correctCount == 0 && incorrectOverall == 0
    {
      var built: seq<Card> := [];
      for k := 0 to |rows|
        invariant |built| == k && forall i :: 0 <= i < k ==> built[i] == NewCard(rows[i])
      {
        built := built + [NewCard(rows[k])];
      }
      assert Pairs(built) == rows;
      var k := |built|;
      while k > 1
        invariant k <= |built| == |rows|
        invariant multiset(Pairs(built)) == multiset(rows)
        invariant forall i :: 0 <= i < |built| ==> IsFresh(built[i])
      {
        k := k - 1;
        var j := swaps[k];
        SwapKeepsPairs(built, k, j);
        built := built[k := built[j]][j := built[k]];
      }
      IncorrectTotalOfFresh(built);
      IndicesQueued(built);
      cards := built;
      queue := Indices(|built|);
      finalQueue := [];
      current := None;
      correctCount := 0;
      incorrectOverall := 0;
      ended := false;
      finalHistory := [];
    }

    /** `next_card` (its queue logic): hands out the next card that is not
        completed, refilling the main queue from the final queue once it
        runs dry, and ends the session when both are exhausted. The session
        ends exactly when every card is completed. Since a missed card always
        goes back into the main queue, the main queue runs dry only once
        every card is completed: the final round then hands out nothing. */
    method NextCard() returns (drawn: Option<nat>)
      requires Settled()
      modifies this
      ensures Valid() && MissesFlagged(cards)
      ensures var d := NextDraw(old(cards), old(queue), old(finalQueue), old(current));
              drawn == d.card && queue == d.queue && finalQueue == d.finalQueue && current == d.current
      ensures cards == old(cards) && finalHistory == old(finalHistory)
      ensures correctCount == old(correctCount) && incorrectOverall == old(incorrectOverall)
      ensures Outcome(drawn)
      ensures old(queue) == [] ==> drawn.None?
      decreases |queue| + |finalQueue|
    {
      if |queue| == 0 {
        if |finalQueue| > 0 {
          Refill();
        } else {
          SessionEndsIffAllCompleted(cards, queue, finalQueue, current);
          ended := true;
          drawn := None;
          return;
        }
      }
      var c := Pop();
      if cards[c].completed {
        drawn := NextCard();
        return;
      }
      drawn := Some(c);
    }

    /** The refill of `next_card`: the final queue becomes the main queue,
        which was empty, and the final queue is emptied. */
    method Refill()
      requires Settled() && queue == [] && finalQueue != []
      modifies this
      ensures Settled()
      ensures queue == old(finalQueue) && finalQueue == [] && current == old(current)
      ensures cards == old(cards) && finalHistory == old(finalHistory) && ended == old(ended)
      ensures correctCount == old(correctCount) && incorrectOverall == old(incorrectOverall)
    {
      RefillStep(cards, finalQueue, current, finalHistory, correctCount, incorrectOverall);
      queue, finalQueue := finalQueue, [];
    }

    /** The pop of `next_card`: the head of the main queue becomes the
        current card; when it is completed, every card that is not completed
        still waits in the main queue. */
    method Pop() returns (c: nat)
      requires Settled() && queue != []
      modifies this
      ensures Valid() && MissesFlagged(cards) && !ended
      ensures c == old(queue)[0] && queue == old(queue)[1..] && current == Some(c) && c < |cards|
      ensures cards[c].completed ==> Queued(cards, queue)
      ensures cards == old(cards) && finalQueue == old(finalQueue) && finalHistory == old(finalHistory)
      ensures correctCount == old(correctCount) && incorrectOverall == old(incorrectOverall)
    {
      PopStep(cards, queue, finalQueue, current, finalHistory, correctCount, incorrectOverall);
      c := queue[0];
      queue, current := queue[1..], Some(c);
    }

    /** `schedule_incorrect_card`: puts the card back `offset` places after
        the head of the main queue (3 <= offset <= 6, clamped to the end),
        and appends it to the final queue unless it was appended before. */
    method ScheduleIncorrectCard(card: nat, offset: nat)
      requires Valid() && !ended && current == Some(card) && cards[card].incorrectCount > 0
      requires 3 <= offset <= 6
      modifies this
      ensures Valid() && Queued(cards, queue)
      ensures queue == Requeue(old(queue), card, offset)
      ensures cards == old(cards)[card := Scheduling(old(cards)[card])]
      ensures finalQueue == AppendOnce(old(finalQueue), card, old(cards)[card].finalScheduled)
      ensures finalHistory == AppendOnce(old(finalHistory), card, old(cards)[card].finalScheduled)
      ensures current == old(current) && ended == old(ended)
      ensures correctCount == old(correctCount) && incorrectOverall == old(incorrectOverall)
    {
      RequeueStep(cards, queue, finalQueue, finalHistory, card, offset, correctCount, incorrectOverall);
      var insertIndex := Min(offset, |queue|);
      var q := InsertAt(queue, insertIndex, card);
      var updated, f, h := cards, finalQueue, finalHistory;
      if !cards[card].finalScheduled {
        updated := cards[card := Scheduling(cards[card])];
        f := finalQueue + [card];
        h := finalHistory + [card];
      } else {
        SchedulingFlagged(cards, card);
      }
      cards, queue, finalQueue, finalHistory := updated, q, f, h;
    }

    /** What a draw leaves: the session has ended exactly when no card was
        handed out, which is exactly when every card is completed, and a
        card handed out awaits its answer. */
    ghost predicate Outcome(drawn: Option<nat>)
      reads this
    {
      && (ended <==> drawn.None?)
      && (drawn.None? <==> AllCompleted(cards))
      && (drawn.Some? ==> Ready())
    }

    /** A correct answer on the current card: it becomes completed and is
        credited; nothing else changes. */
    method Credit()
      requires Ready() && current.Some?
      modifies this
      ensures Settled()
      ensures var c := old(current).value;
              cards == old(cards)[c := Completing(old(cards)[c])]
      ensures correctCount == old(correctCount) + 1 && incorrectOverall == old(incorrectOverall)
      ensures queue == old(queue) && finalQueue == old(finalQueue) && current == old(current)
      ensures finalHistory == old(finalHistory)
    {
      var c := current.value;
      CompleteStep(cards, queue, finalQueue, finalHistory, c, correctCount, incorrectOverall);
      cards, correctCount := cards[c := Completing(cards[c])], correctCount + 1;
    }

    /** A miss on the current card: its miss count and the overall tally go
        up by one and `schedule_incorrect_card` requeues it. */
    method Miss(offset: nat)
      requires Ready() && current.Some? && 3 <= offset <= 6
      modifies this
      ensures Settled()
      ensures var c := old(current).value;
              var flagged := old(cards)[c].finalScheduled;
              && cards == old(cards)[c := Scheduling(Missing(old(cards)[c]))]
              && queue == Requeue(old(queue), c, offset)
              && finalQueue == AppendOnce(old(finalQueue), c, flagged)
              && finalHistory == AppendOnce(old(finalHistory), c, flagged)
      ensures correctCount == old(correctCount) && incorrectOverall == old(incorrectOverall) + 1
      ensures current == old(current)
    {
      var c := current.value;
      MissStep(cards, queue, finalQueue, finalHistory, c, correctCount, incorrectOverall);
      cards, incorrectOverall := cards[c := Missing(cards[c])], incorrectOverall + 1;
      ScheduleIncorrectCard(c, offset);
    }

    /** `mark_correct`: a current card that is not completed yet becomes
        completed and is credited once; then the next card is drawn. */
    method MarkCorrect() returns (drawn: Option<nat>)
      requires Ready()
      modifies this
      ensures Valid() && MissesFlagged(cards)
      ensures var c := old(current);
              var credit := c.Some? && !old(cards)[c.value].completed;
              && cards == (if credit then old(cards)[c.value := Completing(old(cards)[c.value])] else old(cards))
              && correctCount == old(correctCount) + (if credit then 1 else 0)
      ensures incorrectOverall == old(incorrectOverall) && finalHistory == old(finalHistory)
      ensures var d := NextDraw(cards, old(queue), old(finalQueue), old(current));
              drawn == d.card && queue == d.queue && finalQueue == d.finalQueue && current == d.current
      ensures Outcome(drawn)
    {
      if current.Some? && !cards[current.value].completed {
        Credit();
      }
      drawn := NextCard();
    }

    /** `mark_incorrect`: a current card is missed once more and requeued;
        then the next card is drawn. */
    method MarkIncorrect(offset: nat) returns (drawn: Option<nat>)
      requires Ready() && 3 <= offset <= 6
      modifies this
      ensures Valid() && MissesFlagged(cards)
      ensures correctCount == old(correctCount)
      ensures old(current).None? ==>
                && cards == old(cards) && incorrectOverall == old(incorrectOverall)
                && finalHistory == old(finalHistory)
                && var d := NextDraw(cards, old(queue), old(finalQueue), old(current));
                   drawn == d.card && queue == d.queue && finalQueue == d.finalQueue && current == d.current
      ensures old(current).Some? ==>
                var c := old(current).value;
                var flagged := old(cards)[c].finalScheduled;
                && cards == old(cards)[c := Scheduling(Missing(old(cards)[c]))]
                && incorrectOverall == old(incorrectOverall) + 1
                && finalHistory == AppendOnce(old(finalHistory), c, flagged)
                && var d := DrawAfterMiss(cards, old(queue), old(finalQueue), c, offset, flagged);
                   drawn == d.card && queue == d.queue && finalQueue == d.finalQueue && current == d.current
      ensures Outcome(drawn)
    {
      if current.Some? {
        Miss(offset);
      }
      drawn := NextCard();
    }

    /** `check_dictee_answer` (its grading): with no current card nothing
        happens; otherwise the typed answer, stripped, is graded against the
        current card's target; an accepted answer completes and credits the
        card (without the guard of `mark_correct`), a refused one is a miss
        that requeues it; then the next card is drawn. */
    method CheckDicteeAnswer(typed: string, threshold: int, offset: nat) returns (verdict: Option<bool>, drawn: Option<nat>)
      requires Ready() && 3 <= offset <= 6
      modifies this
      ensures Valid() && MissesFlagged(cards)
      ensures old(current).None? ==>
                && verdict.None? && drawn.None? && !ended
                && cards == old(cards) && queue == old(queue) && finalQueue == old(finalQueue)
                && current == old(current) && finalHistory == old(finalHistory)
                && correctCount == old(correctCount) && incorrectOverall == old(incorrectOverall)
      ensures old(current).Some? ==>
                verdict == Some(Grading.Accepts(typed, old(cards)[old(current).value].target, threshold))
      ensures verdict == Some(true) ==>
                var c := old(current).value;
                && cards == old(cards)[c := Completing(old(cards)[c])]
                && correctCount == old(correctCount) + 1 && incorrectOverall == old(incorrectOverall)
                && finalHistory == old(finalHistory)
                && var d := NextDraw(cards, old(queue), old(finalQueue), old(current));
                   drawn == d.card && queue == d.queue && finalQueue == d.finalQueue && current == d.current
      ensures verdict == Some(false) ==>
                var c := old(current).value;
                var flagged := old(cards)[c].finalScheduled;
                && cards == old(cards)[c := Scheduling(Missing(old(cards)[c]))]
                && correctCount == old(correctCount) && incorrectOverall == old(incorrectOverall) + 1
                && finalHistory == AppendOnce(old(finalHistory), c, flagged)
                && var d := DrawAfterMiss(cards, old(queue), old(finalQueue), c, offset, flagged);
                   drawn == d.card && queue == d.queue && finalQueue == d.finalQueue && current == d.current
      ensures verdict.Some? ==> Outcome(drawn)
    {
      if current.None? {
        verdict, drawn := None, None;
        return;
      }
      var c := current.value;
      var ok := Grading.Accepts(typed, cards[c].target, threshold);
      if ok {
        Credit();
      } else {
        Miss(offset);
      }
      verdict := Some(ok);
      drawn := NextCard();
    }
  }
}
