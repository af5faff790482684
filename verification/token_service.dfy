/** The range-based id allocator. It keeps a reservation [currentId, rangeEnd)
    in memory and refills it, 100 ids at a time, from an add-and-get counter
    store. Calls are modelled one after another: the Java `synchronized`
    only makes them so.

    The store is modelled by the answers it gives to successive refills: a
    script of replies, each a new total or a failure (an exception). When
    the script has run out, the store is taken to fail. */
module TokenService {
  import opened Outcomes
  import TokenCounter

  /** How many ids one refill reserves. */
  const RangeSize: int := 100

  /** The counter key every refill increments. */
  const TokenId: string := "global_counter"

  /** What incrementAndGet answers to one refill. */
  datatype Reply = Total(total: int) | Failure

  /** The two fields of the allocator. */
  datatype Allocator = Allocator(currentId: int, rangeEnd: int)

  /** A freshly constructed allocator owns no ids. */
  const Fresh: Allocator := Allocator(0, 0)

  /** The reservation is used up and the next call must refill. */
  predicate Exhausted(a: Allocator)
  {
    a.currentId >= a.rangeEnd
  }

  /** The state invariant: the next id lies in the last reserved window or
      just past it. */
  predicate Valid(a: Allocator)
  {
    a.rangeEnd - RangeSize <= a.currentId <= a.rangeEnd
  }

  /** The store call of one refill: incrementAndGet(TokenId, RangeSize). */
  const Refill: TokenCounter.Request := TokenCounter.Request(TokenId, RangeSize)

  /** The outcome of one getNextId: the issued id (None when the store call
      threw), the new state, the replies not yet consumed, and the request
      sent to the store, if any. */
  datatype Step = Step(issued: Option<int>, state: Allocator, rest: seq<Reply>, sent: Option<TokenCounter.Request>)
  {
    /** Whether the store was asked. */
    const asked: bool := sent.Some?
  }

  /** allocateNewRange: send one request to the store and take the window
      [total - amount, total) it answers with. On failure nothing changes. */
  function AllocateNewRange(a: Allocator, replies: seq<Reply>): (r: (Option<Allocator>, seq<Reply>, TokenCounter.Request))
    ensures r.2.tokenId == TokenId && r.2.incrementBy == RangeSize
    ensures r.1 == if |replies| == 0 then replies else replies[1..]
    ensures r.0.Some? <==> |replies| > 0 && replies[0].Total?
    ensures r.0.Some? ==> r.0.value.rangeEnd == replies[0].total
    ensures r.0.Some? ==> r.0.value.rangeEnd - r.0.value.currentId == r.2.incrementBy
  {
    if |replies| == 0 then (None, replies, Refill)
    else match replies[0]
      case Failure => (None, replies[1..], Refill)
      case Total(newRangeEnd) =>
        (Some(Allocator(newRangeEnd - Refill.incrementBy, newRangeEnd)), replies[1..], Refill)
  }

  /** Answered by the in-memory counter, a refill takes exactly the window
      the counter hands out for its request: from the old total to the new. */
  lemma RefillFromCounter(a: Allocator, c: TokenCounter.Counter)
    ensures var request := AllocateNewRange(a, []).2;
      var (c', total) := TokenCounter.IncrementAndGet(c, request.tokenId, request.incrementBy);
      AllocateNewRange(a, [Total(total)]).0 == Some(Allocator(c.total, c'.total))
  {
  }

  /** getNextId: refill when exhausted, then return currentId and advance it. */
  function GetNextId(a: Allocator, replies: seq<Reply>): (r: Step)
    // the store is asked exactly when the reservation is exhausted, and for one range on TokenId
    ensures r.asked <==> Exhausted(a)
    ensures r.asked ==> r.sent == Some(TokenCounter.Request(TokenId, RangeSize))
    ensures !r.asked ==> r.rest == replies
    // a failed refill leaves both fields unchanged, so the next call retries
    ensures r.issued.None? <==> Exhausted(a) && (|replies| == 0 || replies[0].Failure?)
    ensures r.issued.None? ==> r.state == a
    // a successful call returns the old cursor (after any refill) and moves it by one
    ensures r.issued.Some? ==> r.state.currentId == r.issued.value + 1
    ensures r.issued.Some? && !r.asked ==> r.issued.value == a.currentId && r.state.rangeEnd == a.rangeEnd
    ensures r.issued.Some? && r.asked ==>
      r.state.rangeEnd == replies[0].total && r.issued.value == replies[0].total - RangeSize
    // the returned id lies in the current window and the invariant is kept
    ensures Valid(a) ==> Valid(r.state)
    ensures Valid(a) && r.issued.Some? ==>
      r.state.rangeEnd - RangeSize <= r.issued.value < r.state.rangeEnd
  {
    if Exhausted(a) then
      var (refilled, rest, request) := AllocateNewRange(a, replies);
      match refilled
      case None => Step(None, a, rest, Some(request))
      case Some(b) => Step(Some(b.currentId), b.(currentId := b.currentId + 1), rest, Some(request))
    else
      Step(Some(a.currentId), a.(currentId := a.currentId + 1), replies, None)
  }

  /** The ids issued, the final state, the replies left and the requests
      sent to the store by a number of successive getNextId calls. */
  datatype Trace = Trace(ids: seq<int>, state: Allocator, rest: seq<Reply>, requests: seq<TokenCounter.Request>)
  {
    /** How many times the store was called. */
    const storeCalls: nat := |requests|
  }

  function Run(a: Allocator, replies: seq<Reply>, calls: nat): (t: Trace)
    decreases calls
  {
    if calls == 0 then Trace([], a, replies, [])
    else
      var s := GetNextId(a, replies);
      var t := Run(s.state, s.rest, calls - 1);
      Trace((if s.issued.Some? then [s.issued.value] else []) + t.ids,
            t.state, t.rest, (if s.asked then [s.sent.value] else []) + t.requests)
  }

  /** The counter-store contract as the allocator needs it: every total the
      store returns is at least a full range above the given bound and above
      every total it returned before. A store shared by many allocators
      satisfies it for each of them, since the others only add more. */
  predicate Spaced(bound: int, replies: seq<Reply>)
  {
    forall i | 0 <= i < |replies| && replies[i].Total? ::
      && replies[i].total - RangeSize >= bound
      && forall j | 0 <= j < i && replies[j].Total? :: replies[i].total - RangeSize >= replies[j].total
  }

  lemma SpacedTail(bound: int, replies: seq<Reply>)
    requires |replies| > 0 && Spaced(bound, replies)
    ensures Spaced(bound, replies[1..])
    ensures replies[0].Total? ==> Spaced(replies[0].total, replies[1..])
  {
    var tail := replies[1..];
    forall i | 0 <= i < |tail| && tail[i].Total?
      ensures tail[i].total - RangeSize >= bound
      ensures replies[0].Total? ==> tail[i].total - RangeSize >= replies[0].total
      ensures forall j | 0 <= j < i && tail[j].Total? :: tail[i].total - RangeSize >= tail[j].total
    {
      assert tail[i] == replies[i + 1];
      forall j | 0 <= j < i && tail[j].Total?
        ensures tail[i].total - RangeSize >= tail[j].total
      {
        assert tail[j] == replies[j + 1];
      }
    }
  }

  /** Under the store contract the issued ids strictly increase, so they are
      pairwise distinct; each lies between the starting cursor and the final
      one, and the invariant and the contract still hold afterwards. */
  lemma {:induction false} IdsIncrease(a: Allocator, replies: seq<Reply>, calls: nat)
    requires Valid(a) && Spaced(a.rangeEnd, replies)
    ensures var t := Run(a, replies, calls);
      && (forall i, j | 0 <= i < j < |t.ids| :: t.ids[i] < t.ids[j])
      && (forall i | 0 <= i < |t.ids| :: a.currentId <= t.ids[i] < t.state.currentId)
      && a.currentId <= t.state.currentId
      && Valid(t.state) && Spaced(t.state.rangeEnd, t.rest)
    decreases calls
  {
    if calls > 0 {
      var s := GetNextId(a, replies);
      assert Spaced(s.state.rangeEnd, s.rest) by {
        if s.asked && |replies| > 0 {
          SpacedTail(a.rangeEnd, replies);
        }
      }
      assert a.currentId <= s.state.currentId by {
        if s.issued.Some? && s.asked {
          assert replies[0].total - RangeSize >= a.rangeEnd;
        }
      }
      assert s.issued.Some? ==> a.currentId <= s.issued.value by {
        if s.issued.Some? && s.asked {
          assert replies[0].total - RangeSize >= a.rangeEnd;
        }
      }
      IdsIncrease(s.state, s.rest, calls - 1);
    }
  }

  /** Two calls in a row, both successful, issue increasing ids, neither
      below the starting cursor. */
  lemma NextTwoIncrease(a: Allocator, replies: seq<Reply>)
    requires Valid(a) && Spaced(a.rangeEnd, replies)
    ensures var s1 := GetNextId(a, replies);
      var s2 := GetNextId(s1.state, s1.rest);
      s1.issued.Some? && s2.issued.Some? ==> a.currentId <= s1.issued.value < s2.issued.value
  {
    var s1 := GetNextId(a, replies);
    var s2 := GetNextId(s1.state, s1.rest);
    IdsIncrease(a, replies, 2);
    assert Run(s1.state, s1.rest, 1).ids == if s2.issued.Some? then [s2.issued.value] else [];
  }

  /** No id is ever issued twice by one allocator under the store contract. */
  lemma IdsDistinct(a: Allocator, replies: seq<Reply>, calls: nat)
    requires Valid(a) && Spaced(a.rangeEnd, replies)
    ensures forall i, j | 0 <= i < |Run(a, replies, calls).ids| && 0 <= j < |Run(a, replies, calls).ids| && i != j ::
      Run(a, replies, calls).ids[i] != Run(a, replies, calls).ids[j]
  {
    IdsIncrease(a, replies, calls);
  }

  /** The first call on a fresh allocator always goes to the store. */
  lemma FreshRefills(replies: seq<Reply>)
    ensures Valid(Fresh)
    ensures GetNextId(Fresh, replies).asked
  {
  }

  /** If the first refill returns 1000000, the first id is 999900. */
  lemma LargeFirstTotal(rest: seq<Reply>)
    ensures GetNextId(Fresh, [Total(1000000)] + rest).issued == Some(999900)
  {
  }

  /** A failed refill changes nothing; the next call asks the store again and
      issues the first id of the range it then gets. */
  lemma FailureThenRetry(total: int)
    ensures GetNextId(Fresh, [Failure, Total(total)]).issued.None?
    ensures GetNextId(Fresh, [Failure, Total(total)]).state == Fresh
    ensures var s := GetNextId(Fresh, [Failure, Total(total)]);
      GetNextId(s.state, s.rest).asked && GetNextId(s.state, s.rest).issued == Some(total - RangeSize)
  {
    assert [Failure, Total(total)][1..] == [Total(total)];
  }

  /** The totals a single-process store answers with: one range after
      another, the first ending a range above `end`. */
  function Consecutive(end: int, k: nat): (r: seq<Reply>)
    ensures |r| == k
  {
    seq(k, i => Total(end + RangeSize * (i + 1)))
  }

  /** How many refills a run of calls needs when the cursor starts at c in a
      range ending at `end`: one per RangeSize ids past the end, rounded up.
      The range size is written as the literal 100 so that the division stays
      linear for the solver; RefillsNeededFacts ties it to RangeSize. */
  function RefillsNeeded(end: int, c: int, calls: nat): int
  {
    (c + calls - end + 99) / 100
  }

  lemma RefillsNeededFacts(end: int, c: int, calls: nat)
    requires end - RangeSize < c <= end
    ensures calls == 0 ==> RefillsNeeded(end, c, calls) == 0
    ensures c < end && calls > 0 ==> RefillsNeeded(end, c, calls) == RefillsNeeded(end, c + 1, calls - 1)
    ensures c == end && calls > 0 ==>
      RefillsNeeded(end, c, calls) == 1 + RefillsNeeded(end + RangeSize, c + 1, calls - 1)
  {
    assert RangeSize == 100;
  }

  /** One call against consecutive totals: inside the range it just moves
      the cursor; at the end of the range it takes the next total. */
  lemma ConsecutiveStep(end: int, c: int, k: nat)
    requires end - RangeSize < c <= end
    requires c == end ==> k >= 1
    ensures var s := GetNextId(Allocator(c, end), Consecutive(end, k));
      && s.issued == Some(c)
      && (c < end ==> !s.asked && s.state == Allocator(c + 1, end) && s.rest == Consecutive(end, k))
      && (c == end ==>
            s.asked && s.state == Allocator(c + 1, end + RangeSize) && s.rest == Consecutive(end + RangeSize, k - 1))
  {
    if c == end {
      assert RangeSize == 100;
      assert Consecutive(end, k)[0] == Total(end + RangeSize);
      assert Consecutive(end, k)[1..] == Consecutive(end + RangeSize, k - 1);
    }
  }

  /** Against consecutive totals, calls hand out consecutive ids, the store
      is called once per RangeSize ids (rounded up), and what is left of the
      totals still follows on from the final range. */
  lemma ConsecutiveRun(end: int, c: int, calls: nat, k: nat)
    requires end - RangeSize < c <= end
    requires k >= RefillsNeeded(end, c, calls)
    ensures var t := Run(Allocator(c, end), Consecutive(end, k), calls);
      && t.storeCalls == RefillsNeeded(end, c, calls)
      && t.ids == seq(calls, i => c + i)
      && t.state.currentId == c + calls
      && t.state.rangeEnd - RangeSize < t.state.currentId <= t.state.rangeEnd
      && t.state.rangeEnd == end + RangeSize * t.storeCalls
      && t.rest == Consecutive(t.state.rangeEnd, k - t.storeCalls)
  {
    ConsecutiveCalls(end, c, calls, k);
    ConsecutiveIds(end, c, calls, k);
  }

  lemma {:induction false} ConsecutiveCalls(end: int, c: int, calls: nat, k: nat)
    requires end - RangeSize < c <= end
    requires k >= RefillsNeeded(end, c, calls)
    ensures var t := Run(Allocator(c, end), Consecutive(end, k), calls);
      && t.storeCalls == RefillsNeeded(end, c, calls)
      && t.state.currentId == c + calls
      && t.state.rangeEnd - RangeSize < t.state.currentId <= t.state.rangeEnd
      && t.state.rangeEnd == end + RangeSize * t.storeCalls
      && t.rest == Consecutive(t.state.rangeEnd, k - t.storeCalls)
    decreases calls
  {
    RefillsNeededFacts(end, c, calls);
    if calls > 0 {
      ConsecutiveStep(end, c, k);
      var s := GetNextId(Allocator(c, end), Consecutive(end, k));
      ConsecutiveCalls(s.state.rangeEnd, c + 1, calls - 1, if c == end then k - 1 else k);
    }
  }

  lemma {:induction false} ConsecutiveIds(end: int, c: int, calls: nat, k: nat)
    requires end - RangeSize < c <= end
    requires k >= RefillsNeeded(end, c, calls)
    ensures Run(Allocator(c, end), Consecutive(end, k), calls).ids == seq(calls, i => c + i)
    decreases calls
  {
    if calls > 0 {
      RefillsNeededFacts(end, c, calls);
      ConsecutiveStep(end, c, k);
      var s := GetNextId(Allocator(c, end), Consecutive(end, k));
      var k' := if c == end then k - 1 else k;
      assert s.state == Allocator(c + 1, s.state.rangeEnd) && s.rest == Consecutive(s.state.rangeEnd, k');
      ConsecutiveIds(s.state.rangeEnd, c + 1, calls - 1, k');
      assert Run(Allocator(c, end), Consecutive(end, k), calls).ids == [c] + Run(s.state, s.rest, calls - 1).ids;
      CountFrom(c, calls - 1);
    }
  }

  /** c followed by the n numbers after it is the n + 1 numbers from c. */
  lemma CountFrom(c: int, n: nat)
    ensures [c] + seq(n, i => c + 1 + i) == seq(n + 1, i => c + i)
  {
    var joined, counted := [c] + seq(n, i => c + 1 + i), seq(n + 1, i => c + i);
    assert forall i | 0 <= i < n + 1 :: joined[i] == counted[i];
  }

  /** Starting exhausted at any range end (a fresh allocator is the case
      end = 0), with the store answering one range after another: the first
      three calls return three consecutive ids and share one store call. */
  lemma FirstIdsAreSequential(end: int)
    ensures Run(Allocator(end, end), Consecutive(end, 1), 3).ids == [end, end + 1, end + 2]
    ensures Run(Allocator(end, end), Consecutive(end, 1), 3).storeCalls == 1
  {
    ConsecutiveRun(end, end, 3, 1);
    assert seq(3, i => end + i) == [end, end + 1, end + 2];
  }

  /** The 100th call still uses the first range; the 101st makes the second
      store call and returns the first id of the next range. */
  lemma RangeBoundary(end: int)
    ensures Run(Allocator(end, end), Consecutive(end, 2), 100).storeCalls == 1
    ensures var t := Run(Allocator(end, end), Consecutive(end, 2), 101);
      t.storeCalls == 2 && |t.ids| == 101 && t.ids[99] == end + 99 && t.ids[100] == end + 100
  {
    ConsecutiveRun(end, end, 100, 2);
    ConsecutiveRun(end, end, 101, 2);
  }

  /** 250 calls make exactly three store calls and use up the replies; the
      last returns the 250th id. */
  lemma TwoHundredFiftyCalls(end: int)
    ensures var t := Run(Allocator(end, end), Consecutive(end, 3), 250);
      t.storeCalls == 3 && |t.ids| == 250 && t.ids[249] == end + 249 && t.rest == []
  {
    ConsecutiveRun(end, end, 250, 3);
  }

  /** Every store call of a run is a refill: one range on TokenId. */
  lemma {:induction false} RunSendsRefills(a: Allocator, replies: seq<Reply>, calls: nat)
    ensures forall i | 0 <= i < |Run(a, replies, calls).requests| :: Run(a, replies, calls).requests[i] == Refill
    decreases calls
  {
    if calls > 0 {
      var s := GetNextId(a, replies);
      RunSendsRefills(s.state, s.rest, calls - 1);
    }
  }

  /** The in-memory counter, from its initial value, answers any sequence of
      refill-sized requests with the consecutive totals, and those satisfy
      the store contract for a fresh allocator. */
  lemma InMemoryCounterIsConsecutive(requests: seq<TokenCounter.Request>)
    requires forall i | 0 <= i < |requests| :: requests[i].incrementBy == RangeSize
    ensures var totals := TokenCounter.Serve(TokenCounter.Initial, requests).1;
      seq(|requests|, i requires 0 <= i < |requests| => Total(totals[i])) == Consecutive(0, |requests|)
    ensures Spaced(Fresh.rangeEnd, Consecutive(0, |requests|))
  {
    TokenCounter.WindowsAreAdjacent(TokenCounter.Initial, requests);
    var totals := TokenCounter.Serve(TokenCounter.Initial, requests).1;
    forall i | 0 <= i < |requests|
      ensures totals[i] == RangeSize * (i + 1)
    {
      AddedRepeated(i + 1, requests[..i + 1]);
    }
  }

  /** Consecutive totals split at any point into two consecutive runs. */
  lemma ConsecutiveSplit(end: int, n: nat, m: nat)
    ensures Consecutive(end, n + m) == Consecutive(end, n) + Consecutive(end + RangeSize * n, m)
  {
    assert RangeSize == 100;
    var whole, front, back := Consecutive(end, n + m), Consecutive(end, n), Consecutive(end + RangeSize * n, m);
    forall i | 0 <= i < n + m
      ensures whole[i] == (front + back)[i]
    {
      if i >= n {
        assert (front + back)[i] == back[i - n];
      }
    }
  }

  /** A fresh allocator backed by the in-memory counter: the replies a run
      consumes are exactly what the counter answers to the requests the run
      sent, the rest is left for later, and the run hands out 0, 1, 2, ... */
  lemma RunAgainstInMemoryCounter(calls: nat, k: nat)
    requires k >= RefillsNeeded(0, 0, calls)
    ensures var t := Run(Fresh, Consecutive(0, k), calls);
      var totals := TokenCounter.Serve(TokenCounter.Initial, t.requests).1;
      && seq(|t.requests|, i requires 0 <= i < |t.requests| => Total(totals[i])) == Consecutive(0, t.storeCalls)
      && Consecutive(0, k) == Consecutive(0, t.storeCalls) + t.rest
      && t.ids == seq(calls, i => i)
  {
    var t := Run(Fresh, Consecutive(0, k), calls);
    FreshIds(calls, k);
    FreshReplies(calls, k);
    RunSendsRefills(Fresh, Consecutive(0, k), calls);
    InMemoryCounterIsConsecutive(t.requests);
  }

  /** From a fresh allocator the ids count up from 0. */
  lemma FreshIds(calls: nat, k: nat)
    requires k >= RefillsNeeded(0, 0, calls)
    ensures Run(Fresh, Consecutive(0, k), calls).ids == seq(calls, i => i)
  {
    ConsecutiveIds(0, 0, calls, k);
    assert seq(calls, i => 0 + i) == seq(calls, i => i);
  }

  /** From a fresh allocator the replies split into the consumed ones and
      the rest. */
  lemma FreshReplies(calls: nat, k: nat)
    requires k >= RefillsNeeded(0, 0, calls)
    ensures var t := Run(Fresh, Consecutive(0, k), calls);
      Consecutive(0, k) == Consecutive(0, t.storeCalls) + t.rest
  {
    var t := Run(Fresh, Consecutive(0, k), calls);
    ConsecutiveCalls(0, 0, calls, k);
    var n, m := t.storeCalls, k - t.storeCalls;
    assert t.rest == Consecutive(RangeSize * n, m);
    ConsecutiveSplit(0, n, m);
  }

  lemma {:induction false} AddedRepeated(n: nat, requests: seq<TokenCounter.Request>)
    requires |requests| == n
    requires forall i | 0 <= i < n :: requests[i].incrementBy == RangeSize
    ensures TokenCounter.Added(requests) == RangeSize * n
  {
    if n > 0 {
      AddedRepeated(n - 1, requests[1..]);
    }
  }
}
