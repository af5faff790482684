/** The in-memory token counter: one shared add-and-get counter that hands
    out new totals. It is the reference implementation of the counter-store
    contract that the id allocator relies on. */
module TokenCounter {

  /** The AtomicLong behind the repository; every key shares it. */
  datatype Counter = Counter(total: int)

  /** The counter starts at 0. */
  const Initial: Counter := Counter(0)

  /** One request to the store: a counter key and an amount to add. */
  datatype Request = Request(tokenId: string, incrementBy: int)

  /** incrementAndGet: add the amount and return the new total. The key is
      ignored. The caller owns the window [total - incrementBy, total). */
  function IncrementAndGet(c: Counter, tokenId: string, incrementBy: int): (r: (Counter, int))
    ensures r.1 - incrementBy == c.total
    ensures r.0.total == r.1
  {
    var total := c.total + incrementBy;
    (Counter(total), total)
  }

  /** Serve a sequence of requests in order, collecting the returned totals. */
  function Serve(c: Counter, requests: seq<Request>): (r: (Counter, seq<int>))
    ensures |r.1| == |requests|
    decreases |requests|
  {
    if |requests| == 0 then (c, [])
    else
      var (c', total) := IncrementAndGet(c, requests[0].tokenId, requests[0].incrementBy);
      var (last, totals) := Serve(c', requests[1..]);
      (last, [total] + totals)
  }

  /** The sum of the amounts of a sequence of requests. */
  function Added(requests: seq<Request>): int
    decreases |requests|
  {
    if |requests| == 0 then 0 else requests[0].incrementBy + Added(requests[1..])
  }

  lemma {:induction false} AddedPrefix(requests: seq<Request>, i: nat)
    requires i < |requests|
    ensures Added(requests[..i + 1]) == Added(requests[..i]) + requests[i].incrementBy
    decreases i
  {
    if i > 0 {
      assert requests[..i + 1][1..] == requests[1..][..i];
      assert requests[..i][1..] == requests[1..][..i - 1];
      AddedPrefix(requests[1..], i - 1);
    }
  }

  /** The windows handed out by successive requests are adjacent: the i-th
      window starts where the previous one ended (at the starting total for
      the first), and the i-th total is the start plus everything added so far. */
  lemma {:induction false} WindowsAreAdjacent(c: Counter, requests: seq<Request>)
    ensures Serve(c, requests).0.total == c.total + Added(requests)
    ensures forall i | 0 <= i < |requests| ::
      Serve(c, requests).1[i] == c.total + Added(requests[..i + 1])
    ensures |requests| > 0 ==> Serve(c, requests).1[0] - requests[0].incrementBy == c.total
    ensures forall i | 0 < i < |requests| ::
      Serve(c, requests).1[i] - requests[i].incrementBy == Serve(c, requests).1[i - 1]
    decreases |requests|
  {
    if |requests| > 0 {
      var c' := IncrementAndGet(c, requests[0].tokenId, requests[0].incrementBy).0;
      WindowsAreAdjacent(c', requests[1..]);
      var totals := Serve(c, requests).1;
      assert totals == [c'.total] + Serve(c', requests[1..]).1;
      forall i | 0 <= i < |requests|
        ensures totals[i] == c.total + Added(requests[..i + 1])
      {
        if i > 0 {
          assert requests[..i + 1][1..] == requests[1..][..i];
        }
      }
      forall i | 0 < i < |requests|
        ensures totals[i] - requests[i].incrementBy == totals[i - 1]
      {
        AddedPrefix(requests, i);
      }
    }
  }

  /** With positive amounts the returned totals strictly increase, so no two
      requests ever own overlapping windows; the first window starts at 0. */
  lemma TotalsIncrease(requests: seq<Request>)
    requires forall i | 0 <= i < |requests| :: requests[i].incrementBy > 0
    ensures forall i, j | 0 <= i < j < |requests| ::
      Serve(Initial, requests).1[i] <= Serve(Initial, requests).1[j] - requests[j].incrementBy
    ensures |requests| > 0 ==> Serve(Initial, requests).1[0] == requests[0].incrementBy
  {
    WindowsAreAdjacent(Initial, requests);
    var totals := Serve(Initial, requests).1;
    forall i, j | 0 <= i < j < |requests|
      ensures totals[i] <= totals[j] - requests[j].incrementBy
    {
      StepUp(totals, requests, i, j);
    }
  }

  lemma {:induction false} StepUp(totals: seq<int>, requests: seq<Request>, i: nat, j: nat)
    requires |totals| == |requests|
    requires forall k | 0 <= k < |requests| :: requests[k].incrementBy > 0
    requires forall k | 0 < k < |requests| :: totals[k] - requests[k].incrementBy == totals[k - 1]
    requires i < j < |requests|
    ensures totals[i] <= totals[j] - requests[j].incrementBy
    decreases j - i
  {
    if i + 1 < j {
      StepUp(totals, requests, i, j - 1);
    }
  }

  /** The key is ignored: serving the same amounts under any other keys yields
      the same totals. */
  lemma {:induction false} KeyIgnored(c: Counter, requests: seq<Request>, others: seq<Request>)
    requires |others| == |requests|
    requires forall i | 0 <= i < |requests| :: others[i].incrementBy == requests[i].incrementBy
    ensures Serve(c, others) == Serve(c, requests)
    decreases |requests|
  {
    if |requests| > 0 {
      KeyIgnored(IncrementAndGet(c, requests[0].tokenId, requests[0].incrementBy).0,
                 requests[1..], others[1..]);
    }
  }
}
