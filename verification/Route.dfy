/** Route-miss batching: the pending queue, the cooldown map and the drain that empties the
one under the other. Instants are nanoseconds of a monotonic clock. */
module Route {
  import opened Bytes

  const MAX_PENDING := 4096
  const COOLDOWN := 5_000_000_000

  type Ip = U32

  ghost function Elements(s: seq<Ip>): (r: set<Ip>)
  {
    set x | x in s
  }

  function Unexpired(cooldowns: map<Ip, nat>, now: nat): (live: map<Ip, nat>)
  {
    map ip | ip in cooldowns && cooldowns[ip] > now :: cooldowns[ip]
  }

  /** The entry at `i` is the first of its address and its address is not cooling down. */
  predicate IsFirst(pending: seq<Ip>, cooling: set<Ip>, i: nat)
    requires i < |pending|
  {
    pending[i] !in cooling && pending[i] !in pending[..i]
  }

  /** Of the first `n` pending addresses, the first occurrences that are not cooling down. */
  function Batch(pending: seq<Ip>, cooling: set<Ip>, n: nat): (b: seq<Ip>)
    requires n <= |pending|
  {
    if n == 0 then []
    else Batch(pending, cooling, n - 1) +
         if IsFirst(pending, cooling, n - 1) then [pending[n - 1]] else []
  }

  /** Of the first `n` pending addresses, those passed over: cooling down, or pending before. */
  function Skipped(pending: seq<Ip>, cooling: set<Ip>, n: nat): (b: seq<Ip>)
    requires n <= |pending|
  {
    if n == 0 then []
    else Skipped(pending, cooling, n - 1) +
         if IsFirst(pending, cooling, n - 1) then [] else [pending[n - 1]]
  }

  ghost function Count(s: seq<Ip>, ip: Ip): (n: nat)
  {
    multiset(s)[ip]
  }

  lemma CountAppend(s: seq<Ip>, x: Ip, ip: Ip)
    ensures Count(s + [x], ip) == Count(s, ip) + if x == ip then 1 else 0
  {
  }

  lemma {:induction false} BatchAndSkippedOf(pending: seq<Ip>, cooling: set<Ip>, n: nat, ip: Ip)
    requires n <= |pending|
    ensures Count(Batch(pending, cooling, n), ip) + Count(Skipped(pending, cooling, n), ip) == Count(pending[..n], ip)
  {
    hide Count, IsFirst;
    if n == 0 {
      assert pending[..0] == [];
      assert Count([], ip) == 0 by { CountEmpty(ip); }
    } else {
      BatchAndSkippedOf(pending, cooling, n - 1, ip);
      var x := pending[n - 1];
      assert pending[..n] == pending[..n - 1] + [x];
      CountAppend(pending[..n - 1], x, ip);
      if IsFirst(pending, cooling, n - 1) {
        CountAppend(Batch(pending, cooling, n - 1), x, ip);
        assert Skipped(pending, cooling, n) == Skipped(pending, cooling, n - 1);
      } else {
        CountAppend(Skipped(pending, cooling, n - 1), x, ip);
        assert Batch(pending, cooling, n) == Batch(pending, cooling, n - 1);
      }
    }
  }

  lemma CountEmpty(ip: Ip)
    ensures Count([], ip) == 0
  {
  }

  /** Every pending miss is either in the batch or passed over. */
  lemma BatchAndSkipped(pending: seq<Ip>, cooling: set<Ip>)
    ensures multiset(Batch(pending, cooling, |pending|)) + multiset(Skipped(pending, cooling, |pending|)) == multiset(pending)
  {
    hide Batch, Skipped;
    assert pending[..|pending|] == pending;
    forall ip: Ip
      ensures multiset(Batch(pending, cooling, |pending|))[ip] + multiset(Skipped(pending, cooling, |pending|))[ip] ==
              multiset(pending)[ip]
    {
      BatchAndSkippedOf(pending, cooling, |pending|, ip);
      assert Count(pending, ip) == multiset(pending)[ip];
    }
  }

  /** The cooldowns once the first `n` pending addresses are handled. */
  ghost function Cooldowns(live: map<Ip, nat>, pending: seq<Ip>, n: nat, now: nat): (r: map<Ip, nat>)
    requires n <= |pending|
  {
    map ip | ip in live.Keys + Elements(pending[..n]) :: if ip in live then live[ip] else now + COOLDOWN
  }

  /** The batch has no address twice, and its addresses are the pending ones not cooling down. */
  lemma {:induction false} BatchIsDeduplicated(pending: seq<Ip>, cooling: set<Ip>, n: nat)
    requires n <= |pending|
    ensures var b := Batch(pending, cooling, n);
            forall i, j :: 0 <= i < j < |b| ==> b[i] != b[j]
    ensures Elements(Batch(pending, cooling, n)) == Elements(pending[..n]) - cooling
  {
    if n > 0 {
      BatchIsDeduplicated(pending, cooling, n - 1);
      var b, x := Batch(pending, cooling, n - 1), pending[n - 1];
      assert pending[..n] == pending[..n - 1] + [x];
      assert Elements(pending[..n]) == Elements(pending[..n - 1]) + {x};
      assert Elements(b + [x]) == Elements(b) + {x};
      if IsFirst(pending, cooling, n - 1) {
        assert Batch(pending, cooling, n) == b + [x];
      } else {
        assert Batch(pending, cooling, n) == b;
      }
      assert forall i :: 0 <= i < |b| ==> b[i] in Elements(b);
    }
  }

  /** Two addresses of the batch stand in the order of their first misses. */
  lemma {:induction false} BatchKeepsOrder(pending: seq<Ip>, cooling: set<Ip>, n: nat, i: nat, j: nat) returns (p: nat, q: nat)
    requires n <= |pending| && i < j < |Batch(pending, cooling, n)|
    ensures p < q < n && pending[p] == Batch(pending, cooling, n)[i] && pending[q] == Batch(pending, cooling, n)[j]
    ensures pending[p] !in pending[..p] && pending[q] !in pending[..q]
  {
    var b := Batch(pending, cooling, n - 1);
    if j < |b| {
      p, q := BatchKeepsOrder(pending, cooling, n - 1, i, j);
    } else {
      p := BatchPosition(pending, cooling, n - 1, i);
      q := n - 1;
    }
  }

  lemma {:induction false} BatchPosition(pending: seq<Ip>, cooling: set<Ip>, n: nat, i: nat) returns (p: nat)
    requires n <= |pending| && i < |Batch(pending, cooling, n)|
    ensures p < n && IsFirst(pending, cooling, p) && pending[p] == Batch(pending, cooling, n)[i]
  {
    if i < |Batch(pending, cooling, n - 1)| {
      p := BatchPosition(pending, cooling, n - 1, i);
    } else {
      p := n - 1;
    }
  }

  class RouteManager {
    var pending: seq<Ip>
    var cooldowns: map<Ip, nat>

    constructor ()
      ensures pending == [] && cooldowns == map[]
    {
      pending, cooldowns := [], map[];
    }

    /** The first half of `submit_miss`, under the read lock. */
    method HasRoom() returns (room: bool)
      ensures room <==> |pending| < 4096
    {
      var pendingLen := |pending|;
      room := !(pendingLen >= MAX_PENDING);
    }

    /** The second half, under the write lock. */
    method Push(ip: Ip)
      modifies this`pending
      ensures pending == old(pending) + [ip]
    {
      pending := pending + [ip];
    }

    /** Both halves without interference: the queue is never longer than its cap. */
    method SubmitMiss(ip: Ip)
      modifies this`pending
      ensures pending == if |old(pending)| < 4096 then old(pending) + [ip] else old(pending)
      ensures |old(pending)| <= 4096 ==> |pending| <= 4096
    {
      var room := HasRoom();
      if !room {
        return;
      }
      Push(ip);
    }

    method DrainBatch(now: nat) returns (batch: seq<Ip>, ghost skipped: seq<Ip>)
      modifies this
      ensures pending == []
      ensures batch == Batch(old(pending), Unexpired(old(cooldowns), now).Keys, |old(pending)|)
      ensures skipped == Skipped(old(pending), Unexpired(old(cooldowns), now).Keys, |old(pending)|)
      ensures multiset(batch) + multiset(skipped) == multiset(old(pending))
      ensures cooldowns == Cooldowns(Unexpired(old(cooldowns), now), old(pending), |old(pending)|, now)
    {
      cooldowns := Unexpired(cooldowns, now);
      ghost var live := cooldowns;
      batch, skipped := [], [];
      var drained := pending;
      pending := [];
      for i := 0 to |drained|
        invariant pending == []
        invariant batch == Batch(drained, live.Keys, i)
        invariant skipped == Skipped(drained, live.Keys, i)
        invariant cooldowns == Cooldowns(live, drained, i, now)
      {
        var ip := drained[i];
        assert drained[..i + 1] == drained[..i] + [ip];
        if ip in cooldowns {
          skipped := skipped + [ip];
          continue;
        }
        cooldowns := cooldowns[ip := now + COOLDOWN];
        batch := batch + [ip];
      }
      assert drained[..|drained|] == drained;
      BatchAndSkipped(drained, live.Keys);
    }
  }
}
