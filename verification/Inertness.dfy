/** Rejected datagrams are inert: removing them from a run changes nothing that follows. */
module Inertness {
  import opened Bytes
  import opened Frame
  import opened Replay

  /** A delivered arrival with the nonce table right after it. */
  datatype Delivery = Delivery(arrival: Arrival, table: Table)

  /** The deliveries of a run that starts with table `t`, in order. */
  function Deliveries(sign: Mac, t: Table, run: seq<Arrival>): (ds: seq<Delivery>)
    decreases run
  {
    if run == [] then []
    else
      var (ok, t') := Receive(sign, t, run[0]);
      (if ok then [Delivery(run[0], t')] else []) + Deliveries(sign, t', run[1..])
  }

  /** The deliveries among the first `j` arrivals, by index. */
  ghost function DeliveredBy(sign: Mac, run: seq<Arrival>, j: nat): (ds: seq<Delivery>)
    requires j <= |run|
  {
    if j == 0 then []
    else DeliveredBy(sign, run, j - 1) +
         if Accepts(sign, run, j - 1) then [Delivery(run[j - 1], TableAt(sign, run, j))] else []
  }

  lemma {:induction false} DeliveriesSplit(sign: Mac, run: seq<Arrival>, j: nat)
    requires j <= |run|
    ensures Deliveries(sign, [], run) == DeliveredBy(sign, run, j) + Deliveries(sign, TableAt(sign, run, j), run[j..])
  {
    hide Receive;
    if j > 0 {
      DeliveriesSplit(sign, run, j - 1);
      assert run[j - 1..][1..] == run[j..];
    } else {
      assert run[0..] == run;
    }
  }

  /** Both views list the same deliveries. */
  lemma DeliveriesAreAcceptances(sign: Mac, run: seq<Arrival>)
    ensures Deliveries(sign, [], run) == DeliveredBy(sign, run, |run|)
  {
    DeliveriesSplit(sign, run, |run|);
  }

  /** `thin` is `run` with some of its rejected arrivals left out. */
  ghost predicate Thins(sign: Mac, t: Table, run: seq<Arrival>, thin: seq<Arrival>)
    decreases run
  {
    if run == [] then thin == []
    else
      var (ok, t') := Receive(sign, t, run[0]);
      (thin != [] && thin[0] == run[0] && Thins(sign, t', run[1..], thin[1..])) ||
      (!ok && Thins(sign, t', run[1..], thin))
  }

  /** `run` without any rejected arrival. */
  function OnlyDelivered(sign: Mac, t: Table, run: seq<Arrival>): (r: seq<Arrival>)
    decreases run
  {
    if run == [] then []
    else
      var (ok, t') := Receive(sign, t, run[0]);
      (if ok then [run[0]] else []) + OnlyDelivered(sign, t', run[1..])
  }

  lemma {:induction false} OnlyDeliveredThins(sign: Mac, t: Table, run: seq<Arrival>)
    ensures Thins(sign, t, run, OnlyDelivered(sign, t, run))
    decreases run
  {
    if run != [] {
      var (ok, t') := Receive(sign, t, run[0]);
      OnlyDeliveredThins(sign, t', run[1..]);
      if ok {
        assert OnlyDelivered(sign, t, run)[1..] == OnlyDelivered(sign, t', run[1..]);
      } else {
        assert OnlyDelivered(sign, t, run) == OnlyDelivered(sign, t', run[1..]);
      }
    }
  }

  lemma {:induction false} RetainRetain(t: Table, c: U64, d: U64)
    requires c <= d
    ensures Retain(Retain(t, c), d) == Retain(t, d)
  {
    if t != [] {
      RetainRetain(t[1..], c, d);
      if t[0].time > c {
        assert Retain(t, c)[0] == t[0] && Retain(t, c)[1..] == Retain(t[1..], c);
      } else {
        assert Retain(t, c) == Retain(t[1..], c);
      }
    }
  }

  /** The two tables agree on everything a check at clock `c` or later can see. */
  ghost predicate Agree(t: Table, u: Table, c: U64)
  {
    Retain(t, Cutoff(c)) == Retain(u, Cutoff(c))
  }

  lemma AgreeLater(t: Table, u: Table, c: U64, now: U64)
    requires Agree(t, u, c) && c <= now
    ensures Agree(t, u, now)
  {
    RetainRetain(t, Cutoff(c), Cutoff(now));
    RetainRetain(u, Cutoff(c), Cutoff(now));
  }

  /** Tables that agree give the same decision, and still agree after it. */
  lemma AgreeingReceive(sign: Mac, t: Table, u: Table, a: Arrival)
    requires Agree(t, u, a.now)
    ensures Receive(sign, t, a).0 == Receive(sign, u, a).0
    ensures Receive(sign, t, a).0 ==> Receive(sign, t, a).1 == Receive(sign, u, a).1
    ensures Agree(Receive(sign, t, a).1, Receive(sign, u, a).1, a.now)
  {
  }

  /** A rejected arrival leaves a table that agrees with the one it found. */
  lemma RejectedAgrees(sign: Mac, t: Table, a: Arrival)
    requires !Receive(sign, t, a).0
    ensures Agree(Receive(sign, t, a).1, t, a.now)
  {
    RetainRetain(t, Cutoff(a.now), Cutoff(a.now));
  }

  lemma {:induction false} ThinnedFrom(sign: Mac, t: Table, run: seq<Arrival>, u: Table, thin: seq<Arrival>, c: U64)
    requires Monotone(run) && ClockFrom(run, c)
    requires Agree(t, u, c) && Thins(sign, t, run, thin)
    ensures Deliveries(sign, t, run) == Deliveries(sign, u, thin)
    decreases run
  {
    if run != [] {
      var a := run[0];
      var (ok, t') := Receive(sign, t, a);
      AgreeLater(t, u, c, a.now);
      assert ClockFrom(run[1..], a.now);
      if thin != [] && thin[0] == a && Thins(sign, t', run[1..], thin[1..]) {
        AgreeingReceive(sign, t, u, a);
        ThinnedFrom(sign, t', run[1..], Receive(sign, u, a).1, thin[1..], a.now);
      } else {
        RejectedAgrees(sign, t, a);
        ThinnedFrom(sign, t', run[1..], u, thin, a.now);
      }
    }
  }

  /** For every run with a nondecreasing clock, deleting any of the arrivals that are too
  short, fail the MAC, are out of window or are duplicates leaves the delivered sequence and
  the table after each delivery unchanged. */
  lemma RejectedAreInert(sign: Mac, run: seq<Arrival>, thin: seq<Arrival>)
    requires Monotone(run) && Thins(sign, [], run, thin)
    ensures Deliveries(sign, [], thin) == Deliveries(sign, [], run)
  {
    if run != [] {
      assert ClockFrom(run, run[0].now);
      ThinnedFrom(sign, [], run, [], thin, run[0].now);
    }
  }
}
