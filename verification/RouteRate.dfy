/** How often one address is queried: spacing, coverage and rate over every run. */
module RouteRate {
  import opened Bytes
  import opened Route
  import opened RouteRuns

  /** Emissions of one address are a cooldown apart. */
  ghost predicate Spaced(es: seq<Emission>)
  {
    forall i, j :: 0 <= i < j < |es| && es[i].ip == es[j].ip ==> es[i].time + COOLDOWN <= es[j].time
  }

  ghost predicate NotAfter(es: seq<Emission>, clock: nat)
  {
    forall i :: 0 <= i < |es| ==> es[i].time <= clock
  }

  /** Emission `i` still holds back its address at instant `clock`, and the map says until when. */
  ghost predicate Recorded(s: State, i: nat)
    requires i < |s.emitted|
  {
    var e := s.emitted[i];
    e.time + COOLDOWN > s.clock ==> e.ip in s.cooldowns && s.cooldowns[e.ip] == e.time + COOLDOWN
  }

  /** Emission `i` holds back `ip` until the given instant. */
  ghost predicate HoldsUntil(es: seq<Emission>, i: nat, ip: Ip, until: nat)
  {
    i < |es| && es[i].ip == ip && es[i].time + COOLDOWN == until
  }

  /** The cooldown of `ip` is unexpired and stems from an emission. */
  ghost predicate Justified(s: State, ip: Ip)
    requires ip in s.cooldowns
  {
    s.cooldowns[ip] > s.clock && exists i :: HoldsUntil(s.emitted, i, ip, s.cooldowns[ip])
  }

  /** Emission `i` answers the drained miss `d`: same address, less than a cooldown earlier. */
  ghost predicate Answers(es: seq<Emission>, i: nat, d: Emission)
  {
    i < |es| && es[i].ip == d.ip && es[i].time <= d.time < es[i].time + COOLDOWN
  }

  ghost predicate IsAnswered(es: seq<Emission>, d: Emission)
  {
    exists i :: Answers(es, i, d)
  }

  ghost predicate Covered(es: seq<Emission>, ds: seq<Emission>)
  {
    forall j :: 0 <= j < |ds| ==> IsAnswered(es, ds[j])
  }

  ghost predicate CooldownInvariant(s: State)
  {
    Spaced(s.emitted) && NotAfter(s.emitted, s.clock) &&
    (forall i :: 0 <= i < |s.emitted| ==> Recorded(s, i)) &&
    (forall ip :: ip in s.cooldowns ==> Justified(s, ip)) &&
    Covered(s.emitted, s.drained)
  }

  // ----- One drain -----

  ghost function Live(s: State, now: nat): (live: map<Ip, nat>)
  {
    Unexpired(s.cooldowns, now)
  }

  ghost function Emits(s: State, now: nat): (batch: seq<Ip>)
  {
    Batch(s.pending, Live(s, now).Keys, |s.pending|)
  }

  lemma EmitsWhat(s: State, now: nat)
    ensures var b := Emits(s, now);
            (forall i, j :: 0 <= i < j < |b| ==> b[i] != b[j]) &&
            (forall ip :: ip in b <==> ip in s.pending && ip !in Live(s, now))
  {
    BatchIsDeduplicated(s.pending, Live(s, now).Keys, |s.pending|);
    assert s.pending[..|s.pending|] == s.pending;
    forall ip: Ip
      ensures ip in Emits(s, now) <==> ip in s.pending && ip !in Live(s, now)
    {
      assert ip in Emits(s, now) <==> ip in Elements(Emits(s, now));
      assert ip in s.pending <==> ip in Elements(s.pending);
    }
  }

  lemma DrainKeepsSpacing(s: State, now: nat)
    requires CooldownInvariant(s) && now >= s.clock
    ensures Spaced(AfterDrain(s, now).emitted) && NotAfter(AfterDrain(s, now).emitted, now)
  {
    EmitsWhat(s, now);
    var n, b := |s.emitted|, Emits(s, now);
    var es := AfterDrain(s, now).emitted;
    forall i, j | 0 <= i < j < |es| && es[i].ip == es[j].ip
      ensures es[i].time + COOLDOWN <= es[j].time
    {
      if i < n <= j {
        assert b[j - n] in b && Recorded(s, i);
      }
    }
  }

  lemma DrainKeepsRecords(s: State, now: nat, i: nat)
    requires CooldownInvariant(s) && now >= s.clock
    requires i < |AfterDrain(s, now).emitted|
    ensures Recorded(AfterDrain(s, now), i)
  {
    EmitsWhat(s, now);
    assert s.pending[..|s.pending|] == s.pending;
    if i < |s.emitted| {
      assert Recorded(s, i);
    } else {
      assert Emits(s, now)[i - |s.emitted|] in Emits(s, now);
    }
  }

  lemma DrainKeepsJustification(s: State, now: nat, ip: Ip)
    requires CooldownInvariant(s) && now >= s.clock
    requires ip in AfterDrain(s, now).cooldowns
    ensures Justified(AfterDrain(s, now), ip)
  {
    EmitsWhat(s, now);
    assert s.pending[..|s.pending|] == s.pending;
    var r := AfterDrain(s, now);
    if ip in Live(s, now) {
      assert Justified(s, ip);
      var i :| HoldsUntil(s.emitted, i, ip, s.cooldowns[ip]);
      assert HoldsUntil(r.emitted, i, ip, r.cooldowns[ip]);
    } else {
      assert ip in Emits(s, now);
      var m :| 0 <= m < |Emits(s, now)| && Emits(s, now)[m] == ip;
      assert HoldsUntil(r.emitted, |s.emitted| + m, ip, r.cooldowns[ip]);
    }
  }

  lemma DrainAnswers(s: State, now: nat, ip: Ip) returns (i: nat)
    requires CooldownInvariant(s) && now >= s.clock && ip in s.pending
    ensures Answers(AfterDrain(s, now).emitted, i, Emission(ip, now))
  {
    hide Batch, Skipped, Cooldowns;
    EmitsWhat(s, now);
    if ip in Live(s, now) {
      assert Justified(s, ip);
      i :| HoldsUntil(s.emitted, i, ip, s.cooldowns[ip]);
    } else {
      assert ip in Emits(s, now);
      var m :| 0 <= m < |Emits(s, now)| && Emits(s, now)[m] == ip;
      i := |s.emitted| + m;
    }
  }

  lemma DrainKeepsCoverage(s: State, now: nat)
    requires CooldownInvariant(s) && now >= s.clock
    ensures Covered(AfterDrain(s, now).emitted, AfterDrain(s, now).drained)
  {
    var r, n := AfterDrain(s, now), |s.drained|;
    forall j | 0 <= j < |r.drained|
      ensures IsAnswered(r.emitted, r.drained[j])
    {
      if j < n {
        assert IsAnswered(s.emitted, s.drained[j]);
        var i :| Answers(s.emitted, i, s.drained[j]);
        assert Answers(r.emitted, i, r.drained[j]);
      } else {
        var i := DrainAnswers(s, now, s.pending[j - n]);
        assert Answers(r.emitted, i, r.drained[j]);
      }
    }
  }

  lemma DrainKeepsInvariant(s: State, now: nat)
    requires CooldownInvariant(s) && now >= s.clock
    ensures CooldownInvariant(AfterDrain(s, now))
  {
    var r := AfterDrain(s, now);
    DrainKeepsSpacing(s, now);
    DrainKeepsCoverage(s, now);
    forall i | 0 <= i < |r.emitted| ensures Recorded(r, i) { DrainKeepsRecords(s, now, i); }
    forall ip | ip in r.cooldowns ensures Justified(r, ip) { DrainKeepsJustification(s, now, ip); }
  }

  // ----- Every run -----

  lemma {:induction false} InvariantHolds(k: nat, steps: seq<Step>)
    ensures CooldownInvariant(Exec(k, steps))
  {
    if steps != [] {
      var s, step := Exec(k, steps[..|steps| - 1]), steps[|steps| - 1];
      InvariantHolds(k, steps[..|steps| - 1]);
      if step.Drain? {
        if step.now >= s.clock {
          DrainKeepsInvariant(s, step.now);
        }
      } else {
        QuietStep(s, step);
      }
    }
  }

  lemma QuietFrame(s: State, step: Step)
    requires !step.Drain?
    ensures var r := Next(s, step);
            r.emitted == s.emitted && r.cooldowns == s.cooldowns && r.clock == s.clock && r.drained == s.drained
  {
  }

  /** Steps other than drains leave everything the invariant speaks about alone. */
  lemma QuietStep(s: State, step: Step)
    requires !step.Drain? && CooldownInvariant(s)
    ensures CooldownInvariant(Next(s, step))
  {
    hide Next;
    QuietFrame(s, step);
    var r := Next(s, step);
    forall i | 0 <= i < |r.emitted| ensures Recorded(r, i) { assert Recorded(s, i); }
    forall ip | ip in r.cooldowns ensures Justified(r, ip) { assert Justified(s, ip); }
  }

  /** In every interleaving, two queries of one address are at least the cooldown apart, and
  every drained miss is answered by a query of its address less than a cooldown old. */
  lemma SpacingAndCoverage(k: nat, steps: seq<Step>)
    ensures var es := Exec(k, steps).emitted;
            forall i, j :: 0 <= i < j < |es| && es[i].ip == es[j].ip ==> es[i].time + 5_000_000_000 <= es[j].time
    ensures Covered(Exec(k, steps).emitted, Exec(k, steps).drained)
  {
    InvariantHolds(k, steps);
  }

  /** The cooldown map holds exactly the addresses queried within a cooldown of the last drain. */
  lemma CooldownDomain(k: nat, steps: seq<Step>, ip: Ip)
    ensures var s := Exec(k, steps);
            ip in s.cooldowns <==>
            exists i :: 0 <= i < |s.emitted| && s.emitted[i].ip == ip && s.emitted[i].time + COOLDOWN > s.clock
  {
    var s := Exec(k, steps);
    InvariantHolds(k, steps);
    if ip in s.cooldowns {
      assert Justified(s, ip);
      var i :| HoldsUntil(s.emitted, i, ip, s.cooldowns[ip]);
    }
    forall i | 0 <= i < |s.emitted| && s.emitted[i].ip == ip && s.emitted[i].time + COOLDOWN > s.clock
      ensures ip in s.cooldowns
    {
      assert Recorded(s, i);
    }
  }

  // ----- Rate -----

  /** How many of the emissions are of `ip` and fall into the closed window [from, to]. */
  ghost function QueryCount(es: seq<Emission>, ip: Ip, from: int, to: int): (n: nat)
  {
    if es == [] then 0
    else
      var e := es[|es| - 1];
      QueryCount(es[..|es| - 1], ip, from, to) + if e.ip == ip && from <= e.time <= to then 1 else 0
  }

  lemma {:induction false} EarlierWindow(es: seq<Emission>, ip: Ip, from: int, to: int, to': int)
    requires to' <= to && forall i :: 0 <= i < |es| && es[i].ip == ip ==> es[i].time <= to'
    ensures QueryCount(es, ip, from, to) == QueryCount(es, ip, from, to')
  {
    if es != [] {
      EarlierWindow(es[..|es| - 1], ip, from, to, to');
    }
  }

  lemma {:induction false} SpacedRate(es: seq<Emission>, ip: Ip, from: int, to: int)
    requires Spaced(es)
    ensures QueryCount(es, ip, from, to) <= if from <= to then (to - from) / 5_000_000_000 + 1 else 0
    decreases |es|
  {
    if es != [] {
      var front, e := es[..|es| - 1], es[|es| - 1];
      if e.ip == ip && from <= e.time <= to {
        EarlierWindow(front, ip, from, to, e.time - COOLDOWN);
        SpacedRate(front, ip, from, e.time - COOLDOWN);
      } else {
        SpacedRate(front, ip, from, to);
      }
    }
  }

  /** In every run, every closed window of length T holds at most floor(T / 5 s) + 1 queries
  of one address. */
  lemma QueryRateBound(k: nat, steps: seq<Step>, ip: Ip, from: nat, length: nat)
    ensures QueryCount(Exec(k, steps).emitted, ip, from, from + length) <= length / 5_000_000_000 + 1
  {
    SpacingAndCoverage(k, steps);
    SpacedRate(Exec(k, steps).emitted, ip, from, from + length);
  }

  /** Nothing is on its way: no peer, no packet, no pending miss. */
  ghost predicate AtRest(s: State)
  {
    s.nodes == {} && s.ring == [] && s.subs == [Idle] && s.pending == []
  }

  lemma DrainsOne(s: State, now: nat)
    requires s.pending == [0] && forall ip :: ip in s.cooldowns ==> s.cooldowns[ip] <= now
    ensures AfterDrain(s, now).emitted == s.emitted + [Emission(0, now)]
  {
    var cooling := Unexpired(s.cooldowns, now).Keys;
    assert cooling == {};
    assert Batch(s.pending, cooling, 0) == [] && IsFirst(s.pending, cooling, 0);
    assert Batch(s.pending, cooling, 1) == [0];
    assert Stamp([0], now) == [Emission(0, now)];
  }

  /** One more miss of address 0 and a drain a cooldown after the last emission query it again. */
  lemma QueryAgain(steps: seq<Step>, now: nat) returns (more: seq<Step>)
    requires AtRest(Exec(1, steps)) && now >= Exec(1, steps).clock
    requires forall ip :: ip in Exec(1, steps).cooldowns ==> Exec(1, steps).cooldowns[ip] <= now
    ensures AtRest(Exec(1, more)) && Exec(1, more).clock == now
    ensures Exec(1, more).emitted == Exec(1, steps).emitted + [Emission(0, now)]
  {
    hide Exec, Batch;
    var s := Exec(1, steps);
    var cleared := ClearOne(1, steps, 0);
    var pushed := cleared + [Push(0)];
    ExecMore(1, cleared, Push(0));
    var r := Exec(1, pushed);
    ExecMore(1, pushed, Drain(now));
    more := pushed + [Drain(now)];
    DrainsOne(r, now);
  }

  /** The rate bound is attained: m + 1 queries in a window of m cooldowns, for every m. */
  lemma {:induction false} QueryRateAttained(m: nat) returns (steps: seq<Step>)
    ensures AtRest(Exec(1, steps)) && Exec(1, steps).clock == 5_000_000_000 * m
    ensures QueryCount(Exec(1, steps).emitted, 0, 0, 5_000_000_000 * m) == m + 1
  {
    var before := [];
    if m > 0 {
      before := QueryRateAttained(m - 1);
    }
    var s, now := Exec(1, before), 5_000_000_000 * m;
    InvariantHolds(1, before);
    forall ip | ip in s.cooldowns
      ensures s.cooldowns[ip] <= now
    {
      assert Justified(s, ip);
    }
    assert m == 0 ==> s.subs == [Idle];
    steps := QueryAgain(before, now);
    if m > 0 {
      EarlierWindow(s.emitted, 0, 0, now, s.clock);
    }
    assert (s.emitted + [Emission(0, now)])[..|s.emitted|] == s.emitted;
  }
}
