/** The route-miss pipeline as a step system: packets that miss in the node map, the ring
buffer, any number of submitters that check and push under separate locks, and the drain.
Every sequence of steps is a run: a step that cannot happen changes nothing. */
module RouteRuns {
  import opened Bytes
  import opened Route

  datatype Submitter = Idle | Checking(ip: Ip) | Cleared(ip: Ip)

  datatype Emission = Emission(ip: Ip, time: nat)

  datatype State = State(
    nodes: set<Ip>,               // keys of the node map
    ring: seq<Ip>,                // the ring buffer between kernel and agent
    subs: seq<Submitter>,
    pending: seq<Ip>,
    cooldowns: map<Ip, nat>,
    clock: nat,                   // instant of the last drain
    // what happened so far
    misses: seq<Ip>,              // destinations absent from the node map, in order
    lost: multiset<Ip>,           // not reserved in the ring buffer
    dropped: multiset<Ip>,        // refused by a full queue
    suppressed: multiset<Ip>,     // passed over by a drain: cooling down or pending before
    drained: seq<Emission>,
    emitted: seq<Emission>)       // queried

  datatype Step =
    | AddPeer(peer: Ip)
    | Egress(dest: Ip, reserved: bool)
    | Take(taker: nat)
    | Check(checker: nat)
    | Push(pusher: nat)
    | Drain(now: nat)

  function Init(k: nat): (s: State)
  {
    State({}, [], seq(k, _ => Idle), [], map[], 0, [], multiset{}, multiset{}, multiset{}, [], [])
  }

  function Stamp(ips: seq<Ip>, now: nat): (es: seq<Emission>)
  {
    seq(|ips|, i requires 0 <= i < |ips| => Emission(ips[i], now))
  }

  function Ips(es: seq<Emission>): (r: seq<Ip>)
  {
    seq(|es|, i requires 0 <= i < |es| => es[i].ip)
  }

  ghost function AfterDrain(s: State, now: nat): (r: State)
  {
    var live := Unexpired(s.cooldowns, now);
    var batch := Batch(s.pending, live.Keys, |s.pending|);
    s.(pending := [],
       cooldowns := Cooldowns(live, s.pending, |s.pending|, now),
       clock := now,
       drained := s.drained + Stamp(s.pending, now),
       emitted := s.emitted + Stamp(batch, now),
       suppressed := s.suppressed + multiset(Skipped(s.pending, live.Keys, |s.pending|)))
  }

  ghost function Next(s: State, step: Step): (r: State)
  {
    match step
    case AddPeer(ip) => s.(nodes := s.nodes + {ip})
    case Egress(ip, reserved) =>
      if ip in s.nodes then s
      else if reserved then s.(misses := s.misses + [ip], ring := s.ring + [ip])
      else s.(misses := s.misses + [ip], lost := s.lost + multiset{ip})
    case Take(c) =>
      if c < |s.subs| && s.subs[c].Idle? && s.ring != []
      then s.(ring := s.ring[1..], subs := s.subs[c := Checking(s.ring[0])]) else s
    case Check(c) =>
      if c < |s.subs| && s.subs[c].Checking? then
        if |s.pending| >= MAX_PENDING
        then s.(subs := s.subs[c := Idle], dropped := s.dropped + multiset{s.subs[c].ip})
        else s.(subs := s.subs[c := Cleared(s.subs[c].ip)])
      else s
    case Push(c) =>
      if c < |s.subs| && s.subs[c].Cleared?
      then s.(subs := s.subs[c := Idle], pending := s.pending + [s.subs[c].ip]) else s
    case Drain(now) => if now >= s.clock then AfterDrain(s, now) else s
  }

  /** The state after a whole run with `k` submitters. */
  ghost function Exec(k: nat, steps: seq<Step>): (s: State)
  {
    if steps == [] then Init(k) else Next(Exec(k, steps[..|steps| - 1]), steps[|steps| - 1])
  }

  // ----- The queue bound -----

  ghost function ClearedCount(subs: seq<Submitter>): (n: nat)
  {
    if subs == [] then 0 else ClearedCount(subs[1..]) + if subs[0].Cleared? then 1 else 0
  }

  lemma {:induction false} ClearedCountUpdate(subs: seq<Submitter>, c: nat, sub: Submitter)
    requires c < |subs|
    ensures ClearedCount(subs[c := sub]) ==
            ClearedCount(subs) + (if sub.Cleared? then 1 else 0) - (if subs[c].Cleared? then 1 else 0)
  {
    if c == 0 {
      assert subs[c := sub][1..] == subs[1..];
    } else {
      ClearedCountUpdate(subs[1..], c - 1, sub);
      assert subs[c := sub][1..] == subs[1..][c - 1 := sub];
    }
  }

  lemma {:induction false} ClearedCountBound(subs: seq<Submitter>)
    ensures ClearedCount(subs) <= |subs|
  {
    if subs != [] {
      ClearedCountBound(subs[1..]);
    }
  }

  lemma {:induction false} NoneCleared(k: nat)
    ensures ClearedCount(seq(k, _ => Idle)) == 0
  {
    if k > 0 {
      NoneCleared(k - 1);
      assert seq(k, _ => Idle)[1..] == seq(k - 1, _ => Idle);
    }
  }

  /** Submitters that passed the check count as if they had pushed already. */
  ghost predicate WithinCap(s: State, k: nat)
  {
    |s.subs| == k && |s.pending| + ClearedCount(s.subs) <= MAX_PENDING - 1 + k
  }

  lemma WithinCapStep(s: State, k: nat, step: Step)
    requires WithinCap(s, k)
    ensures WithinCap(Next(s, step), k)
  {
    var r := Next(s, step);
    match step
    case Take(c) =>
      if r != s { ClearedCountUpdate(s.subs, c, r.subs[c]); }
    case Check(c) =>
      if r != s { ClearedCountUpdate(s.subs, c, r.subs[c]); ClearedCountBound(r.subs); }
    case Push(c) =>
      if r != s { ClearedCountUpdate(s.subs, c, r.subs[c]); }
    case _ =>
  }

  /** With `k` submitters, whatever the interleaving, the queue holds at most 4095 + k misses;
  the single ring-buffer consumer keeps it at the cap of 4096. */
  lemma {:induction false} QueueBound(k: nat, steps: seq<Step>)
    ensures WithinCap(Exec(k, steps), k)
    ensures |Exec(k, steps).pending| <= 4095 + k
    ensures k == 1 ==> |Exec(k, steps).pending| <= 4096
  {
    if steps == [] {
      NoneCleared(k);
    } else {
      QueueBound(k, steps[..|steps| - 1]);
      WithinCapStep(Exec(k, steps[..|steps| - 1]), k, steps[|steps| - 1]);
    }
  }

  lemma ExecMore(k: nat, steps: seq<Step>, step: Step)
    ensures Exec(k, steps + [step]) == Next(Exec(k, steps), step)
  {
    assert (steps + [step])[..|steps|] == steps;
  }

  /** Brings submitter `c` past the check while the queue has room. */
  lemma ClearOne(k: nat, steps: seq<Step>, c: nat) returns (more: seq<Step>)
    requires var s := Exec(k, steps);
             c < |s.subs| && s.subs[c].Idle? && s.ring == [] && 0 !in s.nodes && |s.pending| < MAX_PENDING
    ensures var s, r := Exec(k, steps), Exec(k, more);
            r == s.(subs := s.subs[c := Cleared(0)], misses := s.misses + [0])
  {
    hide Exec, AfterDrain;
    var a := steps + [Egress(0, true)];
    ExecMore(k, steps, Egress(0, true));
    ExecMore(k, a, Take(c));
    ExecMore(k, a + [Take(c)], Check(c));
    more := a + [Take(c)] + [Check(c)];
  }

  /** Submitter 0 alone fills the queue to any length below the cap. */
  lemma {:induction false} Fill(k: nat, n: nat) returns (steps: seq<Step>)
    requires k > 0 && n < MAX_PENDING
    ensures var s := Exec(k, steps);
            |s.pending| == n && s.subs == seq(k, _ => Idle) && s.ring == [] && s.nodes == {}
  {
    if n == 0 {
      steps := [];
    } else {
      var before := Fill(k, n - 1);
      var cleared := ClearOne(k, before, 0);
      ExecMore(k, cleared, Push(0));
      steps := cleared + [Push(0)];
      assert seq(k, _ => Idle)[0 := Cleared(0)][0 := Idle] == seq(k, _ => Idle);
    }
  }

  function Mixed(k: nat, lo: nat, hi: nat): (subs: seq<Submitter>)
  {
    seq(k, i => if lo <= i < hi then Cleared(0) else Idle)
  }

  /** All of the first `c` submitters pass the check before any of them pushes. */
  lemma {:induction false} ClearMany(k: nat, c: nat) returns (steps: seq<Step>)
    requires 0 < k && c <= k
    ensures var s := Exec(k, steps);
            |s.pending| == MAX_PENDING - 1 && s.subs == Mixed(k, 0, c) && s.ring == [] && s.nodes == {}
  {
    if c == 0 {
      steps := Fill(k, MAX_PENDING - 1);
      assert seq(k, _ => Idle) == Mixed(k, 0, 0);
    } else {
      var before := ClearMany(k, c - 1);
      steps := ClearOne(k, before, c - 1);
      assert Mixed(k, 0, c - 1)[c - 1 := Cleared(0)] == Mixed(k, 0, c);
    }
  }

  lemma {:induction false} PushMany(k: nat, c: nat) returns (steps: seq<Step>)
    requires 0 < k && c <= k
    ensures |Exec(k, steps).pending| == MAX_PENDING - 1 + c && Exec(k, steps).subs == Mixed(k, c, k)
  {
    if c == 0 {
      steps := ClearMany(k, k);
    } else {
      var before := PushMany(k, c - 1);
      ExecMore(k, before, Push(c - 1));
      steps := before + [Push(c - 1)];
      assert Mixed(k, c - 1, k)[c - 1 := Idle] == Mixed(k, c, k);
    }
  }

  /** The bound is attained for every number of submitters. */
  lemma QueueBoundAttained(k: nat) returns (steps: seq<Step>)
    requires k > 0
    ensures |Exec(k, steps).pending| == 4095 + k
  {
    steps := PushMany(k, k);
  }

  // ----- Conservation -----

  function Carries(sub: Submitter, ip: Ip): (n: nat)
  {
    if sub.Idle? || sub.ip != ip then 0 else 1
  }

  /** How many submitters are busy with a miss of `ip`. */
  function InFlight(subs: seq<Submitter>, ip: Ip): (n: nat)
  {
    if subs == [] then 0 else InFlight(subs[1..], ip) + Carries(subs[0], ip)
  }

  lemma {:induction false} InFlightUpdate(subs: seq<Submitter>, c: nat, sub: Submitter, ip: Ip)
    requires c < |subs|
    ensures InFlight(subs[c := sub], ip) + Carries(subs[c], ip) == InFlight(subs, ip) + Carries(sub, ip)
  {
    var next := subs[c := sub];
    if c == 0 {
      assert next[1..] == subs[1..];
    } else {
      InFlightUpdate(subs[1..], c - 1, sub, ip);
      assert next[1..] == subs[1..][c - 1 := sub];
    }
  }

  lemma {:induction false} NoneInFlight(k: nat, ip: Ip)
    ensures InFlight(seq(k, _ => Idle), ip) == 0
  {
    if k > 0 {
      NoneInFlight(k - 1, ip);
      assert seq(k, _ => Idle)[1..] == seq(k - 1, _ => Idle);
    }
  }

  /** Every miss of `ip` is in exactly one place. */
  ghost predicate Conserved(s: State, ip: Ip)
  {
    multiset(s.misses)[ip] == s.lost[ip] + multiset(s.ring)[ip] + InFlight(s.subs, ip) + s.dropped[ip]
                    + multiset(s.pending)[ip] + multiset(Ips(s.emitted))[ip] + s.suppressed[ip]
  }

  lemma ConservedDrain(s: State, now: nat, ip: Ip)
    requires Conserved(s, ip)
    ensures Conserved(AfterDrain(s, now), ip)
  {
    hide Batch, Skipped, InFlight;
    var cooling := Unexpired(s.cooldowns, now).Keys;
    var batch := Batch(s.pending, cooling, |s.pending|);
    BatchAndSkipped(s.pending, cooling);
    assert s.pending[..|s.pending|] == s.pending;
    assert Ips(s.emitted + Stamp(batch, now)) == Ips(s.emitted) + batch;
  }

  lemma ConservedTake(s: State, c: nat, ip: Ip)
    requires Conserved(s, ip)
    requires c < |s.subs| && s.subs[c].Idle? && s.ring != []
    ensures Conserved(Next(s, Take(c)), ip)
  {
    InFlightUpdate(s.subs, c, Checking(s.ring[0]), ip);
    assert s.ring == [s.ring[0]] + s.ring[1..];
  }

  lemma ConservedCheck(s: State, c: nat, ip: Ip)
    requires Conserved(s, ip)
    requires c < |s.subs| && s.subs[c].Checking?
    ensures Conserved(Next(s, Check(c)), ip)
  {
    hide AfterDrain, InFlight, Ips;
    if |s.pending| >= MAX_PENDING {
      InFlightUpdate(s.subs, c, Idle, ip);
    } else {
      InFlightUpdate(s.subs, c, Cleared(s.subs[c].ip), ip);
    }
  }

  lemma ConservedPush(s: State, c: nat, ip: Ip)
    requires Conserved(s, ip)
    requires c < |s.subs| && s.subs[c].Cleared?
    ensures Conserved(Next(s, Push(c)), ip)
  {
    InFlightUpdate(s.subs, c, Idle, ip);
  }

  lemma ConservedEgress(s: State, dest: Ip, reserved: bool, ip: Ip)
    requires Conserved(s, ip)
    ensures Conserved(Next(s, Egress(dest, reserved)), ip)
  {
  }

  lemma ConservedStep(s: State, step: Step, ip: Ip)
    requires Conserved(s, ip)
    ensures Conserved(Next(s, step), ip)
  {
    if Next(s, step) != s {
      match step
      case AddPeer(_) =>
      case Egress(dest, reserved) => ConservedEgress(s, dest, reserved, ip);
      case Take(c) => ConservedTake(s, c, ip);
      case Check(c) => ConservedCheck(s, c, ip);
      case Push(c) => ConservedPush(s, c, ip);
      case Drain(now) => ConservedDrain(s, now, ip);
    }
  }

  /** In every reachable state, each miss was lost by the ring buffer, refused by a full queue,
  suppressed by a cooldown or queried, or it is still on its way: none vanishes, none is
  counted twice. */
  lemma {:induction false} Conservation(k: nat, steps: seq<Step>, ip: Ip)
    ensures Conserved(Exec(k, steps), ip)
  {
    if steps == [] {
      NoneInFlight(k, ip);
    } else {
      Conservation(k, steps[..|steps| - 1], ip);
      ConservedStep(Exec(k, steps[..|steps| - 1]), steps[|steps| - 1], ip);
    }
  }

  /** Step `n` of the run sends a packet to `ip` while `ip` is absent from the node map. */
  ghost predicate MissesAt(k: nat, steps: seq<Step>, n: nat, ip: Ip)
  {
    n < |steps| && steps[n].Egress? && steps[n].dest == ip && ip !in Exec(k, steps[..n]).nodes
  }

  lemma {:induction false} MissedHasCause(k: nat, steps: seq<Step>, ip: Ip) returns (n: nat)
    requires ip in Exec(k, steps).misses
    ensures MissesAt(k, steps, n, ip)
  {
    var before := steps[..|steps| - 1];
    if ip in Exec(k, before).misses {
      n := MissedHasCause(k, before, ip);
      assert before[..n] == steps[..n];
    } else {
      n := |steps| - 1;
    }
  }

  lemma {:induction false} EmittedGrows(k: nat, steps: seq<Step>, n: nat)
    requires n <= |steps|
    ensures Exec(k, steps[..n]).emitted <= Exec(k, steps).emitted
  {
    if n < |steps| {
      var before := steps[..|steps| - 1];
      EmittedGrows(k, before, n);
      assert before[..n] == steps[..n];
      EmittedStep(Exec(k, before), steps[|steps| - 1]);
    } else {
      assert steps[..n] == steps;
    }
  }

  lemma EmittedStep(s: State, step: Step)
    ensures s.emitted <= Next(s, step).emitted
    ensures |Next(s, step).emitted| > |s.emitted| ==> step.Drain?
  {
    hide Batch, Skipped, Cooldowns;
  }

  lemma EmittedWasMissed(k: nat, steps: seq<Step>, i: nat) returns (n: nat)
    requires i < |Exec(k, steps).emitted|
    ensures MissesAt(k, steps, n, Exec(k, steps).emitted[i].ip)
  {
    var s := Exec(k, steps);
    Conservation(k, steps, s.emitted[i].ip);
    assert s.emitted[i].ip == Ips(s.emitted)[i];
    assert Ips(s.emitted)[i] in multiset(Ips(s.emitted));
    n := MissedHasCause(k, steps, s.emitted[i].ip);
  }

  /** Every queried address was the destination of a packet that missed before the query: the
  packet comes when fewer than `i + 1` queries have been made. */
  lemma {:induction false} EmittedHasCause(k: nat, steps: seq<Step>, i: nat) returns (n: nat)
    requires i < |Exec(k, steps).emitted|
    ensures MissesAt(k, steps, n, Exec(k, steps).emitted[i].ip)
    ensures |Exec(k, steps[..n]).emitted| <= i
  {
    hide Next;
    var before := steps[..|steps| - 1];
    if i < |Exec(k, before).emitted| {
      n := EmittedHasCause(k, before, i);
      EmittedStep(Exec(k, before), steps[|steps| - 1]);
      assert before[..n] == steps[..n];
    } else {
      EmittedStep(Exec(k, before), steps[|steps| - 1]);
      n := EmittedWasMissed(k, steps, i);
      EmittedGrows(k, before, n);
      assert before[..n] == steps[..n];
    }
  }

  lemma {:induction false} PeerStaysKnown(k: nat, steps: seq<Step>, n: nat, ip: Ip)
    requires n < |steps| && steps[n] == AddPeer(ip)
    ensures ip in Exec(k, steps).nodes
  {
    hide AfterDrain;
    var before := steps[..|steps| - 1];
    if n < |before| {
      PeerStaysKnown(k, before, n, ip);
      NodesGrow(Exec(k, before), steps[|steps| - 1]);
    }
  }

  lemma NodesGrow(s: State, step: Step)
    ensures s.nodes <= Next(s, step).nodes
  {
    hide Batch, Skipped, Cooldowns;
  }

  /** Once a peer is in the node map, no later packet to it changes anything. */
  lemma KnownPeerIsQuiet(k: nat, steps: seq<Step>, n: nat, ip: Ip, reserved: bool)
    requires n < |steps| && steps[n] == AddPeer(ip)
    ensures Exec(k, steps + [Egress(ip, reserved)]) == Exec(k, steps)
  {
    hide Exec;
    PeerStaysKnown(k, steps, n, ip);
    ExecMore(k, steps, Egress(ip, reserved));
  }

  // ----- Order -----

  /** `a` is `b` with some entries left out. */
  ghost predicate Subsequence(a: seq<Ip>, b: seq<Ip>)
  {
    if b == [] then a == []
    else
      Subsequence(a, b[..|b| - 1]) ||
      (a != [] && a[|a| - 1] == b[|b| - 1] && Subsequence(a[..|a| - 1], b[..|b| - 1]))
  }

  lemma SubsequenceAppend(a: seq<Ip>, b: seq<Ip>, x: Ip)
    requires Subsequence(a, b)
    ensures Subsequence(a, b + [x]) && Subsequence(a + [x], b + [x])
  {
    assert (b + [x])[..|b|] == b && (a + [x])[..|a|] == a;
  }

  /** Leaving out one more entry. */
  lemma {:induction false} SubsequenceDrop(a: seq<Ip>, x: Ip, c: seq<Ip>, b: seq<Ip>)
    requires Subsequence(a + [x] + c, b)
    ensures Subsequence(a + c, b)
    decreases b
  {
    if b != [] {
      var w, front := a + [x] + c, b[..|b| - 1];
      if Subsequence(w, front) {
        SubsequenceDrop(a, x, c, front);
      } else if c == [] {
        assert w[..|w| - 1] == a && a + c == a;
      } else {
        var d := c[..|c| - 1];
        assert w[..|w| - 1] == a + [x] + d && (a + c)[..|a + c| - 1] == a + d;
        SubsequenceDrop(a, x, d, front);
      }
    }
  }

  /** What a submitter carries, as a sequence of none or one. */
  function Carried(sub: Submitter): (s: seq<Ip>)
  {
    if sub.Idle? then [] else [sub.ip]
  }

  /** The misses drained, pending, with the consumer and in the ring buffer, oldest first. */
  ghost function Line(s: State): (r: seq<Ip>)
    requires |s.subs| == 1
  {
    Ips(s.drained) + s.pending + Carried(s.subs[0]) + s.ring
  }

  lemma LineCheck(s: State, c: nat)
    requires |s.subs| == 1 && Subsequence(Line(s), s.misses)
    ensures Subsequence(Line(Next(s, Check(c))), s.misses)
  {
    hide Subsequence;
    var r := Next(s, Check(c));
    if r != s && r.subs[0].Idle? {
      var front := Ips(s.drained) + s.pending;
      assert Line(s) == front + [s.subs[0].ip] + s.ring;
      SubsequenceDrop(front, s.subs[0].ip, s.ring, s.misses);
      assert Line(r) == front + s.ring;
    } else {
      assert Line(r) == Line(s);
    }
  }

  /** Taking, pushing and draining move a miss along, and change no position. */
  lemma LineMoves(s: State, step: Step)
    requires |s.subs| == 1 && (step.Take? || step.Push? || step.Drain?)
    ensures Line(Next(s, step)) == Line(s) && Next(s, step).misses == s.misses
  {
    hide Batch, Skipped, Cooldowns;
    match step
    case Drain(now) => assert Ips(s.drained + Stamp(s.pending, now)) == Ips(s.drained) + s.pending;
    case Take(_) =>
    case Push(_) =>
  }

  lemma LineEgress(s: State, ip: Ip, reserved: bool)
    requires |s.subs| == 1 && Subsequence(Line(s), s.misses)
    ensures var r := Next(s, Egress(ip, reserved)); Subsequence(Line(r), r.misses)
  {
    hide Subsequence;
    var r := Next(s, Egress(ip, reserved));
    if r != s {
      SubsequenceAppend(Line(s), s.misses, ip);
      assert reserved ==> Line(r) == Line(s) + [ip];
    }
  }

  lemma LineStep(s: State, step: Step)
    requires |s.subs| == 1 && Subsequence(Line(s), s.misses)
    ensures |Next(s, step).subs| == 1 && Subsequence(Line(Next(s, step)), Next(s, step).misses)
  {
    hide Batch, Skipped, Cooldowns, Subsequence, Ips;
    match step
    case Egress(ip, reserved) => LineEgress(s, ip, reserved);
    case Check(c) => LineCheck(s, c);
    case AddPeer(_) =>
    case _ => LineMoves(s, step);
  }

  /** With the single ring-buffer consumer, misses are drained in the order of the packets that
  caused them: drained, pending, carried and buffered misses together are the misses so far
  with some left out. */
  lemma {:induction false} FirstInFirstOut(steps: seq<Step>)
    ensures var s := Exec(1, steps); |s.subs| == 1 && Subsequence(Line(s), s.misses)
  {
    hide Next, Subsequence, Line;
    if steps == [] {
      NothingInLine();
    } else {
      FirstInFirstOut(steps[..|steps| - 1]);
      LineStep(Exec(1, steps[..|steps| - 1]), steps[|steps| - 1]);
    }
  }

  lemma NothingInLine()
    ensures Exec(1, []) == Init(1) && Subsequence(Line(Init(1)), Init(1).misses)
  {
    assert Line(Init(1)) == [];
  }
}
