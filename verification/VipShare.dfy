/** How far races can unbalance the round robin. Fix an address whose record has two slots or
more, and a run that does not publish for it. */
module VipShare {
  import opened Bytes
  import opened DivMod
  import opened Options
  import opened Vip
  import opened VipRaces

  /** The connect is performed and uses slot `slot` of `vip`. */
  ghost predicate ReadsSlot(s: State, step: Step, vip: U32, slot: nat)
  {
    step.Read? && step.target == vip && step.reader < |s.cpus| && s.cpus[step.reader].Idle? &&
    vip in s.entries && s.entries[vip].count > 0 && Slot(s.entries[vip]) == slot
  }

  /** The write-back is performed and makes `slot` the next slot of `vip`. */
  ghost predicate WritesSlot(s: State, step: Step, vip: U32, slot: nat)
  {
    step.WriteBack? && step.writer < |s.cpus| && Holds(s.cpus[step.writer], vip, slot)
  }

  ghost predicate Holds(c: Cpu, vip: U32, slot: nat)
  {
    c.Holding? && c.vip == vip && c.info.nextIdx == slot
  }

  /** Uses of a slot during a run from `s`. */
  ghost function Reads(s: State, steps: seq<Step>, vip: U32, slot: nat): (n: nat)
  {
    if steps == [] then 0
    else
      var front := steps[..|steps| - 1];
      Reads(s, front, vip, slot) + if ReadsSlot(ExecFrom(s, front), steps[|steps| - 1], vip, slot) then 1 else 0
  }

  ghost function Writes(s: State, steps: seq<Step>, vip: U32, slot: nat): (n: nat)
  {
    if steps == [] then 0
    else
      var front := steps[..|steps| - 1];
      Writes(s, front, vip, slot) + if WritesSlot(ExecFrom(s, front), steps[|steps| - 1], vip, slot) then 1 else 0
  }

  /** Processors about to make `slot` the next slot of `vip`. */
  ghost function Holders(cpus: seq<Cpu>, vip: U32, slot: nat): (n: nat)
  {
    if cpus == [] then 0 else Holders(cpus[1..], vip, slot) + if Holds(cpus[0], vip, slot) then 1 else 0
  }

  lemma {:induction false} HoldersBound(cpus: seq<Cpu>, vip: U32, slot: nat)
    ensures Holders(cpus, vip, slot) <= |cpus|
  {
    if cpus != [] {
      HoldersBound(cpus[1..], vip, slot);
    }
  }

  lemma {:induction false} HoldersUpdate(cpus: seq<Cpu>, c: nat, cpu: Cpu, vip: U32, slot: nat)
    requires c < |cpus|
    ensures Holders(cpus[c := cpu], vip, slot) + (if Holds(cpus[c], vip, slot) then 1 else 0) ==
            Holders(cpus, vip, slot) + if Holds(cpu, vip, slot) then 1 else 0
  {
    hide Holds;
    if c == 0 {
      assert cpus[c := cpu][1..] == cpus[1..];
    } else {
      HoldersUpdate(cpus[1..], c - 1, cpu, vip, slot);
      assert cpus[c := cpu][1..] == cpus[1..][c - 1 := cpu];
    }
  }

  /** The slot after and the slot before, in a cycle of `n`. */
  function After1(slot: nat, n: nat): (r: nat)
  {
    if slot + 1 == n then 0 else slot + 1
  }

  function Before1(slot: nat, n: nat): (r: nat)
    requires n > 0
  {
    if slot == 0 then n - 1 else slot - 1
  }

  /** The record of `vip` and all its held snapshots have the configuration and proper slots. */
  ghost predicate Settled(s: State, vip: U32, config: Info)
  {
    config.count >= 2 && Stored(s, vip, config) && NoStaleHolder(s, vip, config) &&
    s.entries[vip].nextIdx < config.count &&
    forall c :: 0 <= c < |s.cpus| && s.cpus[c].Holding? && s.cpus[c].vip == vip ==> s.cpus[c].info.nextIdx < config.count
  }

  lemma AdvancedNext(i: Info)
    requires i.count >= 2 && i.nextIdx < i.count
    ensures Slot(i) == i.nextIdx && Advanced(i).nextIdx == After1(i.nextIdx, i.count) != i.nextIdx
  {
    ModUnique(i.nextIdx, 0, i.nextIdx, i.count);
    if i.nextIdx + 1 < i.count {
      ModUnique(i.nextIdx + 1, 0, i.nextIdx + 1, i.count);
    } else {
      ModUnique(i.nextIdx + 1, 1, 0, i.count);
    }
  }

  lemma SettledStep(s: State, vip: U32, config: Info, step: Step)
    requires Settled(s, vip, config) && !(step.Publish? && step.vip == vip)
    ensures Settled(Next(s, step), vip, config) && |Next(s, step).cpus| == |s.cpus|
  {
    hide Record, Slot;
    StableStep(s, vip, config, step);
    AdvancedNext(s.entries[vip]);
  }

  lemma {:induction false} SettledRun(s: State, vip: U32, config: Info, steps: seq<Step>)
    requires Settled(s, vip, config) && !Publishes(steps, vip)
    ensures Settled(ExecFrom(s, steps), vip, config) && |ExecFrom(s, steps).cpus| == |s.cpus|
  {
    hide Next, Settled;
    if steps != [] {
      var front := steps[..|steps| - 1];
      assert forall i :: 0 <= i < |front| ==> front[i] == steps[i];
      SettledRun(s, vip, config, front);
      SettledStep(ExecFrom(s, front), vip, config, steps[|steps| - 1]);
    }
  }

  // ----- What one step does to a slot -----

  /** A connect moves its processor to the holders of the next slot; a write-back removes its
  processor from the holders of the slot it writes and makes that slot current. */
  lemma SlotStep(s: State, vip: U32, config: Info, step: Step, slot: nat)
    requires Settled(s, vip, config) && !(step.Publish? && step.vip == vip) && slot < config.count
    requires vip in Next(s, step).entries
    ensures var n, r, cur := config.count, Next(s, step), s.entries[vip].nextIdx;
            Holders(r.cpus, vip, slot) + (if WritesSlot(s, step, vip, slot) then 1 else 0) ==
            Holders(s.cpus, vip, slot) + (if ReadsSlot(s, step, vip, Before1(slot, n)) then 1 else 0) &&
            (ReadsSlot(s, step, vip, slot) ==> cur == slot && r.entries[vip].nextIdx == slot) &&
            (WritesSlot(s, step, vip, slot) ==> r.entries[vip].nextIdx == slot) &&
            (r.entries[vip].nextIdx != cur ==> WritesSlot(s, step, vip, r.entries[vip].nextIdx))
  {
    hide Record, Slot;
    var i := s.entries[vip];
    AdvancedNext(i);
    match step
    case Read(c, target) =>
      if c < |s.cpus| && s.cpus[c].Idle? && target in s.entries && s.entries[target].count > 0 {
        HoldersUpdate(s.cpus, c, Pending(target, s.entries[target]), vip, slot);
      }
    case WriteBack(c) =>
      if c < |s.cpus| && s.cpus[c].Holding? {
        HoldersUpdate(s.cpus, c, Idle, vip, slot);
      }
    case Publish(_, _) =>
  }

  // ----- Over a run -----

  /** How often the slot became current: by a write-back, or by being the first one. */
  ghost function Turns(s: State, steps: seq<Step>, vip: U32, slot: nat): (n: nat)
    requires vip in s.entries
  {
    Writes(s, steps, vip, slot) + if s.entries[vip].nextIdx == slot then 1 else 0
  }

  /** In every turn but the current one a slot is used at most once a processor, and in the
  current one at most as often as there are processors waiting to end it. */
  ghost predicate TurnBound(s: State, steps: seq<Step>, vip: U32, slot: nat, n: nat)
    requires vip in s.entries && vip in ExecFrom(s, steps).entries
  {
    var r, k := ExecFrom(s, steps), |s.cpus|;
    if r.entries[vip].nextIdx == slot
    then Reads(s, steps, vip, slot) + k <= k * Turns(s, steps, vip, slot) + Holders(r.cpus, vip, After1(slot, n))
    else Reads(s, steps, vip, slot) <= k * Turns(s, steps, vip, slot)
  }

  /** Every write-back of a slot stems from a use of the slot before it. */
  lemma {:induction false} WritesComeFromReads(s: State, steps: seq<Step>, vip: U32, config: Info, slot: nat)
    requires Settled(s, vip, config) && !Publishes(steps, vip) && slot < config.count
    ensures Writes(s, steps, vip, slot) + Holders(ExecFrom(s, steps).cpus, vip, slot) ==
            Reads(s, steps, vip, Before1(slot, config.count)) + Holders(s.cpus, vip, slot)
  {
    hide Next, Settled, ReadsSlot, WritesSlot, Holders;
    if steps != [] {
      var front, step := steps[..|steps| - 1], steps[|steps| - 1];
      assert forall i :: 0 <= i < |front| ==> front[i] == steps[i];
      WritesComeFromReads(s, front, vip, config, slot);
      SettledRun(s, vip, config, front);
      SettledStep(ExecFrom(s, front), vip, config, step);
      SettledStored(Next(ExecFrom(s, front), step), vip, config);
      SlotStep(ExecFrom(s, front), vip, config, step, slot);
    }
  }

  lemma SettledStored(s: State, vip: U32, config: Info)
    requires Settled(s, vip, config)
    ensures vip in s.entries && s.entries[vip].nextIdx < config.count && config.count >= 2
  {
  }

  lemma MulSucc(k: nat, e: nat)
    ensures k * (e + 1) == k * e + k
  {
  }

  lemma MulMonotone(k: nat, d: nat, e: nat)
    requires d <= e
    ensures k * d <= k * e
  {
  }

  lemma {:induction false} TurnBoundHolds(s: State, steps: seq<Step>, vip: U32, config: Info, slot: nat)
    requires Settled(s, vip, config) && !Publishes(steps, vip) && slot < config.count
    ensures vip in s.entries && vip in ExecFrom(s, steps).entries
    ensures TurnBound(s, steps, vip, slot, config.count)
  {
    hide Next, Settled, ReadsSlot, WritesSlot, Holders;
    SettledStored(s, vip, config);
    if steps == [] {
      assert Turns(s, [], vip, slot) <= 1;
    } else {
      var front, step := steps[..|steps| - 1], steps[|steps| - 1];
      assert forall i :: 0 <= i < |front| ==> front[i] == steps[i];
      TurnBoundHolds(s, front, vip, config, slot);
      SettledRun(s, vip, config, front);
      var q := ExecFrom(s, front);
      SettledStored(q, vip, config);
      SettledStep(q, vip, config, step);
      SettledStored(Next(q, step), vip, config);
      TurnStep(q, vip, config, step, slot, |s.cpus|, Reads(s, front, vip, slot), Turns(s, front, vip, slot));
    }
  }

  /** The bound survives one step; `uses` and `turns` are the counts before it. */
  lemma TurnStep(q: State, vip: U32, config: Info, step: Step, slot: nat, k: nat, uses: nat, turns: nat)
    requires Settled(q, vip, config) && !(step.Publish? && step.vip == vip) && slot < config.count
    requires vip in Next(q, step).entries && |q.cpus| == k
    requires if q.entries[vip].nextIdx == slot then uses + k <= k * turns + Holders(q.cpus, vip, After1(slot, config.count))
             else uses <= k * turns
    ensures var r := Next(q, step);
            var uses' := uses + if ReadsSlot(q, step, vip, slot) then 1 else 0;
            var turns' := turns + if WritesSlot(q, step, vip, slot) then 1 else 0;
            if r.entries[vip].nextIdx == slot then uses' + k <= k * turns' + Holders(r.cpus, vip, After1(slot, config.count))
            else uses' <= k * turns'
  {
    hide Next, ReadsSlot, WritesSlot, Holders;
    var next := After1(slot, config.count);
    assert Before1(next, config.count) == slot;
    HoldersBound(q.cpus, vip, next);
    SlotStep(q, vip, config, step, slot);
    SlotStep(q, vip, config, step, next);
    MulSucc(k, turns);
    OneKind(q, step, vip, slot);
    OneKind2(q, step, vip, slot, next);
  }

  lemma OneKind(q: State, step: Step, vip: U32, slot: nat)
    ensures !(ReadsSlot(q, step, vip, slot) && WritesSlot(q, step, vip, slot))
  {
  }

  lemma OneKind2(q: State, step: Step, vip: U32, slot: nat, next: nat)
    requires slot != next
    ensures !(WritesSlot(q, step, vip, slot) && WritesSlot(q, step, vip, next))
    ensures !(ReadsSlot(q, step, vip, slot) && WritesSlot(q, step, vip, next))
  {
  }

  /** With k processors, in every interleaving that does not publish for the address, a slot is
  used at most k times for each use of the slot before it, each write-back of it already under
  way at the start, and its own first turn if it starts. No slot starves its neighbour. */
  lemma RaceShareBound(s: State, steps: seq<Step>, vip: U32, config: Info, slot: nat)
    requires Settled(s, vip, config) && !Publishes(steps, vip) && slot < config.count
    ensures vip in s.entries
    ensures Reads(s, steps, vip, slot) <=
            |s.cpus| * (Reads(s, steps, vip, Before1(slot, config.count)) + Holders(s.cpus, vip, slot) +
                        if s.entries[vip].nextIdx == slot then 1 else 0)
  {
    hide Next, Settled, Reads, Writes, Holders;
    var r, k := ExecFrom(s, steps), |s.cpus|;
    SettledRun(s, vip, config, steps);
    TurnBoundHolds(s, steps, vip, config, slot);
    HoldersBound(r.cpus, vip, After1(slot, config.count));
    WritesComeFromReads(s, steps, vip, config, slot);
    MulMonotone(k, Turns(s, steps, vip, slot),
                Reads(s, steps, vip, Before1(slot, config.count)) + Holders(s.cpus, vip, slot) +
                if s.entries[vip].nextIdx == slot then 1 else 0);
  }

  // ----- After a publication -----

  /** No processor has a write-back for `vip` to do. */
  ghost predicate Quiet(s: State, vip: U32)
  {
    forall c :: 0 <= c < |s.cpus| && s.cpus[c].Holding? ==> s.cpus[c].vip != vip
  }

  lemma {:induction false} QuietHasNoHolders(cpus: seq<Cpu>, vip: U32, slot: nat)
    requires forall c :: 0 <= c < |cpus| && cpus[c].Holding? ==> cpus[c].vip != vip
    ensures Holders(cpus, vip, slot) == 0
  {
    if cpus != [] {
      QuietHasNoHolders(cpus[1..], vip, slot);
    }
  }

  /** Once two or more backends are published while no write-back for the address is under way,
  each slot but the first gets at most k times the uses of the slot before it, and the first
  one at most k times more than that, until the next publication. */
  lemma ShareAfterPublication(s: State, vip: U32, ips: seq<U32>, steps: seq<Step>, slot: nat)
    requires Quiet(s, vip) && |ips| >= 2 && slot < Record(ips).count && !Publishes(steps, vip)
    ensures var t := Next(s, Publish(vip, ips));
            Reads(t, steps, vip, slot) <=
            |s.cpus| * (Reads(t, steps, vip, Before1(slot, Record(ips).count)) + if slot == 0 then 1 else 0)
  {
    var t := Next(s, Publish(vip, ips));
    assert Settled(t, vip, Record(ips));
    RaceShareBound(t, steps, vip, Record(ips), slot);
    QuietHasNoHolders(t.cpus, vip, slot);
  }

  /** The first `n` processors connect to `vip`, and none has written back yet. */
  function ReadAll(vip: U32, n: nat): (steps: seq<Step>)
  {
    if n == 0 then [] else ReadAll(vip, n - 1) + [Read(n - 1, vip)]
  }

  lemma {:induction false} AllReadTheSame(s: State, vip: U32, config: Info, n: nat)
    requires Settled(s, vip, config) && n <= |s.cpus| && forall c :: 0 <= c < |s.cpus| ==> s.cpus[c].Idle?
    ensures var r := ExecFrom(s, ReadAll(vip, n));
            r.entries == s.entries && |r.cpus| == |s.cpus| && forall c :: n <= c < |s.cpus| ==> r.cpus[c].Idle?
    ensures forall slot :: Reads(s, ReadAll(vip, n), vip, slot) == if slot == s.entries[vip].nextIdx then n else 0
  {
    if n > 0 {
      AllReadTheSame(s, vip, config, n - 1);
      assert ReadAll(vip, n)[..|ReadAll(vip, n)| - 1] == ReadAll(vip, n - 1);
      AdvancedNext(s.entries[vip]);
    }
  }

  /** The bound is attained: from rest, all k processors may get the current slot while no other
  slot is used. */
  lemma RaceShareAttained(s: State, vip: U32, config: Info)
    requires Settled(s, vip, config) && forall c :: 0 <= c < |s.cpus| ==> s.cpus[c].Idle?
    ensures var steps, cur := ReadAll(vip, |s.cpus|), s.entries[vip].nextIdx;
            Reads(s, steps, vip, cur) == |s.cpus| && Reads(s, steps, vip, Before1(cur, config.count)) == 0
  {
    AllReadTheSame(s, vip, config, |s.cpus|);
  }
}
