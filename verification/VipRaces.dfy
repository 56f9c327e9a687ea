/** Connects on several processors racing with each other and with publications. A connect
takes a snapshot of the record, picks its backend, and later writes the whole snapshot back. */
module VipRaces {
  import opened Bytes
  import opened Options
  import opened Vip

  /** A processor with a write-back still to do. */
  datatype Cpu = Idle | Holding(vip: U32, info: Info)

  datatype Publication = Publication(vip: U32, info: Info)
  datatype Choice = Choice(vip: U32, backend: Backend)

  datatype State = State(
    entries: Table,
    cpus: seq<Cpu>,
    // what happened so far
    published: seq<Publication>,
    chosen: seq<Choice>)

  datatype Step =
    | Read(reader: nat, target: U32)       // snapshot, choice of the backend
    | WriteBack(writer: nat)
    | Publish(vip: U32, alive: seq<U32>)   // skipped for an empty list

  function Init(k: nat): (s: State)
  {
    State(map[], seq(k, _ => Idle), [], [])
  }

  /** What a connect that read `i` still has to write. */
  function Pending(vip: U32, i: Info): (c: Cpu)
    requires i.count > 0
  {
    if Advanced(i).nextIdx != i.nextIdx then Holding(vip, Advanced(i)) else Idle
  }

  function Next(s: State, step: Step): (r: State)
  {
    match step
    case Read(c, vip) =>
      if c < |s.cpus| && s.cpus[c].Idle? && vip in s.entries && s.entries[vip].count > 0 then
        var i := s.entries[vip];
        s.(cpus := s.cpus[c := Pending(vip, i)], chosen := s.chosen + [Choice(vip, i.backends[Slot(i)])])
      else s
    case WriteBack(c) =>
      if c < |s.cpus| && s.cpus[c].Holding?
      then s.(entries := s.entries[s.cpus[c].vip := s.cpus[c].info], cpus := s.cpus[c := Idle])
      else s
    case Publish(vip, ips) =>
      if ips == [] then s
      else s.(entries := s.entries[vip := Record(ips)], published := s.published + [Publication(vip, Record(ips))])
  }

  function ExecFrom(s: State, steps: seq<Step>): (r: State)
  {
    if steps == [] then s else Next(ExecFrom(s, steps[..|steps| - 1]), steps[|steps| - 1])
  }

  /** Without interference, snapshot and write-back together are the sequential connect. */
  lemma UndisturbedIsConnect(s: State, c: nat, vip: U32)
    requires c < |s.cpus| && s.cpus[c].Idle?
    ensures var r := Next(Next(s, Read(c, vip)), WriteBack(c));
            r.entries == Connect(s.entries, vip).1 && r.cpus == s.cpus && r.published == s.published &&
            (Connect(s.entries, vip).0.Some? ==>
               |r.chosen| == |s.chosen| + 1 && r.chosen[|s.chosen|].vip == vip &&
               Connect(s.entries, vip).0 == Some(RedirectTo(r.chosen[|s.chosen|].backend)))
  {
    if vip in s.entries && s.entries[vip].count > 0 && Pending(vip, s.entries[vip]).Idle? {
      assert Advanced(s.entries[vip]) == s.entries[vip];
      assert s.entries[vip := s.entries[vip]] == s.entries;
    }
  }

  /** The same backends, and as many of them. */
  ghost predicate SameConfig(a: Info, b: Info)
  {
    a.backends == b.backends && a.count == b.count
  }

  /** Some publication for `vip` put this configuration up. */
  ghost predicate WasPublished(ps: seq<Publication>, vip: U32, i: Info)
  {
    exists p :: p in ps && p.vip == vip && SameConfig(p.info, i)
  }

  /** A record as the program may hold it: published, nonempty, with a proper next slot. */
  ghost predicate Sound(ps: seq<Publication>, vip: U32, i: Info)
  {
    WasPublished(ps, vip, i) && 0 < i.count <= SLOTS && i.nextIdx < i.count
  }

  /** The backend is in use in some publication for `vip`. */
  ghost predicate ChoiceSound(ps: seq<Publication>, c: Choice)
  {
    exists p :: p in ps && p.vip == c.vip && c.backend in p.info.backends[..p.info.count]
  }

  ghost predicate Inv(s: State)
  {
    (forall vip :: vip in s.entries ==> Sound(s.published, vip, s.entries[vip])) &&
    (forall c :: 0 <= c < |s.cpus| && s.cpus[c].Holding? ==> Sound(s.published, s.cpus[c].vip, s.cpus[c].info)) &&
    (forall i :: 0 <= i < |s.chosen| ==> ChoiceSound(s.published, s.chosen[i]))
  }

  lemma SoundGrows(ps: seq<Publication>, p: Publication, vip: U32, i: Info)
    requires Sound(ps, vip, i)
    ensures Sound(ps + [p], vip, i)
  {
    var q :| q in ps && q.vip == vip && SameConfig(q.info, i);
    assert q in ps + [p];
  }

  lemma ChoiceGrows(ps: seq<Publication>, p: Publication, c: Choice)
    requires ChoiceSound(ps, c)
    ensures ChoiceSound(ps + [p], c)
  {
    var q :| q in ps && q.vip == c.vip && c.backend in q.info.backends[..q.info.count];
    assert q in ps + [p];
  }

  lemma RecordSound(ps: seq<Publication>, vip: U32, ips: seq<U32>)
    requires ips != []
    ensures Sound(ps + [Publication(vip, Record(ips))], vip, Record(ips))
  {
    assert Publication(vip, Record(ips)) in ps + [Publication(vip, Record(ips))];
  }

  lemma PublishKeepsInv(s: State, vip: U32, ips: seq<U32>)
    requires Inv(s) && ips != []
    ensures Inv(Next(s, Publish(vip, ips)))
  {
    hide Record, Sound, ChoiceSound;
    var r, p := Next(s, Publish(vip, ips)), Publication(vip, Record(ips));
    RecordSound(s.published, vip, ips);
    forall v | v in r.entries ensures Sound(r.published, v, r.entries[v]) {
      if v != vip { SoundGrows(s.published, p, v, s.entries[v]); }
    }
    forall c | 0 <= c < |r.cpus| && r.cpus[c].Holding? ensures Sound(r.published, r.cpus[c].vip, r.cpus[c].info) {
      SoundGrows(s.published, p, s.cpus[c].vip, s.cpus[c].info);
    }
    forall i | 0 <= i < |r.chosen| ensures ChoiceSound(r.published, r.chosen[i]) {
      ChoiceGrows(s.published, p, s.chosen[i]);
    }
  }

  /** A sound record gives a sound choice and a sound write-back. */
  lemma ReadSound(ps: seq<Publication>, vip: U32, i: Info)
    requires Sound(ps, vip, i)
    ensures Sound(ps, vip, Advanced(i)) && ChoiceSound(ps, Choice(vip, i.backends[Slot(i)]))
  {
    var p :| p in ps && p.vip == vip && SameConfig(p.info, i);
    assert SameConfig(p.info, Advanced(i));
    assert i.backends[Slot(i)] == p.info.backends[..p.info.count][Slot(i)];
  }

  lemma StepKeepsInv(s: State, step: Step)
    requires Inv(s)
    ensures Inv(Next(s, step))
  {
    hide Sound, ChoiceSound, Record;
    match step
    case Publish(vip, ips) => if ips != [] { PublishKeepsInv(s, vip, ips); }
    case Read(c, vip) => if vip in s.entries { ReadSound(s.published, vip, s.entries[vip]); }
    case WriteBack(c) =>
  }

  /** In every interleaving, every stored record has the backends and the count of some record
  published for its address, with 1 to 16 in use and a next slot below the count; and every
  backend ever chosen was in use in a publication for its address. */
  lemma {:induction false} SafeUnderRaces(k: nat, steps: seq<Step>)
    ensures Inv(ExecFrom(Init(k), steps))
  {
    if steps != [] {
      SafeUnderRaces(k, steps[..|steps| - 1]);
      StepKeepsInv(ExecFrom(Init(k), steps[..|steps| - 1]), steps[|steps| - 1]);
    }
  }

  // ----- When a publication lasts -----

  /** No processor holds a write-back of another configuration for `vip`. */
  ghost predicate NoStaleHolder(s: State, vip: U32, config: Info)
  {
    forall c :: 0 <= c < |s.cpus| && s.cpus[c].Holding? && s.cpus[c].vip == vip ==> SameConfig(s.cpus[c].info, config)
  }

  ghost predicate Publishes(steps: seq<Step>, vip: U32)
  {
    exists i :: 0 <= i < |steps| && steps[i].Publish? && steps[i].vip == vip
  }

  /** The record of `vip` has the given configuration. */
  ghost predicate Stored(s: State, vip: U32, config: Info)
  {
    vip in s.entries && SameConfig(s.entries[vip], config)
  }

  lemma StableStep(s: State, vip: U32, config: Info, step: Step)
    requires Stored(s, vip, config) && NoStaleHolder(s, vip, config)
    requires !(step.Publish? && step.vip == vip)
    ensures Stored(Next(s, step), vip, config) && NoStaleHolder(Next(s, step), vip, config)
  {
  }

  lemma {:induction false} StableRun(s: State, vip: U32, config: Info, steps: seq<Step>)
    requires Stored(s, vip, config) && NoStaleHolder(s, vip, config) && !Publishes(steps, vip)
    ensures Stored(ExecFrom(s, steps), vip, config) && NoStaleHolder(ExecFrom(s, steps), vip, config)
  {
    if steps != [] {
      var front := steps[..|steps| - 1];
      assert forall i :: 0 <= i < |front| ==> front[i] == steps[i];
      StableRun(s, vip, config, front);
      StableStep(ExecFrom(s, front), vip, config, steps[|steps| - 1]);
    }
  }

  /** Whatever runs until the next publication for `vip`, the record keeps the configuration. */
  ghost predicate Lasts(s: State, vip: U32, config: Info)
  {
    forall steps :: !Publishes(steps, vip) ==> Stored(ExecFrom(s, steps), vip, config)
  }

  /** A write-back may bring a replaced configuration back. The stored configuration is safe
  from that until the next publication if and only if no processor holds a snapshot of
  another configuration. */
  lemma LastsIff(s: State, vip: U32, config: Info)
    requires Stored(s, vip, config)
    ensures Lasts(s, vip, config) <==> NoStaleHolder(s, vip, config)
  {
    if NoStaleHolder(s, vip, config) {
      forall steps | !Publishes(steps, vip)
        ensures Stored(ExecFrom(s, steps), vip, config)
      {
        StableRun(s, vip, config, steps);
      }
    } else {
      var c :| 0 <= c < |s.cpus| && s.cpus[c].Holding? && s.cpus[c].vip == vip && !SameConfig(s.cpus[c].info, config);
      var steps := [WriteBack(c)];
      assert steps[..0] == [];
      assert ExecFrom(s, steps) == Next(s, WriteBack(c));
      assert !Publishes(steps, vip);
    }
  }

  // ----- What a publisher can tell -----

  /** Only records of two or more backends are ever written back. */
  ghost predicate HoldersHaveTwo(s: State)
  {
    forall c :: 0 <= c < |s.cpus| && s.cpus[c].Holding? ==> s.cpus[c].info.count >= 2
  }

  lemma HeldCount(vip: U32, i: Info)
    requires i.count > 0 && i.nextIdx < i.count && Pending(vip, i).Holding?
    ensures Pending(vip, i).info.count >= 2
  {
  }

  lemma HoldersHaveTwoStep(s: State, step: Step)
    requires Inv(s) && HoldersHaveTwo(s)
    ensures HoldersHaveTwo(Next(s, step))
  {
    hide Record, Slot, Advanced;
    if step.Read? && step.target in s.entries && s.entries[step.target].count > 0 {
      var i := s.entries[step.target];
      assert Sound(s.published, step.target, i);
      if Pending(step.target, i).Holding? {
        HeldCount(step.target, i);
      }
    }
  }

  lemma {:induction false} HoldersAlwaysHaveTwo(k: nat, steps: seq<Step>)
    ensures HoldersHaveTwo(ExecFrom(Init(k), steps))
  {
    hide Next, Inv;
    if steps != [] {
      var front := steps[..|steps| - 1];
      HoldersAlwaysHaveTwo(k, front);
      SafeUnderRaces(k, front);
      HoldersHaveTwoStep(ExecFrom(Init(k), front), steps[|steps| - 1]);
    }
  }

  /** The record of `vip` is the latest configuration, or has two backends or more. */
  ghost predicate LatestOrTwo(s: State, vip: U32, latest: Info)
  {
    vip in s.entries && (SameConfig(s.entries[vip], latest) || s.entries[vip].count >= 2) && HoldersHaveTwo(s)
  }

  lemma LatestOrTwoStep(s: State, vip: U32, latest: Info, step: Step)
    requires LatestOrTwo(s, vip, latest) && Inv(s) && !(step.Publish? && step.vip == vip)
    ensures LatestOrTwo(Next(s, step), vip, latest)
  {
    hide Record, Slot, Advanced, Inv;
    HoldersHaveTwoStep(s, step);
  }

  lemma {:induction false} LatestOrTwoRun(s: State, vip: U32, latest: Info, steps: seq<Step>)
    requires LatestOrTwo(s, vip, latest) && Inv(s) && !Publishes(steps, vip)
    ensures LatestOrTwo(ExecFrom(s, steps), vip, latest) && Inv(ExecFrom(s, steps))
  {
    hide Next, Inv, LatestOrTwo;
    if steps != [] {
      var front := steps[..|steps| - 1];
      assert forall i :: 0 <= i < |front| ==> front[i] == steps[i];
      LatestOrTwoRun(s, vip, latest, front);
      LatestOrTwoStep(ExecFrom(s, front), vip, latest, steps[|steps| - 1]);
      StepKeepsInv(ExecFrom(s, front), steps[|steps| - 1]);
    }
  }

  /** Some run publishes `ys` for `vip` and, without another publication for it, ends with the
  configuration of `xs` stored. */
  ghost predicate Returns(k: nat, vip: U32, xs: seq<U32>, ys: seq<U32>, before: seq<Step>, after: seq<Step>)
  {
    !Publishes(after, vip) &&
    Stored(ExecFrom(Next(ExecFrom(Init(k), before), Publish(vip, ys)), after), vip, Record(xs))
  }

  lemma ReturnNeedsTwo(k: nat, vip: U32, xs: seq<U32>, ys: seq<U32>, before: seq<Step>, after: seq<Step>)
    requires ys != [] && !SameConfig(Record(xs), Record(ys)) && Returns(k, vip, xs, ys, before, after)
    ensures |xs| >= 2
  {
    hide Next, Inv;
    var s := ExecFrom(Init(k), before);
    var t := Next(s, Publish(vip, ys));
    SafeUnderRaces(k, before);
    StepKeepsInv(s, Publish(vip, ys));
    HoldersAlwaysHaveTwo(k, before);
    HoldersHaveTwoStep(s, Publish(vip, ys));
    PublishStores(s, vip, ys);
    LatestOrTwoRun(t, vip, Record(ys), after);
  }

  lemma PublishStores(s: State, vip: U32, ys: seq<U32>)
    requires ys != []
    ensures var t := Next(s, Publish(vip, ys)); vip in t.entries && t.entries[vip] == Record(ys)
  {
  }

  /** Publish, read, publish, write back. */
  lemma TwoReturn(k: nat, vip: U32, xs: seq<U32>, ys: seq<U32>)
    requires k > 0 && |xs| >= 2 && ys != []
    ensures Returns(k, vip, xs, ys, [Publish(vip, xs), Read(0, vip)], [WriteBack(0)])
  {
    var before, s := [Publish(vip, xs), Read(0, vip)], Init(k);
    assert before[..1] == [Publish(vip, xs)] && before[..1][..0] == [];
    assert ExecFrom(s, before[..1]) == Next(s, before[0]);
    var s2 := ExecFrom(s, before);
    assert s2 == Next(Next(s, before[0]), before[1]);
    assert s2.cpus[0] == Holding(vip, Advanced(Record(xs)));
    var t := Next(s2, Publish(vip, ys));
    assert [WriteBack(0)][..0] == [];
    assert ExecFrom(t, [WriteBack(0)]) == Next(t, WriteBack(0));
  }

  /** A configuration replaced by a different one can come back, in some run, if and only if it
  has two backends or more: what a publisher can tell from the list it replaces. */
  lemma CanReturnIff(k: nat, vip: U32, xs: seq<U32>, ys: seq<U32>)
    requires k > 0 && ys != [] && !SameConfig(Record(xs), Record(ys))
    ensures (exists before, after :: Returns(k, vip, xs, ys, before, after)) <==> |xs| >= 2
  {
    hide Returns;
    if |xs| >= 2 {
      TwoReturn(k, vip, xs, ys);
    }
    forall before, after | Returns(k, vip, xs, ys, before, after)
      ensures |xs| >= 2
    {
      ReturnNeedsTwo(k, vip, xs, ys, before, after);
    }
  }
}
