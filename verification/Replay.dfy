/** Duplicate suppression: what the receiver decides about every datagram of a run.

A run is a sequence of arrivals, each with the clock value read while it is
handled. Unless a lemma asks for `Monotone`, the clock is arbitrary. */
module Replay {
  import opened Bytes
  import opened Frame

  const REPLAY_WINDOW_SECS := 300

  datatype Entry = Entry(nonce: string, time: U64)
  type Table = seq<Entry>

  function AbsDiff(a: U64, b: U64): (d: U64)
  {
    if a < b then b - a else a - b
  }

  function SaturatingSub(a: U64, b: U64): (d: U64)
  {
    if a < b then 0 else a - b
  }

  function Cutoff(now: U64): (c: U64)
  {
    SaturatingSub(now, REPLAY_WINDOW_SECS)
  }

  /** `Vec::retain(|(_, t)| t > cutoff)`. */
  function Retain(t: Table, cutoff: U64): (r: Table)
  {
    if t == [] then []
    else (if t[0].time > cutoff then [t[0]] else []) + Retain(t[1..], cutoff)
  }

  predicate Contains(t: Table, nonce: string)
  {
    exists e :: e in t && e.nonce == nonce
  }

  predicate InWindow(ts: U64, now: U64)
  {
    AbsDiff(ts, now) <= REPLAY_WINDOW_SECS
  }

  /** The decision on a header and the table it leaves behind. */
  function CheckNonce(t: Table, h: Header, now: U64): (r: (bool, Table))
  {
    if !InWindow(Timestamp(h), now) then (false, t)
    else
      var kept := Retain(t, Cutoff(now));
      var nonce := Hex(NonceOf(h));
      if Contains(kept, nonce) then (false, kept) else (true, kept + [Entry(nonce, now)])
  }

  datatype Arrival = Arrival(bytes: seq<byte>, now: U64)

  /** Whether a datagram is delivered, and the table after it. */
  function Receive(sign: Mac, t: Table, a: Arrival): (r: (bool, Table))
    ensures r.0 ==> |a.bytes| >= MIN_MESSAGE_SIZE
  {
    if Authentic(sign, a.bytes) then CheckNonce(t, HeaderSlice(a.bytes), a.now) else (false, t)
  }

  // ----- Runs -----

  function TableAt(sign: Mac, run: seq<Arrival>, j: nat): (t: Table)
    requires j <= |run|
  {
    if j == 0 then [] else Receive(sign, TableAt(sign, run, j - 1), run[j - 1]).1
  }

  /** Arrival `j` of the run is delivered. */
  predicate Accepts(sign: Mac, run: seq<Arrival>, j: nat)
    requires j < |run|
  {
    Receive(sign, TableAt(sign, run, j), run[j]).0
  }

  /** An arrival that reaches the duplicate test, and hence prunes the table. */
  predicate Checked(sign: Mac, a: Arrival)
  {
    Authentic(sign, a.bytes) && InWindow(Timestamp(HeaderSlice(a.bytes)), a.now)
  }

  ghost predicate SameNonce(a: Arrival, b: Arrival)
    requires |a.bytes| >= MIN_MESSAGE_SIZE && |b.bytes| >= MIN_MESSAGE_SIZE
  {
    NonceOf(HeaderSlice(a.bytes)) == NonceOf(HeaderSlice(b.bytes))
  }

  function EntryOf(a: Arrival): (e: Entry)
    requires |a.bytes| >= MIN_MESSAGE_SIZE
  {
    Entry(Hex(NonceOf(HeaderSlice(a.bytes))), a.now)
  }

  ghost predicate Monotone(run: seq<Arrival>)
  {
    forall i, j :: 0 <= i <= j < |run| ==> run[i].now <= run[j].now
  }

  /** The clock of the run never shows the epoch second 0 or less than `start`. */
  ghost predicate ClockFrom(run: seq<Arrival>, start: U64)
  {
    forall i :: 0 <= i < |run| ==> run[i].now >= start
  }

  lemma {:induction false} RetainMembers(t: Table, cutoff: U64, e: Entry)
    ensures e in Retain(t, cutoff) <==> e in t && e.time > cutoff
  {
    if t != [] {
      RetainMembers(t[1..], cutoff, e);
      assert e in t <==> e == t[0] || e in t[1..];
    }
  }

  lemma AcceptedIsChecked(sign: Mac, run: seq<Arrival>, j: nat)
    requires j < |run| && Accepts(sign, run, j)
    ensures Checked(sign, run[j])
  {
  }

  // ----- The pruned table, for arbitrary clocks -----

  /** No pruning after the acceptance at `i` and before arrival `j` removes its entry. */
  ghost predicate Survives(sign: Mac, run: seq<Arrival>, i: nat, j: nat)
    requires i < |run| && j <= |run|
  {
    forall k :: i < k < j && Checked(sign, run[k]) ==> run[i].now > Cutoff(run[k].now)
  }

  /** Arrival `i` put entry `e` into the table that arrival `j` finds. */
  ghost predicate Origin(sign: Mac, run: seq<Arrival>, i: nat, j: nat, e: Entry)
    requires j <= |run|
  {
    i < j && Accepts(sign, run, i) && e == EntryOf(run[i]) && Survives(sign, run, i, j)
  }

  ghost predicate Kept(sign: Mac, a: Arrival, e: Entry)
  {
    Checked(sign, a) ==> e.time > Cutoff(a.now)
  }

  /** One arrival keeps the entries its pruning spares, and adds its own if delivered. */
  lemma ReceiveMembers(sign: Mac, t: Table, a: Arrival, e: Entry)
    ensures e in Receive(sign, t, a).1 <==>
            (e in t && Kept(sign, a, e)) || (Receive(sign, t, a).0 && e == EntryOf(a))
  {
    RetainMembers(t, Cutoff(a.now), e);
  }

  lemma {:induction false} EntryHasOrigin(sign: Mac, run: seq<Arrival>, j: nat, e: Entry) returns (i: nat)
    requires j <= |run| && e in TableAt(sign, run, j)
    ensures Origin(sign, run, i, j, e)
  {
    hide Receive;
    ReceiveMembers(sign, TableAt(sign, run, j - 1), run[j - 1], e);
    if e in TableAt(sign, run, j - 1) && Kept(sign, run[j - 1], e) {
      i := EntryHasOrigin(sign, run, j - 1, e);
    } else {
      i := j - 1;
    }
  }

  lemma {:induction false} OriginKeepsEntry(sign: Mac, run: seq<Arrival>, i: nat, j: nat, e: Entry)
    requires j <= |run| && Origin(sign, run, i, j, e)
    ensures e in TableAt(sign, run, j)
  {
    ReceiveMembers(sign, TableAt(sign, run, j - 1), run[j - 1], e);
    if i < j - 1 {
      OriginKeepsEntry(sign, run, i, j - 1, e);
    }
  }

  /** An earlier acceptance that makes arrival `j` a duplicate. */
  ghost predicate Blocks(sign: Mac, run: seq<Arrival>, i: nat, j: nat)
    requires j < |run| && Authentic(sign, run[j].bytes)
  {
    i < j && Accepts(sign, run, i) && SameNonce(run[i], run[j]) && Survives(sign, run, i, j + 1)
  }

  lemma BlockedIsRejected(sign: Mac, run: seq<Arrival>, i: nat, j: nat)
    requires j < |run| && Checked(sign, run[j]) && Blocks(sign, run, i, j)
    ensures !Accepts(sign, run, j)
  {
    var e := EntryOf(run[i]);
    OriginKeepsEntry(sign, run, i, j, e);
    RetainMembers(TableAt(sign, run, j), Cutoff(run[j].now), e);
  }

  /** A rejected arrival that got as far as the table was stopped by an unpruned entry. */
  lemma RejectedByEntry(sign: Mac, t: Table, a: Arrival) returns (e: Entry)
    requires Checked(sign, a) && !Receive(sign, t, a).0
    ensures e in t && e.nonce == Hex(NonceOf(HeaderSlice(a.bytes))) && e.time > Cutoff(a.now)
  {
    var cutoff := Cutoff(a.now);
    e :| e in Retain(t, cutoff) && e.nonce == Hex(NonceOf(HeaderSlice(a.bytes)));
    RetainMembers(t, cutoff, e);
  }

  lemma RejectedIsBlocked(sign: Mac, run: seq<Arrival>, j: nat) returns (i: nat)
    requires j < |run| && Checked(sign, run[j]) && !Accepts(sign, run, j)
    ensures Blocks(sign, run, i, j)
  {
    hide Receive, TableAt, Hex;
    var e := RejectedByEntry(sign, TableAt(sign, run, j), run[j]);
    i := EntryHasOrigin(sign, run, j, e);
    NonceStringsDecideBytes(HeaderSlice(run[i].bytes), HeaderSlice(run[j].bytes));
  }

  /** For every run, whatever its clock does: an arrival is delivered exactly when it is
  authentic, in the window, and no delivered arrival of its nonce has survived all prunings. */
  lemma AcceptIff(sign: Mac, run: seq<Arrival>, j: nat)
    requires j < |run|
    ensures Accepts(sign, run, j) <==>
            Checked(sign, run[j]) && !exists i :: Blocks(sign, run, i, j)
  {
    if Checked(sign, run[j]) {
      if i :| Blocks(sign, run, i, j) {
        BlockedIsRejected(sign, run, i, j);
      } else if !Accepts(sign, run, j) {
        var i := RejectedIsBlocked(sign, run, j);
      }
    }
  }

  /** When the table forgets, for any clock. If `i` is the only delivery of its nonce before
  `j`, then `j`, authentic and in the window, is delivered as well if and only if some check
  after `i`, up to that of `j` itself, read a clock a window or more beyond the delivery's. */
  lemma ForgottenIff(sign: Mac, run: seq<Arrival>, i: nat, j: nat)
    requires i < j < |run| && Checked(sign, run[j])
    requires Accepts(sign, run, i) && SameNonce(run[i], run[j])
    requires forall k :: 0 <= k < j && k != i && Accepts(sign, run, k) ==> !SameNonce(run[k], run[j])
    ensures Accepts(sign, run, j) <==>
            exists k :: i < k <= j && Checked(sign, run[k]) && run[i].now <= Cutoff(run[k].now)
  {
    AcceptIff(sign, run, j);
    assert Blocks(sign, run, i, j) <==> Survives(sign, run, i, j + 1);
    assert forall k :: Blocks(sign, run, k, j) ==> k == i;
  }

  // ----- Nondecreasing clocks: a receiver that never forgets makes the same decision -----

  /** The nonce was accepted less than a window ago. */
  predicate Recent(t: Table, nonce: string, now: U64)
  {
    exists e :: e in t && e.nonce == nonce && e.time + 300 > now
  }

  /** A receiver without pruning: it keeps every acceptance and looks at its age. */
  function ReceiveUnpruned(sign: Mac, t: Table, a: Arrival): (r: (bool, Table))
    ensures r.0 ==> |a.bytes| >= MIN_MESSAGE_SIZE
  {
    if Checked(sign, a) && !Recent(t, EntryOf(a).nonce, a.now) then (true, t + [EntryOf(a)]) else (false, t)
  }

  function FullTableAt(sign: Mac, run: seq<Arrival>, j: nat): (t: Table)
    requires j <= |run|
  {
    if j == 0 then [] else ReceiveUnpruned(sign, FullTableAt(sign, run, j - 1), run[j - 1]).1
  }

  predicate AcceptsUnpruned(sign: Mac, run: seq<Arrival>, j: nat)
    requires j < |run|
  {
    ReceiveUnpruned(sign, FullTableAt(sign, run, j), run[j]).0
  }

  /** The receiver decides on every arrival as the one without pruning does on its own run. */
  ghost predicate MatchesUnpruned(sign: Mac, run: seq<Arrival>)
  {
    forall j :: 0 <= j < |run| ==> (Accepts(sign, run, j) <==> AcceptsUnpruned(sign, run, j))
  }

  lemma {:induction false} FullEntryHasOrigin(sign: Mac, run: seq<Arrival>, j: nat, e: Entry) returns (i: nat)
    requires j <= |run| && e in FullTableAt(sign, run, j)
    ensures i < j && AcceptsUnpruned(sign, run, i) && e == EntryOf(run[i])
  {
    if e in FullTableAt(sign, run, j - 1) {
      i := FullEntryHasOrigin(sign, run, j - 1, e);
    } else {
      i := j - 1;
    }
  }

  lemma {:induction false} FullTableKeeps(sign: Mac, run: seq<Arrival>, i: nat, j: nat)
    requires i < j <= |run| && AcceptsUnpruned(sign, run, i)
    ensures EntryOf(run[i]) in FullTableAt(sign, run, j)
  {
    if i < j - 1 {
      FullTableKeeps(sign, run, i, j - 1);
    }
  }

  /** An earlier acceptance of the nonce of `j`, less than a window ago. */
  ghost predicate RecentlyAccepted(sign: Mac, run: seq<Arrival>, i: nat, j: nat)
    requires j < |run| && Authentic(sign, run[j].bytes)
  {
    i < j && Accepts(sign, run, i) && SameNonce(run[i], run[j]) && run[i].now + REPLAY_WINDOW_SECS > run[j].now
  }

  lemma BlocksIffRecent(sign: Mac, run: seq<Arrival>, i: nat, j: nat)
    requires Monotone(run) && ClockFrom(run, 1)
    requires i < j < |run| && Checked(sign, run[j])
    requires Accepts(sign, run, i) && SameNonce(run[i], run[j])
    ensures Blocks(sign, run, i, j) <==> run[i].now + REPLAY_WINDOW_SECS > run[j].now
  {
    if run[i].now + REPLAY_WINDOW_SECS > run[j].now {
      forall k | i < k < j + 1
        ensures run[i].now > Cutoff(run[k].now)
      {
        assert run[k].now <= run[j].now;
      }
    }
  }

  /** The decision in terms of the receiver's own acceptances. */
  lemma AcceptIffNotRecent(sign: Mac, run: seq<Arrival>, j: nat)
    requires Monotone(run) && ClockFrom(run, 1) && j < |run|
    ensures Accepts(sign, run, j) <==>
            Checked(sign, run[j]) && !exists i :: RecentlyAccepted(sign, run, i, j)
  {
    AcceptIff(sign, run, j);
    if Checked(sign, run[j]) {
      forall i | 0 <= i < j && Accepts(sign, run, i) && SameNonce(run[i], run[j])
        ensures Blocks(sign, run, i, j) <==> RecentlyAccepted(sign, run, i, j)
      {
        BlocksIffRecent(sign, run, i, j);
      }
    }
  }

  /** If both receivers agree so far, the full table is recent for `j` exactly when the pruning
  receiver accepted the nonce recently. */
  lemma {:induction false} RecentIffAccepted(sign: Mac, run: seq<Arrival>, j: nat)
    requires j < |run| && Authentic(sign, run[j].bytes)
    requires forall i :: 0 <= i < j ==> (Accepts(sign, run, i) <==> AcceptsUnpruned(sign, run, i))
    ensures Recent(FullTableAt(sign, run, j), EntryOf(run[j]).nonce, run[j].now) <==>
            exists i :: RecentlyAccepted(sign, run, i, j)
  {
    hide Receive, ReceiveUnpruned;
    var t, nonce, now := FullTableAt(sign, run, j), EntryOf(run[j]).nonce, run[j].now;
    if Recent(t, nonce, now) {
      var e :| e in t && e.nonce == nonce && e.time + 300 > now;
      var i := FullEntryHasOrigin(sign, run, j, e);
      NonceStringsDecideBytes(HeaderSlice(run[i].bytes), HeaderSlice(run[j].bytes));
      assert RecentlyAccepted(sign, run, i, j);
    }
    forall i: nat | RecentlyAccepted(sign, run, i, j)
      ensures Recent(t, nonce, now)
    {
      FullTableKeeps(sign, run, i, j);
      assert EntryOf(run[i]) in t;
    }
  }

  lemma {:induction false} DecisionsAgree(sign: Mac, run: seq<Arrival>, n: nat)
    requires Monotone(run) && ClockFrom(run, 1) && n <= |run|
    ensures forall j :: 0 <= j < n ==> (Accepts(sign, run, j) <==> AcceptsUnpruned(sign, run, j))
  {
    hide Receive;
    if n > 0 {
      DecisionsAgree(sign, run, n - 1);
      AcceptIffNotRecent(sign, run, n - 1);
      if Checked(sign, run[n - 1]) {
        RecentIffAccepted(sign, run, n - 1);
      }
    }
  }

  /** The pruned table refines the full history: whole runs are decided alike. */
  lemma PrunedTableRefinesHistory(sign: Mac, run: seq<Arrival>)
    requires Monotone(run) && ClockFrom(run, 1)
    ensures MatchesUnpruned(sign, run)
  {
    DecisionsAgree(sign, run, |run|);
  }

  /** The lower bound 1 on the clock cannot be weakened: at second 0 the saturated cutoff
  drops an entry that was accepted in the same second. */
  lemma ClockBoundIsExact(sign: Mac, start: U64)
    ensures (forall run :: Monotone(run) && ClockFrom(run, start) ==> MatchesUnpruned(sign, run))
            <==> start >= 1
  {
    if start >= 1 {
      forall run | Monotone(run) && ClockFrom(run, start)
        ensures MatchesUnpruned(sign, run)
      {
        assert ClockFrom(run, 1);
        PrunedTableRefinesHistory(sign, run);
      }
    } else {
      var a := EpochArrival(sign);
      var run := [a, a];
      EpochRepeats(sign, a);
      assert Monotone(run) && ClockFrom(run, start);
      assert !MatchesUnpruned(sign, run);
    }
  }

  lemma EpochRepeats(sign: Mac, a: Arrival)
    requires a.now == 0 && Checked(sign, a)
    ensures Accepts(sign, [a, a], 1) && !AcceptsUnpruned(sign, [a, a], 1)
  {
    var run := [a, a];
    AcceptIff(sign, run, 1);
    assert FullTableAt(sign, run, 0) == [];
    assert FullTableAt(sign, run, 1) == [EntryOf(a)];
    assert EntryOf(a) in FullTableAt(sign, run, 1);
  }

  ghost function EpochArrival(sign: Mac): (a: Arrival)
    ensures a.now == 0 && Checked(sign, a)
  {
    var m := Message(0, seq(8, _ => 0), []);
    UnmarshalMarshal(sign, m);
    Arrival(Marshal(sign, m), 0)
  }

  // ----- Duplicates over whole runs -----

  /** Two deliveries of one nonce are at least the window apart. */
  lemma DeliveriesAreSpaced(sign: Mac, run: seq<Arrival>, i: nat, j: nat)
    requires Monotone(run) && ClockFrom(run, 1)
    requires i < j < |run| && Accepts(sign, run, i) && Accepts(sign, run, j)
    requires SameNonce(run[i], run[j])
    ensures run[i].now + 300 <= run[j].now
  {
    AcceptIffNotRecent(sign, run, j);
    assert !RecentlyAccepted(sign, run, i, j);
  }

  ghost predicate HasHeader(a: Arrival, h: Header)
  {
    |a.bytes| >= MIN_MESSAGE_SIZE && HeaderSlice(a.bytes) == h
  }

  /** A header delivered twice was stamped no earlier than its first delivery. */
  lemma SecondDelivery(sign: Mac, run: seq<Arrival>, i: nat, j: nat, h: Header)
    requires Monotone(run) && ClockFrom(run, 1)
    requires i < j < |run| && HasHeader(run[i], h) && HasHeader(run[j], h)
    requires Accepts(sign, run, i) && Accepts(sign, run, j)
    ensures run[i].now <= Timestamp(h) && run[i].now + REPLAY_WINDOW_SECS <= run[j].now
  {
    DeliveriesAreSpaced(sign, run, i, j);
    AcceptedIsChecked(sign, run, j);
  }

  /** A header stamped before the second of its delivery is never delivered again. */
  lemma PastHeaderIsFinal(sign: Mac, run: seq<Arrival>, i: nat, j: nat, h: Header)
    requires Monotone(run) && ClockFrom(run, 1)
    requires i < j < |run| && HasHeader(run[i], h) && HasHeader(run[j], h)
    requires Accepts(sign, run, i) && Timestamp(h) < run[i].now
    ensures !Accepts(sign, run, j)
  {
    if Accepts(sign, run, j) {
      SecondDelivery(sign, run, i, j, h);
    }
  }

  /** Number of deliveries of header `h` among the first `j` arrivals. */
  ghost function DeliveryCount(sign: Mac, run: seq<Arrival>, h: Header, j: nat): (n: nat)
    requires j <= |run|
  {
    if j == 0 then 0
    else DeliveryCount(sign, run, h, j - 1) +
         if Accepts(sign, run, j - 1) && HasHeader(run[j - 1], h) then 1 else 0
  }

  /** The last delivery of `h` lies a window later for each delivery before it. */
  lemma {:induction false} LastDelivery(sign: Mac, run: seq<Arrival>, h: Header, j: nat) returns (i: nat)
    requires Monotone(run) && ClockFrom(run, 1)
    requires j <= |run| && DeliveryCount(sign, run, h, j) > 0
    ensures i < j && Accepts(sign, run, i) && HasHeader(run[i], h)
    ensures run[i].now >= Timestamp(h) - 300 + 300 * (DeliveryCount(sign, run, h, j) - 1)
    ensures run[i].now >= 1 + 300 * (DeliveryCount(sign, run, h, j) - 1)
  {
    hide Receive, Timestamp;
    if Accepts(sign, run, j - 1) && HasHeader(run[j - 1], h) {
      AcceptedIsChecked(sign, run, j - 1);
      if DeliveryCount(sign, run, h, j - 1) > 0 {
        var k := LastDelivery(sign, run, h, j - 1);
        SecondDelivery(sign, run, k, j - 1, h);
      }
      i := j - 1;
    } else {
      i := LastDelivery(sign, run, h, j - 1);
    }
  }

  /** No header is delivered more than three times in any run. */
  lemma AtMostThreeDeliveries(sign: Mac, run: seq<Arrival>, h: Header)
    requires Monotone(run) && ClockFrom(run, 1)
    ensures DeliveryCount(sign, run, h, |run|) <= 3
  {
    if DeliveryCount(sign, run, h, |run|) > 0 {
      var i := LastDelivery(sign, run, h, |run|);
    }
  }

  /** One frame arriving at both ends of its window and in the middle. */
  function ThreeArrivals(sign: Mac, m: Message): (run: seq<Arrival>)
    requires REPLAY_WINDOW_SECS < m.time <= U64_MAX - REPLAY_WINDOW_SECS
  {
    var f := Marshal(sign, m);
    [Arrival(f, m.time - REPLAY_WINDOW_SECS), Arrival(f, m.time), Arrival(f, m.time + REPLAY_WINDOW_SECS)]
  }

  lemma ThreeArrivalsDelivered(sign: Mac, m: Message)
    requires REPLAY_WINDOW_SECS < m.time <= U64_MAX - REPLAY_WINDOW_SECS
    ensures var run := ThreeArrivals(sign, m);
            Monotone(run) && ClockFrom(run, 1) && DeliveryCount(sign, run, HeaderOf(m), 3) == 3
  {
    var run, h := ThreeArrivals(sign, m), HeaderOf(m);
    UnmarshalMarshal(sign, m);
    HeaderOfUnmarshal(Marshal(sign, m));
    AcceptIffNotRecent(sign, run, 0);
    AcceptIffNotRecent(sign, run, 1);
    AcceptIffNotRecent(sign, run, 2);
    assert DeliveryCount(sign, run, h, 1) == 1;
    assert DeliveryCount(sign, run, h, 2) == 2;
  }

  ghost predicate DeliversThrice(sign: Mac, run: seq<Arrival>, h: Header)
  {
    Monotone(run) && ClockFrom(run, 1) && DeliveryCount(sign, run, h, |run|) == 3
  }

  /** The bound is attained exactly by the messages that have a full window on both sides: some
  run delivers the header three times if and only if it is stamped from second 301 on and a
  window before the end of 64-bit time. */
  lemma ThreeDeliveriesIff(sign: Mac, m: Message)
    ensures (exists run :: DeliversThrice(sign, run, HeaderOf(m))) <==>
            300 < m.time <= U64_MAX - 300
  {
    hide Accepts, DeliveryCount, Marshal;
    if 300 < m.time <= U64_MAX - 300 {
      ThreeArrivalsDelivered(sign, m);
      assert DeliversThrice(sign, ThreeArrivals(sign, m), HeaderOf(m));
    }
    forall run | DeliversThrice(sign, run, HeaderOf(m))
      ensures 300 < m.time <= U64_MAX - 300
    {
      HeaderRoundTrip(m);
      var i := LastDelivery(sign, run, HeaderOf(m), |run|);
      AcceptedIsChecked(sign, run, i);
    }
  }

  lemma {:induction false} PrefixTable(sign: Mac, run: seq<Arrival>, more: seq<Arrival>, j: nat)
    requires j <= |run|
    ensures TableAt(sign, run + more, j) == TableAt(sign, run, j)
    ensures j < |run| ==> (Accepts(sign, run + more, j) <==> Accepts(sign, run, j))
  {
    if j > 0 {
      PrefixTable(sign, run, more, j - 1);
    }
  }

  /** Some continuation of the run delivers header `h` again. */
  ghost predicate CanRepeat(sign: Mac, run: seq<Arrival>, h: Header)
  {
    exists more: seq<Arrival>, j: nat ::
      Repeats(sign, run, more, j, h)
  }

  ghost predicate Repeats(sign: Mac, run: seq<Arrival>, more: seq<Arrival>, j: nat, h: Header)
  {
    Monotone(run + more) && ClockFrom(run + more, 1) && |run| <= j < |run + more| &&
    HasHeader((run + more)[j], h) && Accepts(sign, run + more, j)
  }

  /** The delivery of `h` at the end of the run leaves room for one more, a window later. */
  ghost predicate RoomToRepeat(run: seq<Arrival>, h: Header)
    requires run != []
  {
    var last := run[|run| - 1].now;
    last <= Timestamp(h) && last + 300 <= U64_MAX
  }

  lemma RepeatWithRoom(sign: Mac, run: seq<Arrival>, h: Header)
    requires run != [] && Monotone(run) && ClockFrom(run, 1)
    requires Accepts(sign, run, |run| - 1) && HasHeader(run[|run| - 1], h)
    requires RoomToRepeat(run, h)
    ensures CanRepeat(sign, run, h)
  {
    var last := run[|run| - 1];
    var again := Arrival(last.bytes, last.now + REPLAY_WINDOW_SECS);
    var longer := run + [again];
    assert forall i :: 0 <= i < |run| ==> longer[i] == run[i] && run[i].now <= last.now;
    AcceptIffNotRecent(sign, longer, |run|);
    assert longer[|run|] == again;
    assert Repeats(sign, run, [again], |run|, h);
  }

  lemma RepeatNeedsRoom(sign: Mac, run: seq<Arrival>, more: seq<Arrival>, j: nat, h: Header)
    requires run != []
    requires Accepts(sign, run, |run| - 1) && HasHeader(run[|run| - 1], h)
    requires Repeats(sign, run, more, j, h)
    ensures RoomToRepeat(run, h)
  {
    var longer, i := run + more, |run| - 1;
    assert longer[i] == run[i];
    PrefixTable(sign, run, more, i);
    SecondDelivery(sign, longer, i, j, h);
  }

  /** Right after the delivery of a header at clock `a`, the very same header can be delivered
  again later if and only if its timestamp is not before `a` (and `a` is a window short of
  the end of 64-bit time). */
  lemma RepeatableIff(sign: Mac, run: seq<Arrival>, h: Header)
    requires run != [] && Monotone(run) && ClockFrom(run, 1)
    requires Accepts(sign, run, |run| - 1) && HasHeader(run[|run| - 1], h)
    ensures CanRepeat(sign, run, h) <==> RoomToRepeat(run, h)
  {
    if RoomToRepeat(run, h) {
      RepeatWithRoom(sign, run, h);
    }
    forall more, j: nat | Repeats(sign, run, more, j, h)
      ensures RoomToRepeat(run, h)
    {
      RepeatNeedsRoom(sign, run, more, j, h);
    }
  }
}
