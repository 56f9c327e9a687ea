/** Container address allocation: a probe over host numbers seeded by a hash of the container
id, with 8-bit wrap-around as in a release build. */
module Alloc {
  import opened Bytes
  import opened Options

  function Hash(id: seq<byte>): (h: U32)
  {
    if id == [] then 0 else (Hash(id[..|id| - 1]) * 31 + id[|id| - 1]) % 0x1_0000_0000
  }

  function Pow31(k: nat): (p: nat)
  {
    if k == 0 then 1 else 31 * Pow31(k - 1)
  }

  /** The number whose digits to base 31 are the bytes of the id, first byte first. */
  function Base31(id: seq<byte>): (n: nat)
  {
    if id == [] then 0 else id[0] * Pow31(|id| - 1) + Base31(id[1..])
  }

  lemma Base31Empty()
    ensures Base31([]) == 0
  {
  }

  lemma {:induction false} Base31Append(id: seq<byte>, b: byte)
    ensures Base31(id + [b]) == 31 * Base31(id) + b
  {
    if id == [] {
      assert [] + [b] == [b] && Pow31(0) == 1;
      assert Base31([b]) == b * Pow31(0) + Base31([]);
    } else {
      assert (id + [b])[1..] == id[1..] + [b];
      Base31Append(id[1..], b);
      assert id[0] * Pow31(|id|) == 31 * (id[0] * Pow31(|id| - 1));
    }
  }

  lemma WrapDropsMultiples(a: nat, k: nat)
    ensures (a + 0x1_0000_0000 * k) % 0x1_0000_0000 == a % 0x1_0000_0000
  {
  }

  lemma WrapOnceIsEnough(x: nat, b: byte)
    ensures (x % 0x1_0000_0000 * 31 + b) % 0x1_0000_0000 == (31 * x + b) % 0x1_0000_0000
  {
    var q, r := x / 0x1_0000_0000, x % 0x1_0000_0000;
    assert 31 * x + b == (r * 31 + b) + 0x1_0000_0000 * (31 * q);
    WrapDropsMultiples(r * 31 + b, 31 * q);
  }

  /** The wrapping fold is the value of the id to base 31, modulo 2^32. */
  lemma {:induction false} HashIsBase31(id: seq<byte>)
    ensures Hash(id) == Base31(id) % 0x1_0000_0000
  {
    hide Base31;
    if id == [] {
      Base31Empty();
    } else {
      var front, last := id[..|id| - 1], id[|id| - 1];
      HashIsBase31(front);
      Base31Append(front, last);
      WrapOnceIsEnough(Base31(front), last);
      assert id == front + [last];
    }
  }

  /** The address 10.244.0.host. */
  function Addr(host: byte): (ip: U32)
  {
    0x0AF4_0000 + host
  }

  /** The four bytes of an address of the network. */
  lemma AddrBytes(host: byte)
    ensures ToBigEndian(Addr(host), 4) == [10, 244, 0, host] && Addr(host) % 256 == host
  {
    var ip := Addr(host);
    assert ip / 256 == 0x0A_F400 && ip % 256 == host;
    assert ToBigEndian(ip, 4) == ToBigEndian(0x0A_F400, 3) + [host];
    assert ToBigEndian(0x0A_F400, 3) == ToBigEndian(0x0AF4, 2) + [0];
    assert ToBigEndian(0x0AF4, 2) == ToBigEndian(10, 1) + [244];
    assert ToBigEndian(10, 1) == [10];
  }

  /** The host number tried at an offset: two wrapping 8-bit additions and a modulus. */
  function Host(h: byte, offset: byte): (host: byte)
  {
    (2 + (h + offset) % 256) % 256 % 254
  }

  /** The first host from `offset` on that is not occupied. */
  function Probe(h: byte, occupied: set<U32>, offset: byte): (r: Option<byte>)
    requires offset <= 253
    decreases 253 - offset
  {
    if offset == 253 then None
    else
      var host := Host(h, offset);
      if host >= 2 && Addr(host) !in occupied then Some(host) else Probe(h, occupied, offset + 1)
  }

  function FallbackHost(hash: U32): (host: byte)
    ensures 2 <= host <= 254
  {
    2 + hash % 253
  }

  /** The address an id gets while the given ones are occupied. */
  function Allocation(id: seq<byte>, occupied: set<U32>): (ip: U32)
  {
    match Probe(Hash(id) % 256, occupied, 0)
    case Some(host) => Addr(host)
    case None => Addr(FallbackHost(Hash(id)))
  }

  /** The container route map. `tracked` says whether `is_ip_allocated` consults it, as its
  caller's comment intends, or answers no always, as the shipped stub does. */
  class ContainerRoutes {
    const tracked: bool
    var routes: map<U32, U32>

    constructor (tracked: bool)
      ensures this.tracked == tracked && routes == map[]
    {
      this.tracked := tracked;
      routes := map[];
    }

    function Occupied(): (s: set<U32>)
      reads this
    {
      if tracked then routes.Keys else {}
    }

    /** `allocate_from_bpf`. The address is in 10.244.0.0/24; its host is a free reachable one if
    there is any, and is then marked, and otherwise the hash modulo 253, plus 2, unmarked. */
    method AllocateFromBpf(id: seq<byte>) returns (ip: U32)
      modifies this
      ensures ip == Allocation(id, old(Occupied()))
      ensures routes == if Probe(Hash(id) % 256, old(Occupied()), 0).Some? then old(routes)[ip := 1] else old(routes)
      ensures ToBigEndian(ip, 4) == [10, 244, 0, ip % 256] && 2 <= ip % 256 <= 254
      ensures (exists x :: Free(Hash(id) % 256, old(Occupied()), x)) ==>
                Free(Hash(id) % 256, old(Occupied()), ip % 256) && routes == old(routes)[ip := 1]
      ensures (forall x :: !Free(Hash(id) % 256, old(Occupied()), x)) ==>
                ip % 256 == 2 + Base31(id) % 0x1_0000_0000 % 253 && routes == old(routes)
    {
      hide Hash, ToBigEndian, Free, Base31;
      AllocationMeans(id, Occupied());
      var hash := Hash(id);
      ghost var goal := Probe(hash % 256, Occupied(), 0);
      for offset := 0 to 253
        invariant routes == old(routes)
        invariant Probe(hash % 256, Occupied(), offset) == goal
      {
        var host := (2 + (hash % 256 + offset) % 256) % 256 % 254;
        if host < 2 {
          continue;
        }
        ip := Addr(host);
        if !(tracked && ip in routes) {
          routes := routes[ip := 1];
          return;
        }
      }
      ip := Addr(2 + hash % 253);
    }

    method RemoveContainerRoute(ip: U32)
      modifies this
      ensures routes == old(routes) - {ip}
    {
      routes := routes - {ip};
    }
  }

  // ----- What the probe reaches -----

  /** The host numbers the probe tries: 2 to 253 without three neighbours of the seed. */
  predicate Reachable(h: byte, host: byte)
  {
    2 <= host <= 253 && host != (h + 255) % 256 && host != h && host != (h + 1) % 256
  }

  /** The only offset at which a host number in 2..253 could come up. */
  function OffsetOf(h: byte, host: byte): (o: byte)
    requires 2 <= host <= 253
  {
    (host + 254 - h) % 256
  }

  lemma Wrap256(x: nat)
    requires x < 512
    ensures x % 256 == if x < 256 then x else x - 256
  {
  }

  /** The host number without moduli. */
  lemma HostCases(h: byte, offset: byte)
    ensures var t := h + offset;
            var v := if t < 254 then t + 2 else if t < 510 then t - 254 else 0;
            Host(h, offset) == if v < 254 then v else v - 254
  {
    Wrap256(h + offset);
    Wrap256(2 + (h + offset) % 256);
  }

  lemma HostAt(h: byte, offset: byte, host: byte)
    requires 2 <= host <= 253
    ensures Host(h, offset) == host <==> offset == OffsetOf(h, host)
  {
    hide Host;
    HostCases(h, offset);
    Wrap256(host + 254 - h);
  }

  lemma ReachableOffset(h: byte, host: byte)
    requires 2 <= host <= 253
    ensures Reachable(h, host) <==> OffsetOf(h, host) < 253
  {
    Wrap256(host + 254 - h);
    Wrap256(h + 255);
    Wrap256(h + 1);
  }

  /** The probe tries exactly the reachable host numbers, and none of them twice. */
  lemma ProbeOrder(h: byte, host: byte)
    ensures Reachable(h, host) <==> host >= 2 && exists o: byte :: o < 253 && Host(h, o) == host
    ensures host >= 2 ==> forall o: byte, p: byte :: Host(h, o) == host && Host(h, p) == host ==> o == p
  {
    if 2 <= host <= 253 {
      ReachableOffset(h, host);
      HostAt(h, OffsetOf(h, host), host);
      forall o: byte ensures Host(h, o) == host <==> o == OffsetOf(h, host) { HostAt(h, o, host); }
    }
  }

  ghost predicate Free(h: byte, occupied: set<U32>, host: byte)
    ensures Free(h, occupied, host) ==> 2 <= host <= 253
  {
    Reachable(h, host) && Addr(host) !in occupied
  }

  lemma {:induction false} ProbeFrom(h: byte, occupied: set<U32>, offset: byte)
    requires offset <= 253
    ensures match Probe(h, occupied, offset)
            case Some(host) =>
              Free(h, occupied, host) && OffsetOf(h, host) >= offset &&
              forall x: byte :: Free(h, occupied, x) && OffsetOf(h, x) >= offset ==> OffsetOf(h, host) <= OffsetOf(h, x)
            case None => forall x: byte :: Free(h, occupied, x) ==> OffsetOf(h, x) < offset
    decreases 253 - offset
  {
    hide Host, OffsetOf, Reachable, Addr;
    if offset < 253 {
      var host := Host(h, offset);
      TriedAt(h, offset);
      if !(host >= 2 && Addr(host) !in occupied) {
        ProbeFrom(h, occupied, offset + 1);
      }
    } else {
      forall x: byte | Reachable(h, x) ensures 2 <= x <= 253 && OffsetOf(h, x) < 253 { ReachableRange(h, x); }
    }
  }

  lemma ReachableRange(h: byte, x: byte)
    requires Reachable(h, x)
    ensures 2 <= x <= 253 && OffsetOf(h, x) < 253
  {
    ReachableOffset(h, x);
  }

  /** What is tried at an offset is reachable, and nothing else has that offset. */
  lemma TriedAt(h: byte, offset: byte)
    requires offset < 253
    ensures Host(h, offset) >= 2 ==>
              Reachable(h, Host(h, offset)) && Host(h, offset) <= 253 && OffsetOf(h, Host(h, offset)) == offset
    ensures forall x: byte :: Reachable(h, x) ==>
              2 <= x <= 253 && (OffsetOf(h, x) == offset <==> x == Host(h, offset))
  {
    hide Host, OffsetOf, Reachable;
    HostCases(h, offset);
    if Host(h, offset) >= 2 {
      HostAt(h, offset, Host(h, offset));
      ReachableOffset(h, Host(h, offset));
    }
    forall x: byte | Reachable(h, x)
      ensures 2 <= x <= 253 && (OffsetOf(h, x) == offset <==> x == Host(h, offset))
    {
      ReachableRange(h, x);
      HostAt(h, offset, x);
    }
  }

  /** The probe succeeds exactly when a reachable host is free, and then takes the free one
  that comes up first. */
  lemma ProbeIff(h: byte, occupied: set<U32>)
    ensures Probe(h, occupied, 0).Some? <==> exists host :: Free(h, occupied, host)
    ensures Probe(h, occupied, 0).Some? ==>
              var host := Probe(h, occupied, 0).value;
              Free(h, occupied, host) &&
              forall x: byte :: Free(h, occupied, x) ==> OffsetOf(h, host) <= OffsetOf(h, x)
  {
    ProbeFrom(h, occupied, 0);
  }

  /** An allocated address, byte by byte, and which host it is. */
  lemma AllocationMeans(id: seq<byte>, occupied: set<U32>)
    ensures var h, ip := Hash(id) % 256, Allocation(id, occupied);
            ToBigEndian(ip, 4) == [10, 244, 0, ip % 256] && 2 <= ip % 256 <= 254 &&
            ((exists x :: Free(h, occupied, x)) <==> Probe(h, occupied, 0).Some?) &&
            ((exists x :: Free(h, occupied, x)) ==> Free(h, occupied, ip % 256)) &&
            ((forall x :: !Free(h, occupied, x)) ==> ip % 256 == 2 + Base31(id) % 0x1_0000_0000 % 253)
  {
    hide Probe, Reachable, ToBigEndian, Hash;
    ProbeIff(Hash(id) % 256, occupied);
    HashIsBase31(id);
    match Probe(Hash(id) % 256, occupied, 0)
    case Some(host) => AddrBytes(host);
    case None => AddrBytes(FallbackHost(Hash(id)));
  }

  // ----- Pigeonhole -----

  ghost function Range(lo: int, hi: int): (s: set<int>)
    requires lo <= hi
    ensures |s| == hi - lo && forall x :: x in s <==> lo <= x < hi
    decreases hi - lo
  {
    if lo == hi then {} else Range(lo, hi - 1) + {hi - 1}
  }

  /** Host numbers 2 to 253. */
  ghost function Hosts(): (s: set<int>)
    ensures |s| == 252 && forall x :: x in s <==> 2 <= x <= 253
  {
    Range(2, 254)
  }

  ghost function ReachableHosts(h: byte): (s: set<int>)
  {
    Hosts() - {(h + 255) % 256, h as int, (h + 1) % 256}
  }

  ghost function OccupiedHosts(occupied: set<U32>): (s: set<int>)
  {
    set x | x in Hosts() && Addr(x) in occupied
  }

  lemma RemovalSize(s: set<int>, x: int)
    ensures |s - {x}| == |s| - if x in s then 1 else 0
  {
    if x in s {
      assert s == (s - {x}) + {x};
    } else {
      assert s - {x} == s;
    }
  }

  lemma SplitRemoval(s: set<int>, a: int, b: int, c: int)
    ensures s - {a, b, c} == s - {a} - {b} - {c}
  {
  }

  lemma RemoveThree(s: set<int>, a: int, b: int, c: int)
    ensures |s - {a, b, c}| >= |s| - 3
    ensures a != b && b != c && a != c && a in s && b in s && c in s ==> |s - {a, b, c}| == |s| - 3
  {
    SplitRemoval(s, a, b, c);
    var s1 := s - {a};
    var s2 := s1 - {b};
    RemovalSize(s, a);
    RemovalSize(s1, b);
    RemovalSize(s2, c);
  }

  /** At least 249 hosts are reachable, and exactly 249 when all three exclusions are hosts. */
  lemma ReachableCount(h: byte)
    ensures |ReachableHosts(h)| >= 249
    ensures 3 <= h <= 252 ==> |ReachableHosts(h)| == 249
  {
    hide Hosts;
    Wrap256(h + 255);
    Wrap256(h + 1);
    RemoveThree(Hosts(), (h + 255) % 256, h, (h + 1) % 256);
  }

  lemma SubsetSize(s: set<int>, t: set<int>)
    requires s <= t
    ensures |s| <= |t|
  {
    assert t == s + (t - s);
  }

  /** With fewer than 249 hosts occupied, the probe always finds a free one. */
  lemma ProbePigeonhole(h: byte, occupied: set<U32>)
    requires |OccupiedHosts(occupied)| < 249
    ensures Probe(h, occupied, 0).Some?
  {
    ProbeIff(h, occupied);
    ReachableCount(h);
    if !(ReachableHosts(h) <= OccupiedHosts(occupied)) {
      var x :| x in ReachableHosts(h) && x !in OccupiedHosts(occupied);
      assert Free(h, occupied, x);
    } else {
      SubsetSize(ReachableHosts(h), OccupiedHosts(occupied));
    }
  }

  ghost function AllReachable(h: byte): (s: set<U32>)
  {
    set x: byte | Reachable(h, x) :: Addr(x)
  }

  lemma AddrReachable(h: byte, x: byte)
    ensures Addr(x) in AllReachable(h) <==> Reachable(h, x)
  {
    hide Reachable;
  }

  lemma ReachableMember(h: byte, x: byte)
    ensures x in ReachableHosts(h) <==> Reachable(h, x)
  {
    hide Range;
  }

  lemma AllReachableHosts(h: byte)
    ensures OccupiedHosts(AllReachable(h)) == ReachableHosts(h)
  {
    hide Range, Reachable, AllReachable, Addr;
    forall x: int | x in Hosts()
      ensures x in OccupiedHosts(AllReachable(h)) <==> x in ReachableHosts(h)
    {
      AddrReachable(h, x);
      ReachableMember(h, x);
    }
  }

  /** 249 is the least such number: the 249 reachable hosts of a seed defeat the probe. */
  lemma PigeonholeIsSharp(h: byte)
    requires 3 <= h <= 252
    ensures |OccupiedHosts(AllReachable(h))| == 249 && Probe(h, AllReachable(h), 0) == None
  {
    hide Probe, ReachableHosts, OccupiedHosts;
    ReachableCount(h);
    AllReachableHosts(h);
    ProbeIff(h, AllReachable(h));
  }

  // ----- The stub -----

  /** The address an id gets while `is_ip_allocated` answers no always. */
  function StubAddress(id: seq<byte>): (ip: U32)
  {
    Allocation(id, {})
  }

  /** With the stub, two ids get the same address if and only if their hashes share the low
  byte or both low bytes are among the five that wrap round to host 2. */
  lemma StubCollidesIff(id1: seq<byte>, id2: seq<byte>)
    ensures var a, b := Hash(id1) % 256, Hash(id2) % 256;
            StubAddress(id1) == StubAddress(id2) <==>
            a == b || ((a == 0 || a >= 252) && (b == 0 || b >= 252))
  {
    hide Hash, Probe;
    StubTakesFirst(Hash(id1) % 256);
    StubTakesFirst(Hash(id2) % 256);
  }

  /** Two ids that differ in two neighbouring bytes, one higher against 31 lower, have the same
  hash, whatever comes before and after: so they collide. "1Q" and "22" are such ids. */
  lemma {:induction false} SameHash(before: seq<byte>, x: byte, y: byte, after: seq<byte>)
    requires x < 255 && y < 225
    ensures before + [x, y + 31] + after != before + [x + 1, y] + after
    ensures Hash(before + [x, y + 31] + after) == Hash(before + [x + 1, y] + after)
    decreases |after|
  {
    hide Hash;
    var id1, id2 := before + [x, y + 31] + after, before + [x + 1, y] + after;
    assert id1[|before|] == x && id2[|before|] == x + 1;
    if after == [] {
      assert id1 == before + [x] + [y + 31] && id2 == before + [x + 1] + [y];
      SameHashPair(before, x, y);
    } else {
      var front, last := after[..|after| - 1], after[|after| - 1];
      SameHash(before, x, y, front);
      assert id1 == before + [x, y + 31] + front + [last];
      assert id2 == before + [x + 1, y] + front + [last];
      HashAppend(before + [x, y + 31] + front, last);
      HashAppend(before + [x + 1, y] + front, last);
    }
  }

  lemma HashAppend(id: seq<byte>, b: byte)
    ensures Hash(id + [b]) == (Hash(id) * 31 + b) % 0x1_0000_0000
  {
    assert (id + [b])[..|id|] == id;
  }

  lemma SameHashPair(before: seq<byte>, x: byte, y: byte)
    requires x < 255 && y < 225
    ensures Hash(before + [x] + [y + 31]) == Hash(before + [x + 1] + [y])
  {
    hide Hash, Base31;
    HashIsBase31(before + [x] + [y + 31]);
    HashIsBase31(before + [x + 1] + [y]);
    Base31Append(before, x);
    Base31Append(before, x + 1);
    Base31Append(before + [x], y + 31);
    Base31Append(before + [x + 1], y);
  }

  lemma FirstOffset(h: byte, host: byte)
    requires 2 <= host <= 253
    ensures var first := if h == 0 || h >= 252 then 2 else h + 2;
            OffsetOf(h, first) <= OffsetOf(h, host) && Reachable(h, first) &&
            (OffsetOf(h, host) == OffsetOf(h, first) ==> host == first)
  {
    Wrap256(host + 254 - h);
    Wrap256(if h == 0 || h >= 252 then 256 - h else 256);
    Wrap256(h + 255);
    Wrap256(h + 1);
  }

  lemma StubTakesFirst(h: byte)
    ensures Probe(h, {}, 0) == Some(if h == 0 || h >= 252 then 2 else h + 2)
  {
    hide Host, OffsetOf, Probe;
    var host: byte := if h == 0 || h >= 252 then 2 else h + 2;
    ProbeIff(h, {});
    FirstOffset(h, host);
    assert Free(h, {}, host);
    FirstOffset(h, Probe(h, {}, 0).value);
  }

  // ----- Every run -----

  datatype Step =
    | Allocate(id: seq<byte>)
    | Mark(ip: U32)       // an `add` command or the discovery loop inserts a route
    | Release(ip: U32)    // a `del` command removes one

  /** Marked routes; the probe-allocated addresses not released since, in order; and all the
  addresses handed out and not released since, fallbacks included. */
  datatype State = State(routes: set<U32>, live: seq<U32>, handed: seq<U32>)

  function Without(s: seq<U32>, ip: U32): (r: seq<U32>)
  {
    if s == [] then [] else (if s[0] == ip then [] else [s[0]]) + Without(s[1..], ip)
  }

  function Next(s: State, step: Step): (r: State)
  {
    match step
    case Allocate(id) => (
      match Probe(Hash(id) % 256, s.routes, 0)
      case Some(host) => State(s.routes + {Addr(host)}, s.live + [Addr(host)], s.handed + [Addr(host)])
      case None => s.(handed := s.handed + [Addr(FallbackHost(Hash(id)))]))
    case Mark(ip) => s.(routes := s.routes + {ip})
    case Release(ip) => State(s.routes - {ip}, Without(s.live, ip), Without(s.handed, ip))
  }

  function Exec(steps: seq<Step>): (s: State)
  {
    if steps == [] then State({}, [], []) else Next(Exec(steps[..|steps| - 1]), steps[|steps| - 1])
  }

  ghost predicate Distinct(s: seq<U32>)
  {
    forall i, j :: 0 <= i < j < |s| ==> s[i] != s[j]
  }

  lemma {:induction false} WithoutMembers(s: seq<U32>, ip: U32)
    ensures forall x :: x in Without(s, ip) <==> x in s && x != ip
    ensures Distinct(s) ==> Distinct(Without(s, ip))
  {
    if s != [] {
      WithoutMembers(s[1..], ip);
      assert forall x :: x in s <==> x == s[0] || x in s[1..];
      if Distinct(s) {
        assert s[0] !in s[1..];
      }
    }
  }

  /** With the route map consulted, in every run of allocations, route inserts and removals the
  unreleased probe-allocated addresses are marked and pairwise distinct. */
  lemma {:induction false} LiveAddressesDistinct(steps: seq<Step>)
    ensures Distinct(Exec(steps).live)
    ensures forall ip :: ip in Exec(steps).live ==> ip in Exec(steps).routes
  {
    if steps != [] {
      var s, step := Exec(steps[..|steps| - 1]), steps[|steps| - 1];
      LiveAddressesDistinct(steps[..|steps| - 1]);
      match step
      case Allocate(id) => ProbeIff(Hash(id) % 256, s.routes);
      case Mark(_) =>
      case Release(ip) => WithoutMembers(s.live, ip);
    }
  }

  /** In every reachable state, releasing an address the probe has just allocated restores the
  marked routes and the live addresses. */
  lemma ReleaseUndoesAllocation(steps: seq<Step>, id: seq<byte>)
    requires Probe(Hash(id) % 256, Exec(steps).routes, 0).Some?
    ensures var s := Exec(steps);
            var r := Next(Next(s, Allocate(id)), Release(Allocation(id, s.routes)));
            r.routes == s.routes && r.live == s.live
  {
    hide Probe, Exec, Hash;
    var s := Exec(steps);
    var ip := Allocation(id, s.routes);
    LiveAddressesDistinct(steps);
    ProbeIff(Hash(id) % 256, s.routes);
    assert ip !in s.routes;
    WithoutLast(s.live, ip);
  }

  lemma {:induction false} WithoutLast(s: seq<U32>, ip: U32)
    requires ip !in s
    ensures Without(s + [ip], ip) == s
  {
    if s == [] {
      assert [] + [ip] == [ip];
      assert Without([ip], ip) == [] + Without([ip][1..], ip);
    } else {
      WithoutLast(s[1..], ip);
      assert (s + [ip])[1..] == s[1..] + [ip];
    }
  }

  // ----- When every address handed out is new -----

  /** Every allocation of the run happens with fewer than `limit` hosts marked. */
  ghost predicate AllocatesBelow(steps: seq<Step>, limit: nat)
  {
    forall i :: 0 <= i < |steps| && steps[i].Allocate? ==> |OccupiedHosts(Exec(steps[..i]).routes)| < limit
  }

  /** The unreleased addresses are pairwise distinct and marked. */
  ghost predicate HandedOutOnce(s: State)
  {
    Distinct(s.handed) && forall ip :: ip in s.handed ==> ip in s.routes
  }

  lemma {:induction false} NoFallbackBelow(steps: seq<Step>)
    requires AllocatesBelow(steps, 249)
    ensures Exec(steps).handed == Exec(steps).live
  {
    hide Probe, OccupiedHosts;
    if steps != [] {
      var front := steps[..|steps| - 1];
      assert forall i :: 0 <= i < |front| ==> front[i] == steps[i] && front[..i] == steps[..i];
      NoFallbackBelow(front);
      if steps[|steps| - 1].Allocate? {
        ProbePigeonhole(Hash(steps[|steps| - 1].id) % 256, Exec(front).routes);
      }
    }
  }

  /** Marks the reachable hosts below `n`. */
  function Marking(h: byte, n: nat): (steps: seq<Step>)
    requires n <= 256
  {
    if n == 0 then []
    else Marking(h, n - 1) + if Reachable(h, n - 1) then [Mark(Addr(n - 1))] else []
  }

  lemma ExecMore(steps: seq<Step>, step: Step)
    ensures Exec(steps + [step]) == Next(Exec(steps), step)
  {
    assert (steps + [step])[..|steps|] == steps;
  }

  ghost function MarkedBelow(h: byte, n: nat): (s: set<U32>)
  {
    set x: byte | x < n && Reachable(h, x) :: Addr(x)
  }

  lemma {:induction false} MarkingMarks(h: byte, n: nat)
    requires n <= 256
    ensures Exec(Marking(h, n)) == State(MarkedBelow(h, n), [], [])
    ensures forall i :: 0 <= i < |Marking(h, n)| ==> Marking(h, n)[i].Mark?
  {
    hide Exec, Reachable, Probe;
    if n == 0 {
      ExecNothing();
      assert MarkedBelow(h, 0) == {};
    } else {
      MarkingMarks(h, n - 1);
      if Reachable(h, n - 1) {
        ExecMore(Marking(h, n - 1), Mark(Addr(n - 1)));
        assert MarkedBelow(h, n) == MarkedBelow(h, n - 1) + {Addr(n - 1)};
      } else {
        assert Marking(h, n) == Marking(h, n - 1);
        assert MarkedBelow(h, n) == MarkedBelow(h, n - 1);
      }
    }
  }

  lemma ExecNothing()
    ensures Exec([]) == State({}, [], [])
  {
  }

  /** The reachable hosts of seed 64 are marked, then two ids with hash 1600 ask for addresses. */
  function Exhausting(): (steps: seq<Step>)
  {
    Marking(64, 256) + [Allocate([49, 81])] + [Allocate([50, 50])]
  }

  lemma Hash1600()
    ensures Hash([49, 81]) == 1600 && Hash([50, 50]) == 1600
  {
    assert [49, 81][..1] == [49] && [50, 50][..1] == [50];
    assert Hash([49]) == 49 && Hash([50]) == 50;
  }

  lemma ExhaustedState()
    ensures |OccupiedHosts(Exec(Marking(64, 256)).routes)| == 249
    ensures Exec(Marking(64, 256)).handed == [] && Probe(64, Exec(Marking(64, 256)).routes, 0) == None
  {
    hide Probe, Exec, Marking, OccupiedHosts, Reachable;
    MarkingMarks(64, 256);
    var routes := Exec(Marking(64, 256)).routes;
    assert routes == AllReachable(64);
    PigeonholeIsSharp(64);
  }

  lemma ExhaustedAllocates(s: State, id: seq<byte>)
    requires Hash(id) == 1600 && Probe(64, s.routes, 0) == None
    ensures Next(s, Allocate(id)) == s.(handed := s.handed + [Addr(84)])
  {
    hide Probe, Hash;
  }

  /** At 249 marked hosts two different ids get one and the same fallback address. */
  lemma ExhaustedRunRepeats()
    ensures AllocatesBelow(Exhausting(), 250)
    ensures Exec(Exhausting()).handed == [Addr(84), Addr(84)]
  {
    hide Probe, Exec, Hash, OccupiedHosts, Next, Marking;
    var marks := Marking(64, 256);
    var one := marks + [Allocate([49, 81])];
    Hash1600();
    ExhaustedState();
    ExecMore(marks, Allocate([49, 81]));
    ExhaustedAllocates(Exec(marks), [49, 81]);
    ExecMore(one, Allocate([50, 50]));
    ExhaustedAllocates(Exec(one), [50, 50]);
    MarkingMarks(64, 256);
    var steps := Exhausting();
    forall i | 0 <= i < |steps| && steps[i].Allocate?
      ensures |OccupiedHosts(Exec(steps[..i]).routes)| < 250
    {
      if i == |marks| {
        assert steps[..i] == marks;
      } else if i == |marks| + 1 {
        assert steps[..i] == one;
      }
    }
  }

  /** Every address handed out is new, in all runs whose allocations happen below a number of
  marked hosts, if and only if that number is at most 249. */
  lemma HandedOutOnceIff(limit: nat)
    ensures (forall steps :: AllocatesBelow(steps, limit) ==> HandedOutOnce(Exec(steps))) <==> limit <= 249
  {
    hide Exec, Exhausting, OccupiedHosts;
    if limit <= 249 {
      forall steps | AllocatesBelow(steps, limit)
        ensures HandedOutOnce(Exec(steps))
      {
        assert AllocatesBelow(steps, 249);
        NoFallbackBelow(steps);
        LiveAddressesDistinct(steps);
      }
    } else {
      ExhaustedRunRepeats();
      var steps := Exhausting();
      assert AllocatesBelow(steps, limit);
      assert Exec(steps).handed[0] == Exec(steps).handed[1];
      assert !HandedOutOnce(Exec(steps));
    }
  }
}
