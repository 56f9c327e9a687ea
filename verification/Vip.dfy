/** Virtual-IP load balancing: the record the control plane publishes and the round robin the
data plane runs over it. */
module Vip {
  import opened Bytes
  import opened Options
  import opened DivMod

  const SLOTS := 16

  datatype Backend = Backend(ip: U32, port: U16, weight: byte)

  /** A map value: sixteen slots, the number in use and the slot to use next. */
  datatype InfoRaw = Info(backends: seq<Backend>, count: byte, nextIdx: byte)

  type Info = i: InfoRaw | |i.backends| == SLOTS && i.count <= SLOTS
    witness Info(seq(SLOTS, _ => Backend(0, 0, 0)), 0, 0)

  datatype Redirect = Redirect(ip: U32, port: U16)

  /** `u16::from_be` on a little-endian host. */
  function SwapBytes(p: U16): (q: U16)
    ensures q % 256 == p / 256 && q / 256 == p % 256
  {
    256 * (p % 256) + p / 256
  }

  function RedirectTo(b: Backend): (r: Redirect)
  {
    Redirect(b.ip, SwapBytes(b.port))
  }

  /** The slot a connect uses. */
  function Slot(i: Info): (s: nat)
    requires i.count > 0
    ensures s < i.count
  {
    i.nextIdx % i.count
  }

  /** The record after a connect has written it back. */
  function Advanced(i: Info): (r: Info)
    requires i.count > 0
  {
    i.(nextIdx := (Slot(i) + 1) % i.count)
  }

  type Table = map<U32, Info>

  function Connect(m: Table, vip: U32): (r: (Option<Redirect>, Table))
  {
    if vip in m && m[vip].count > 0
    then (Some(RedirectTo(m[vip].backends[Slot(m[vip])])), m[vip := Advanced(m[vip])])
    else (None, m)
  }

  /** The record `update_bpf_vip` builds for a list of addresses. */
  function Record(ips: seq<U32>): (i: Info)
  {
    Info(seq(SLOTS, k => if 0 <= k < |ips| then Backend(ips[k], 0, 1) else Backend(0, 0, 0)),
         if |ips| < SLOTS then |ips| else SLOTS, 0)
  }

  /** The kernel map: `try_vip` reads and rewrites it, `update_bpf_vip` replaces records. */
  class VipMap {
    var entries: Table

    constructor ()
      ensures entries == map[]
    {
      entries := map[];
    }

    /** `try_vip`. The write-back is skipped when it would not change the record. */
    method TryVip(userIp: U32) returns (redirect: Option<Redirect>)
      modifies this
      ensures (redirect, entries) == Connect(old(entries), userIp)
      ensures redirect == None <==> userIp !in old(entries) || old(entries)[userIp].count == 0
      ensures redirect == None ==> entries == old(entries)
      ensures redirect.Some? ==>
                var info := old(entries)[userIp];
                var b := info.backends[info.nextIdx % info.count];
                redirect.value.ip == b.ip && redirect.value.port == b.port % 256 * 256 + b.port / 256
    {
      redirect := None;
      if userIp in entries {
        var vipInfo := entries[userIp];
        if vipInfo.count > 0 {
          var idx := vipInfo.nextIdx % vipInfo.count;
          var backend := vipInfo.backends[idx];
          redirect := Some(Redirect(backend.ip, SwapBytes(backend.port)));
          var next := (idx + 1) % vipInfo.count;
          if next != vipInfo.nextIdx {
            var info := vipInfo.(nextIdx := next);
            entries := entries[userIp := info];
          } else {
            assert entries[userIp := Advanced(vipInfo)] == entries;
          }
        }
      }
    }
  }

  /** `update_bpf_vip`. Without a handle on the kernel map nothing is stored. */
  method UpdateBpfVip(vipMap: VipMap?, vipIp: U32, ips: seq<U32>)
    modifies vipMap
    ensures vipMap != null ==> vipMap.entries == old(vipMap.entries)[vipIp := Record(ips)]
    ensures vipMap != null ==>
              var r, n := vipMap.entries[vipIp], if |ips| < 16 then |ips| else 16;
              |r.backends| == 16 && r.count == n && r.nextIdx == 0 &&
              (forall k :: 0 <= k < n ==> r.backends[k] == Backend(ips[k], 0, 1)) &&
              (forall k :: n <= k < 16 ==> r.backends[k] == Backend(0, 0, 0))
  {
    var slots := new Backend[SLOTS](_ => Backend(0, 0, 0));
    var limit := if |ips| < SLOTS then |ips| else SLOTS;
    for i := 0 to limit
      modifies slots
      invariant forall k :: 0 <= k < SLOTS ==>
        slots[k] == if k < i then Backend(ips[k], 0, 1) else Backend(0, 0, 0)
    {
      slots[i] := Backend(ips[i], 0, 1);
    }
    var vipInfo: Info := Info(slots[..], limit, 0);
    assert vipInfo.backends == Record(ips).backends;
    if vipMap != null {
      vipMap.entries := vipMap.entries[vipIp := vipInfo];
    }
  }

  // ----- The monitor's view -----

  datatype Health = Health(ip: U32, port: U16, alive: bool)

  function AliveIps(bs: seq<Health>): (ips: seq<U32>)
  {
    if bs == [] then [] else (if bs[0].alive then [bs[0].ip] else []) + AliveIps(bs[1..])
  }

  /** How many of the first `i` backends are alive. */
  ghost function AliveBefore(bs: seq<Health>, i: nat): (n: nat)
    requires i <= |bs|
    ensures n <= i
  {
    if i == 0 then 0 else AliveBefore(bs, i - 1) + if bs[i - 1].alive then 1 else 0
  }

  lemma {:induction false} AliveIpsPrefix(bs: seq<Health>, i: nat)
    requires i <= |bs|
    ensures |AliveIps(bs[..i])| == AliveBefore(bs, i)
    ensures AliveIps(bs) == AliveIps(bs[..i]) + AliveIps(bs[i..])
  {
    if i == 0 {
      assert bs[..0] == [] && bs[0..] == bs;
    } else {
      AliveIpsPrefix(bs, i - 1);
      var b := bs[i - 1];
      assert bs[i - 1..] == [b] + bs[i..];
      assert bs[..i] == bs[..i - 1] + [b];
      AliveIpsAppend(bs[..i - 1], b);
    }
  }

  lemma {:induction false} AliveIpsAppend(bs: seq<Health>, b: Health)
    ensures AliveIps(bs + [b]) == AliveIps(bs) + if b.alive then [b.ip] else []
  {
    if bs == [] {
      assert [] + [b] == [b];
    } else {
      AliveIpsAppend(bs[1..], b);
      assert (bs + [b])[1..] == bs[1..] + [b];
    }
  }

  /** The list has as many addresses as there are alive backends. */
  lemma AliveIpsCount(bs: seq<Health>)
    ensures |AliveIps(bs)| == AliveBefore(bs, |bs|)
  {
    AliveIpsPrefix(bs, |bs|);
    assert bs[..|bs|] == bs;
  }

  /** The alive addresses are listed in configured order: each alive backend stands at the
  position given by the number of alive ones before it. */
  lemma AliveIpsInOrder(bs: seq<Health>, i: nat)
    requires i < |bs| && bs[i].alive
    ensures AliveBefore(bs, i) < |AliveIps(bs)| && AliveIps(bs)[AliveBefore(bs, i)] == bs[i].ip
  {
    AliveIpsPrefix(bs, i);
    assert bs[i..][0] == bs[i];
  }

  /** Configured backends start out alive. */
  function Healthy(list: seq<(U32, U16)>): (bs: seq<Health>)
  {
    seq(|list|, i requires 0 <= i < |list| => Health(list[i].0, list[i].1, true))
  }

  lemma {:induction false} HealthyAliveBefore(list: seq<(U32, U16)>, i: nat)
    requires i <= |list|
    ensures AliveBefore(Healthy(list), i) == i
  {
    if i > 0 {
      HealthyAliveBefore(list, i - 1);
    }
  }

  /** All configured addresses are listed as alive, in order. */
  lemma HealthyListedInOrder(list: seq<(U32, U16)>)
    ensures |AliveIps(Healthy(list))| == |list|
    ensures forall i :: 0 <= i < |list| ==> AliveIps(Healthy(list))[i] == list[i].0
  {
    var bs := Healthy(list);
    AliveIpsCount(bs);
    HealthyAliveBefore(list, |list|);
    forall i | 0 <= i < |list|
      ensures AliveIps(bs)[i] == list[i].0
    {
      HealthyAliveBefore(list, i);
      AliveIpsInOrder(bs, i);
    }
  }

  class VipMonitor {
    var backends: map<string, seq<Health>>

    constructor ()
      ensures backends == map[]
    {
      backends := map[];
    }

    method SetBackends(vip: string, list: seq<(U32, U16)>)
      modifies this
      ensures backends == old(backends)[vip := Healthy(list)]
      ensures |backends[vip]| == |list|
      ensures forall i :: 0 <= i < |list| ==>
                backends[vip][i].ip == list[i].0 && backends[vip][i].port == list[i].1 && backends[vip][i].alive
      ensures |AliveIps(backends[vip])| == |list|
      ensures forall i :: 0 <= i < |list| ==> AliveIps(backends[vip])[i] == list[i].0
    {
      HealthyListedInOrder(list);
      var health := Healthy(list);
      backends := backends[vip := health];
    }

    method GetAlive(vip: string) returns (ips: seq<U32>)
      ensures vip !in backends ==> ips == []
      ensures vip in backends ==>
                ips == AliveIps(backends[vip]) && |ips| == AliveBefore(backends[vip], |backends[vip]|)
    {
      if vip in backends {
        AliveIpsCount(backends[vip]);
        ips := AliveIps(backends[vip]);
      } else {
        ips := [];
      }
    }
  }

  // ----- Sequential fairness -----

  /** The map after a sequence of connects, to whichever addresses. */
  function After(m: Table, targets: seq<U32>): (r: Table)
  {
    if targets == [] then m else Connect(After(m, targets[..|targets| - 1]), targets[|targets| - 1]).1
  }

  /** How many of the connects go to `vip`. */
  function Connects(targets: seq<U32>, vip: U32): (n: nat)
  {
    if targets == [] then 0
    else Connects(targets[..|targets| - 1], vip) + if targets[|targets| - 1] == vip then 1 else 0
  }

  /** After any connects, mixed with those to other addresses, the record of `vip` keeps its
  backends and its next slot is the starting slot plus the number of connects to `vip`. */
  lemma {:induction false} RotationIsExact(m: Table, targets: seq<U32>, vip: U32)
    requires vip in m && m[vip].count > 0
    ensures var r := After(m, targets);
            vip in r && r[vip].backends == m[vip].backends && r[vip].count == m[vip].count &&
            Slot(r[vip]) == (m[vip].nextIdx + Connects(targets, vip)) % m[vip].count
  {
    if targets != [] {
      var front, last := targets[..|targets| - 1], targets[|targets| - 1];
      RotationIsExact(m, front, vip);
      if last == vip {
        AdvancedSlot(After(m, front)[vip], m[vip].nextIdx + Connects(front, vip));
      }
    }
  }

  lemma AdvancedSlot(i: Info, a: nat)
    requires i.count > 0 && Slot(i) == a % i.count
    ensures Slot(Advanced(i)) == (a + 1) % i.count
  {
    DivModSucc(a, i.count);
    ModUnique((a + 1) % i.count, 0, (a + 1) % i.count, i.count);
    if Slot(i) + 1 < i.count {
      ModUnique(Slot(i) + 1, 0, Slot(i) + 1, i.count);
    } else {
      ModUnique(Slot(i) + 1, 1, 0, i.count);
    }
  }

  /** The redirect that the next connect to `vip` gets. */
  lemma NextRedirect(m: Table, targets: seq<U32>, vip: U32)
    requires vip in m && m[vip].count > 0
    ensures Connect(After(m, targets), vip).0 ==
            Some(RedirectTo(m[vip].backends[(m[vip].nextIdx + Connects(targets, vip)) % m[vip].count]))
  {
    RotationIsExact(m, targets, vip);
  }

  /** How many of the first `k` connects use slot `s`, from starting value `start`. */
  ghost function Uses(start: nat, n: nat, s: nat, k: nat): (c: nat)
    requires n > 0
  {
    if k == 0 then 0 else Uses(start, n, s, k - 1) + if (start + k - 1) % n == s then 1 else 0
  }

  /** How many connects pass before slot `s` comes up first. */
  ghost function Wait(start: nat, n: nat, s: nat): (d: nat)
    requires s < n
    ensures d < n
  {
    (s + n - start % n) % n
  }

  lemma SlotComesUp(start: nat, n: nat, s: nat, k: nat)
    requires s < n
    ensures (start + k) % n == s <==> k % n == Wait(start, n, s)
  {
    var a, r := start % n, k % n;
    var w := Wait(start, n, s);
    SumMod(start, k, n);
    if s >= a {
      ModUnique(s + n - a, 1, s - a, n);
    } else {
      ModUnique(s + n - a, 0, s + n - a, n);
    }
    if a + r < n {
      ModUnique(a + r, 0, a + r, n);
    } else {
      ModUnique(a + r, 1, a + r - n, n);
    }
  }

  ghost function Cycles(k: nat, n: nat): nat
    requires n > 0
  {
    k / n
  }

  ghost function Rest(k: nat, n: nat): nat
    requires n > 0
  {
    k % n
  }

  lemma CyclesAndRest(k: nat, n: nat)
    requires n > 0
    ensures Cycles(0, n) == 0 && Rest(0, n) == 0 && Rest(k, n) < n
    ensures if Rest(k, n) + 1 < n
            then Rest(k + 1, n) == Rest(k, n) + 1 && Cycles(k + 1, n) == Cycles(k, n)
            else Rest(k, n) + 1 == n && Rest(k + 1, n) == 0 && Cycles(k + 1, n) == Cycles(k, n) + 1
  {
    ModUnique(0, 0, 0, n);
    DivModSucc(k, n);
  }

  lemma UsesStep(start: nat, n: nat, s: nat, k: nat)
    requires s < n
    ensures Uses(start, n, s, k + 1) == Uses(start, n, s, k) + if Rest(k, n) == Wait(start, n, s) then 1 else 0
  {
    SlotComesUp(start, n, s, k);
  }

  lemma {:induction false} ShareByCycles(start: nat, n: nat, s: nat, k: nat)
    requires s < n
    ensures Uses(start, n, s, k) == Cycles(k, n) + if Wait(start, n, s) < Rest(k, n) then 1 else 0
  {
    hide Uses, Cycles, Rest, Wait;
    if k == 0 {
      CyclesAndRest(0, n);
      UsesNone(start, n, s);
    } else {
      ShareByCycles(start, n, s, k - 1);
      UsesStep(start, n, s, k - 1);
      CyclesAndRest(k - 1, n);
    }
  }

  lemma UsesNone(start: nat, n: nat, s: nat)
    requires n > 0
    ensures Uses(start, n, s, 0) == 0
  {
  }

  /** The exact share: every full cycle uses each slot once, and the remaining k mod n connects
  use the slots that come up first. So each slot is used floor(k/n) or ceil(k/n) times. */
  lemma FairShare(start: nat, n: nat, s: nat, k: nat)
    requires s < n
    ensures Uses(start, n, s, k) == k / n + if Wait(start, n, s) < k % n then 1 else 0
  {
    ShareByCycles(start, n, s, k);
  }

  /** How many of the connects to `vip` among `targets` were sent to slot `s`. */
  ghost function SlotUses(m: Table, targets: seq<U32>, vip: U32, s: nat): (n: nat)
  {
    if targets == [] then 0
    else
      var front, last := targets[..|targets| - 1], targets[|targets| - 1];
      var before := After(m, front);
      SlotUses(m, front, vip, s) +
      if last == vip && vip in before && before[vip].count > 0 && Slot(before[vip]) == s then 1 else 0
  }

  lemma {:induction false} SlotUsesFollowRotation(m: Table, targets: seq<U32>, vip: U32, s: nat)
    requires vip in m && m[vip].count > 0
    ensures SlotUses(m, targets, vip, s) == Uses(m[vip].nextIdx, m[vip].count, s, Connects(targets, vip))
  {
    hide Slot, After;
    if targets != [] {
      var front := targets[..|targets| - 1];
      SlotUsesFollowRotation(m, front, vip, s);
      RotationIsExact(m, front, vip);
    }
  }

  /** Round-robin fairness over every sequence of connects, to this and other addresses, from
  any stored next slot: of the k connects to `vip` each of its n slots gets k / n, and the
  slots that come up first get one more for the remainder. */
  lemma RoundRobinFair(m: Table, targets: seq<U32>, vip: U32, s: nat)
    requires vip in m && s < m[vip].count
    ensures var n, k := m[vip].count, Connects(targets, vip);
            SlotUses(m, targets, vip, s) == k / n + if Wait(m[vip].nextIdx, n, s) < k % n then 1 else 0
  {
    hide SlotUses, Uses, Wait, Connects;
    SlotUsesFollowRotation(m, targets, vip, s);
    FairShare(m[vip].nextIdx, m[vip].count, s, Connects(targets, vip));
  }
}
