/** From the configured backends to the redirects that connects get after a publication. */
module VipBalance {
  import opened Bytes
  import opened DivMod
  import opened Options
  import opened Vip

  /** After a publication, the connect that follows `targets` is sent to the alive backend whose
  position is the number of earlier connects to the address, modulo those in use, of which
  there are at most 16. The port is always 0: the record carries none. */
  lemma PublishThenBalance(m: Table, vip: U32, bs: seq<Health>, targets: seq<U32>)
    requires AliveIps(bs) != []
    ensures var ips := AliveIps(bs);
            var n := if |ips| < 16 then |ips| else 16;
            Connect(After(m[vip := Record(ips)], targets), vip).0 ==
            Some(Redirect(ips[Connects(targets, vip) % n], 0))
  {
    NextRedirect(m[vip := Record(AliveIps(bs))], targets, vip);
  }

  /** Every full cycle visits the first min(len, 16) alive backends once each, in order. */
  lemma FullCycleInOrder(m: Table, vip: U32, bs: seq<Health>, targets: seq<U32>, cycle: nat, i: nat)
    requires AliveIps(bs) != [] && i < 16 && i < |AliveIps(bs)|
    requires Connects(targets, vip) == cycle * (if |AliveIps(bs)| < 16 then |AliveIps(bs)| else 16) + i
    ensures Connect(After(m[vip := Record(AliveIps(bs))], targets), vip).0 == Some(Redirect(AliveIps(bs)[i], 0))
  {
    var n := if |AliveIps(bs)| < 16 then |AliveIps(bs)| else 16;
    PublishThenBalance(m, vip, bs, targets);
    ModUnique(Connects(targets, vip), cycle, i, n);
  }

  /** The end of a probe round for an address: publish the alive backends, if there are any, the
  address parses and the kernel map is at hand. */
  method PublishAlive(monitor: VipMonitor, vipMap: VipMap?, vip: string, vipIp: Option<U32>) returns (alive: seq<U32>)
    modifies vipMap
    ensures alive == if vip in monitor.backends then AliveIps(monitor.backends[vip]) else []
    ensures vipMap != null ==>
              vipMap.entries == if alive != [] && vipIp.Some? then old(vipMap.entries)[vipIp.value := Record(alive)]
                                else old(vipMap.entries)
  {
    alive := monitor.GetAlive(vip);
    if alive != [] && vipIp.Some? {
      UpdateBpfVip(vipMap, vipIp.value, alive);
    }
  }
}
