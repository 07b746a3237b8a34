/** The address table of contrib/macipgw/macip.c: who holds which address, and for how long. */
module MacIpLease {
  import opened Bytes

  const ARPTIMEOUT: int := 30
  const ARPRETRIES: int := 10

  datatype Assignment = FREE | LEASED | FIXED

  datatype IpEnt = IpEnt(state: Assignment, timo: int, retr: int)

  /** What happened to the addresses, by their place in the table. */
  datatype Event = Leased(i: nat) | Freed(i: nat)

  /** The last of these events for the place is a lease. */
  function Held(log: seq<Event>, i: nat): (h: bool) {
    if log == [] then false
    else
      var last := log[|log| - 1];
      if last.i == i then last.Leased? else Held(log[..|log| - 1], i)
  }

  lemma HeldStep(log: seq<Event>, e: Event, i: nat)
    ensures Held(log + [e], i) == if e.i == i then e.Leased? else Held(log, i)
  {
    assert (log + [e])[..|log|] == log;
  }

  /** No address goes out a second time while it is still held. */
  predicate NoDoubleLease(log: seq<Event>) {
    forall a, b :: 0 <= a < b < |log| && log[a].Leased? && log[b].Leased? && log[a].i == log[b].i ==>
      exists c :: a < c < b && log[c] == Freed(log[a].i)
  }

  /** A lease in the log counts until the address is freed. */
  lemma {:induction false} HeldSince(log: seq<Event>, a: nat)
    requires a < |log| && log[a].Leased?
    requires forall c :: a < c < |log| ==> log[c] != Freed(log[a].i)
    ensures Held(log, log[a].i)
  {
    var n := |log| - 1;
    if a < n {
      HeldSince(log[..n], a);
    }
  }

  lemma LeaseOfFree(log: seq<Event>, i: nat)
    requires NoDoubleLease(log) && !Held(log, i)
    ensures NoDoubleLease(log + [Leased(i)])
  {
    var more := log + [Leased(i)];
    forall a, b | 0 <= a < b < |more| && more[a].Leased? && more[b].Leased? && more[a].i == more[b].i
      ensures exists c :: a < c < b && more[c] == Freed(more[a].i)
    {
      if b < |log| {
        var c :| a < c < b && log[c] == Freed(log[a].i);
        assert more[c] == Freed(more[a].i);
      } else if forall c :: a < c < |log| ==> log[c] != Freed(i) {
        HeldSince(log, a);
      } else {
        var c :| a < c < |log| && log[c] == Freed(i);
        assert more[c] == Freed(more[a].i);
      }
    }
  }

  lemma FreeKeeps(log: seq<Event>, i: nat)
    requires NoDoubleLease(log)
    ensures NoDoubleLease(log + [Freed(i)])
  {
    var more := log + [Freed(i)];
    forall a, b | 0 <= a < b < |more| && more[a].Leased? && more[b].Leased? && more[a].i == more[b].i
      ensures exists c :: a < c < b && more[c] == Freed(more[a].i)
    {
      var c :| a < c < b && log[c] == Freed(log[a].i);
      assert more[c] == Freed(more[a].i);
    }
  }

  /** What one pass of macip_idle does to an entry. */
  function Aged(e: IpEnt, now: int): (r: IpEnt) {
    if e.state != LEASED || e.timo >= now then e
    else if e.retr != 0 then IpEnt(LEASED, now + ARPTIMEOUT, e.retr - 1)
    else IpEnt(FREE, e.timo, e.retr - 1)
  }

  function AgedBy(e: IpEnt, passes: seq<int>): (r: IpEnt)
    decreases |passes|
  {
    if passes == [] then e else AgedBy(Aged(e, passes[0]), passes[1..])
  }

  /** An entry that nothing refreshes is free after one pass more than it has probes left. */
  lemma {:induction false} UnrefreshedIsFreed(e: IpEnt, passes: seq<int>)
    requires e.state == LEASED && 0 <= e.retr == |passes| - 1 && passes[0] > e.timo
    requires forall k :: 0 <= k < |passes| - 1 ==> passes[k + 1] > passes[k] + ARPTIMEOUT
    ensures AgedBy(e, passes).state == FREE
    decreases |passes|
  {
    if e.retr != 0 {
      UnrefreshedIsFreed(Aged(e, passes[0]), passes[1..]);
    } else {
      assert AgedBy(Aged(e, passes[0]), passes[1..]) == Aged(e, passes[0]);
    }
  }

  /** A lease keeps all the time that its unsent probes still leave it, from when it was last heard from. */
  predicate Timely(e: IpEnt, heard: int) {
    e.state == LEASED ==>
      0 <= e.retr <= ARPRETRIES && e.timo >= heard + (ARPRETRIES + 1 - e.retr) * ARPTIMEOUT
  }

  // ---- Runs of the table

  /** The table and when the gateway last heard from each address, whatever it made of it. */
  datatype Table = Table(ipent: seq<IpEnt>, heard: seq<int>)

  /** A request for an address, a packet from one, or a pass of macip_idle. */
  datatype Action = Request(now: int) | Packet(ip: uint32, now: int) | Pass(now: int)

  predicate WellFormed(t: Table) {
    |t.ipent| == |t.heard| >= 2 && t.ipent[0].state == FIXED
  }

  /** The table of init_ip: the gateway's own address and free ones. */
  function Fresh(nipent: nat): (t: Table)
    requires nipent >= 2
    ensures WellFormed(t) && |t.ipent| == nipent
  {
    Table(seq(nipent, i => if i == 0 then IpEnt(FIXED, 0, 0) else IpEnt(FREE, 0, 0)), seq(nipent, _ => 0))
  }

  /** arp_set finds the entries at the offsets 1 to |ipent| - 1, and so every one but the last. */
  function Refreshed(t: Table, offset: int, now: int): (r: Table)
    requires WellFormed(t)
    ensures WellFormed(r) && |r.ipent| == |t.ipent|
  {
    var n := |t.ipent|;
    var e := IpEnt(if offset == 1 then FIXED else LEASED, now + ARPTIMEOUT, ARPRETRIES);
    Table(if 1 <= offset < n then t.ipent[offset - 1 := e] else t.ipent,
          if 1 <= offset <= n then t.heard[offset - 1 := now] else t.heard)
  }

  function FirstFree(es: seq<IpEnt>): (i: nat)
    ensures i <= |es| && (i < |es| ==> es[i].state == FREE) && forall k :: 0 <= k < i ==> es[k].state != FREE
  {
    if es == [] || es[0].state == FREE then 0 else 1 + FirstFree(es[1..])
  }

  function Next(net: uint32, t: Table, a: Action): (r: Table)
    requires WellFormed(t)
    ensures WellFormed(r) && |r.ipent| == |t.ipent|
  {
    match a
    case Request(now) =>
      var i := FirstFree(t.ipent);
      if i == |t.ipent| then t
      else Refreshed(t.(ipent := t.ipent[i := IpEnt(LEASED, ARPTIMEOUT, ARPRETRIES)]), i + 1, now)
    case Packet(ip, now) => Refreshed(t, ip - net, now)
    case Pass(now) => t.(ipent := seq(|t.ipent|, i requires 0 <= i < |t.ipent| => Aged(t.ipent[i], now)))
  }

  function After(net: uint32, t: Table, acts: seq<Action>): (r: Table)
    requires WellFormed(t)
    ensures WellFormed(r) && |r.ipent| == |t.ipent|
  {
    if acts == [] then t else Next(net, After(net, t, acts[..|acts| - 1]), acts[|acts| - 1])
  }

  /** In every run from a fresh table, this place is freed only after more than 330 seconds of silence. */
  ghost predicate LeaseLasts(net: uint32, nipent: nat, i: nat)
    requires 2 <= nipent && i < nipent
  {
    forall acts: seq<Action>, now: int ::
      var t := After(net, Fresh(nipent), acts);
      t.ipent[i].state != FREE && Aged(t.ipent[i], now).state == FREE ==>
        now > t.heard[i] + 330
  }

  predicate AllTimely(t: Table)
    requires WellFormed(t)
  {
    forall i :: 0 <= i < |t.ipent| - 1 ==> Timely(t.ipent[i], t.heard[i])
  }

  lemma NextIsTimely(net: uint32, t: Table, a: Action)
    requires WellFormed(t) && AllTimely(t)
    ensures AllTimely(Next(net, t, a))
  {
    hide FirstFree;
  }

  lemma {:induction false} AfterIsTimely(net: uint32, nipent: nat, acts: seq<Action>)
    requires nipent >= 2
    ensures AllTimely(After(net, Fresh(nipent), acts))
  {
    if acts != [] {
      var n := |acts| - 1;
      AfterIsTimely(net, nipent, acts[..n]);
      NextIsTimely(net, After(net, Fresh(nipent), acts[..n]), acts[n]);
    }
  }

  lemma EarlierPlacesLast(net: uint32, nipent: nat, i: nat)
    requires 2 <= nipent && i < nipent - 1
    ensures LeaseLasts(net, nipent, i)
  {
    forall acts: seq<Action>, now: int
      ensures var t := After(net, Fresh(nipent), acts);
              t.ipent[i].state != FREE && Aged(t.ipent[i], now).state == FREE ==>
                now > t.heard[i] + 330
    {
      AfterIsTimely(net, nipent, acts);
      var t := After(net, Fresh(nipent), acts);
      assert Timely(t.ipent[i], t.heard[i]);
    }
  }

  lemma AfterMore(net: uint32, t: Table, acts: seq<Action>, a: Action)
    requires WellFormed(t)
    ensures After(net, t, acts + [a]) == Next(net, After(net, t, acts), a)
  {
    assert (acts + [a])[..|acts|] == acts;
  }

  /** `n` requests lease the first `n` free places; the last one gets no time to live. */
  lemma {:induction false} FillUp(net: uint32, nipent: nat, n: nat) returns (acts: seq<Action>)
    requires nipent >= 2 && n < nipent
    ensures var t := After(net, Fresh(nipent), acts);
            && (forall k :: 1 <= k <= n ==> t.ipent[k].state == LEASED)
            && (forall k :: n < k < nipent ==> t.ipent[k].state == FREE)
            && (n == nipent - 1 ==> t.ipent[n] == IpEnt(LEASED, ARPTIMEOUT, ARPRETRIES))
  {
    if n == 0 {
      acts := [];
    } else {
      var before := FillUp(net, nipent, n - 1);
      acts := before + [Request(1000)];
      AfterMore(net, Fresh(nipent), before, Request(1000));
      var t := After(net, Fresh(nipent), before);
      var i := FirstFree(t.ipent);
      assert t.ipent[0].state == FIXED && t.ipent[n].state == FREE;
      assert i == n;
    }
  }

  /** From then on the holder is heard from before each pass, and still loses a probe with each. */
  lemma {:induction false} RunDown(net: uint32, nipent: nat, n: nat) returns (acts: seq<Action>)
    requires nipent >= 2 && n <= ARPRETRIES && net + nipent <= 0xffff_ffff
    ensures After(net, Fresh(nipent), acts).ipent[nipent - 1]
         == IpEnt(LEASED, if n == 0 then ARPTIMEOUT else 1000 + 31 * n - 1, ARPRETRIES - n)
  {
    if n == 0 {
      acts := FillUp(net, nipent, nipent - 1);
    } else {
      var before := RunDown(net, nipent, n - 1);
      var now := 1000 + 31 * (n - 1);
      acts := before + [Packet(net + nipent, now)] + [Pass(now)];
      AfterMore(net, Fresh(nipent), before, Packet(net + nipent, now));
      AfterMore(net, Fresh(nipent), before + [Packet(net + nipent, now)], Pass(now));
    }
  }

  lemma LastPlaceDoesNot(net: uint32, nipent: nat)
    requires 2 <= nipent && net + nipent <= 0xffff_ffff
    ensures !LeaseLasts(net, nipent, nipent - 1)
  {
    var before := RunDown(net, nipent, ARPRETRIES);
    var now := 1000 + 31 * ARPRETRIES;
    var acts := before + [Packet(net + nipent, now)];
    AfterMore(net, Fresh(nipent), before, Packet(net + nipent, now));
    var t := After(net, Fresh(nipent), acts);
    assert t.heard[nipent - 1] == now && t.ipent[nipent - 1].state == LEASED;
    assert Aged(t.ipent[nipent - 1], now).state == FREE;
  }

  // ---- Every run from any table

  /** The times of the passes. */
  function Passes(acts: seq<Action>): (ps: seq<int>) {
    if acts == [] then []
    else
      var a := acts[|acts| - 1];
      Passes(acts[..|acts| - 1]) + if a.Pass? then [a.now] else []
  }

  lemma {:induction false} AgedByMore(e: IpEnt, passes: seq<int>, p: int)
    ensures AgedBy(e, passes + [p]) == Aged(AgedBy(e, passes), p)
    decreases |passes|
  {
    if passes == [] {
      assert (passes + [p])[1..] == [];
    } else {
      assert (passes + [p])[1..] == passes[1..] + [p];
      AgedByMore(Aged(e, passes[0]), passes[1..], p);
    }
  }

  /** A pass takes at most one probe, and frees only what has none. */
  lemma {:induction false} AgesSlowly(e: IpEnt, passes: seq<int>)
    requires e.state == LEASED && |passes| <= e.retr
    ensures AgedBy(e, passes).state == LEASED
    decreases |passes|
  {
    if passes != [] {
      AgesSlowly(Aged(e, passes[0]), passes[1..]);
    }
  }

  /** As long as it has probes left, the last entry changes with the passes only. */
  lemma {:induction false} LastOnlyAges(net: uint32, t: Table, acts: seq<Action>)
    requires WellFormed(t)
    requires t.ipent[|t.ipent| - 1].state == LEASED && |Passes(acts)| <= t.ipent[|t.ipent| - 1].retr
    ensures After(net, t, acts).ipent[|t.ipent| - 1] == AgedBy(t.ipent[|t.ipent| - 1], Passes(acts))
  {
    if acts != [] {
      var n, e := |acts| - 1, t.ipent[|t.ipent| - 1];
      LastOnlyAges(net, t, acts[..n]);
      AgesSlowly(e, Passes(acts[..n]));
      if acts[n].Pass? {
        AgedByMore(e, Passes(acts[..n]), acts[n].now);
      } else {
        assert Passes(acts) == Passes(acts[..n]);
      }
    }
  }

  /** Whatever packets and requests come, the last address is free after one pass more than its lease has probes. */
  lemma LastLeaseRunsOut(net: uint32, t: Table, acts: seq<Action>)
    requires WellFormed(t) && acts != [] && acts[|acts| - 1].Pass?
    requires var e, ps := t.ipent[|t.ipent| - 1], Passes(acts);
             && e.state == LEASED && 0 <= e.retr == |ps| - 1 && ps[0] > e.timo
             && forall k :: 0 <= k < |ps| - 1 ==> ps[k + 1] > ps[k] + ARPTIMEOUT
    ensures After(net, t, acts).ipent[|t.ipent| - 1].state == FREE
  {
    var n, e := |acts| - 1, t.ipent[|t.ipent| - 1];
    LastOnlyAges(net, t, acts[..n]);
    AgedByMore(e, Passes(acts[..n]), acts[n].now);
    UnrefreshedIsFreed(e, Passes(acts));
  }

  /** A lease lasts 330 seconds past the last packet of its holder exactly at the addresses that arp_set can find. */
  lemma LeaseLastsIff(net: uint32, nipent: nat, ip: uint32)
    requires 2 <= nipent && net + nipent <= 0xffff_ffff && 1 <= ip - net <= nipent
    ensures LeaseLasts(net, nipent, ip - net - 1) <==> ip - net < nipent
  {
    if ip - net < nipent {
      EarlierPlacesLast(net, nipent, ip - net - 1);
    } else {
      LastPlaceDoesNot(net, nipent);
    }
  }

  /** The table; `heard` is when the gateway last heard from each address, whatever it made of it. */
  class Gateway {
    const net: uint32
    const nipent: nat
    var ipent: seq<IpEnt>
    ghost var heard: seq<int>
    ghost var log: seq<Event>

    ghost function Contents(): (t: Table)
      reads `ipent, `heard
    {
      Table(ipent, heard)
    }

    ghost predicate Shape()
      reads `ipent, `heard
    {
      && 2 <= nipent && net + nipent < 0xffff_ffff && |ipent| == nipent == |heard|
      && (forall i :: 0 <= i < nipent ==> (ipent[i].state == FIXED <==> i == 0))
    }

    ghost predicate Logged()
      requires Shape()
      reads `ipent, `heard, `log
    {
      && (forall i :: 0 <= i < nipent && Held(log, i) ==> ipent[i].state == LEASED)
      && NoDoubleLease(log)
    }

    ghost predicate Valid()
      reads this
    {
      Shape() && Logged() && AllTimely(Contents())
    }

    /** init_ip for a mask with `hosts` as its complement. */
    constructor (net: uint32, hosts: nat)
      requires hosts >= 3 && net + hosts <= 0xffff_ffff
      ensures Valid() && this.net == net && nipent == hosts - 1 && log == [] && Contents() == Fresh(hosts - 1)
    {
      this.net, nipent := net, hosts - 1;
      ipent := seq(hosts - 1, i => if i == 0 then IpEnt(FIXED, 0, 0) else IpEnt(FREE, 0, 0));
      heard, log := seq(hosts - 1, _ => 0), [];
    }

    /** get_ipent, with its 32-bit subtraction: it finds every address of the table but the last. */
    function GetIpent(ip: uint32): (i: int)
      requires Shape()
      reads `ipent, `heard
      ensures i == -1 || 0 <= i < nipent - 1
      ensures i >= 0 <==> 1 <= ip - net < nipent
      ensures i >= 0 ==> ip == net + i + 1
    {
      var offset := (ip - net) % 0x1_0000_0000;
      if 0 < offset < nipent then offset - 1 else -1
    }

    ghost method Remember(e: Event)
      modifies `log
      ensures log == old(log) + [e]
      ensures forall i: nat :: Held(log, i) == if e.i == i then e.Leased? else old(Held(log, i))
    {
      forall i: nat
        ensures Held(log + [e], i) == if e.i == i then e.Leased? else Held(log, i)
      {
        HeldStep(log, e, i);
      }
      log := log + [e];
    }

    /** lease_ip: the first free address, or 0. */
    method LeaseIp() returns (ip: uint32, i: nat)
      requires Shape() && Logged()
      modifies `ipent, `log
      ensures Shape() && Logged()
      ensures ip == 0 <==> forall k :: 0 <= k < nipent ==> old(ipent)[k].state != FREE
      ensures ip == 0 ==> ipent == old(ipent) && log == old(log)
      ensures ip != 0 ==> 0 < i < nipent && ip == net + i + 1 && !Held(old(log), i)
      ensures ip != 0 ==> old(ipent)[i].state == FREE && forall k :: 0 <= k < i ==> old(ipent)[k].state != FREE
      ensures ip != 0 ==> ipent == old(ipent)[i := IpEnt(LEASED, ARPTIMEOUT, ARPRETRIES)]
      ensures ip != 0 ==> log == old(log) + [Leased(i)]
    {
      i := 0;
      while i < nipent
        invariant i <= nipent && ipent == old(ipent) && log == old(log)
        invariant forall k :: 0 <= k < i ==> ipent[k].state != FREE
      {
        if ipent[i].state == FREE {
          ipent := ipent[i := IpEnt(LEASED, ARPTIMEOUT, ARPRETRIES)];
          LeaseOfFree(log, i);
          Remember(Leased(i));
          return net + i + 1, i;
        }
        i := i + 1;
      }
      ip := 0;
    }

    /** arp_set for an address heard from at the time `now`. */
    method ArpSet(ip: uint32, now: int)
      requires Shape() && Logged()
      modifies `ipent, `heard
      ensures Shape() && Logged()
      ensures heard == if 1 <= ip - net <= nipent then old(heard)[ip - net - 1 := now] else old(heard)
      ensures ipent == if 1 <= ip - net < nipent
                       then old(ipent)[ip - net - 1 := IpEnt(if ip == net + 1 then FIXED else LEASED,
                                                             now + ARPTIMEOUT, ARPRETRIES)]
                       else old(ipent)
    {
      var i := GetIpent(ip);
      if i >= 0 {
        var state := if ipent[i].state == FREE then LEASED else ipent[i].state;
        ipent := ipent[i := IpEnt(state, now + ARPTIMEOUT, ARPRETRIES)];
      }
      heard := if 1 <= ip - net <= nipent then heard[ip - net - 1 := now] else heard;
    }

    /** A packet from `ip`. */
    method Hear(ip: uint32, now: int)
      requires Valid()
      modifies `ipent, `heard
      ensures Valid() && Contents() == Next(net, old(Contents()), Packet(ip, now))
    {
      ArpSet(ip, now);
    }

    /** The assignment request: a lease, and the address counts as heard from. */
    method Assign(now: int) returns (ip: uint32, i: nat)
      requires Valid()
      modifies `ipent, `heard, `log
      ensures Valid()
      ensures ip == 0 <==> forall k :: 0 <= k < nipent ==> old(ipent)[k].state != FREE
      ensures ip == 0 ==> ipent == old(ipent) && log == old(log)
      ensures ip != 0 ==> 0 < i < nipent && ip == net + i + 1 && old(ipent)[i].state == FREE
      ensures ip != 0 ==> log == old(log) + [Leased(i)] && heard == old(heard)[i := now]
      ensures Contents() == Next(net, old(Contents()), Request(now))
      ensures ip != 0 ==>
                ipent == old(ipent)[i := IpEnt(LEASED, if i < nipent - 1 then now + ARPTIMEOUT else ARPTIMEOUT,
                                               ARPRETRIES)]
    {
      ip, i := LeaseIp();
      if ip != 0 {
        ArpSet(ip, now);
      }
    }

    /** macip_idle: any address but the last is freed only after 330 seconds of silence. */
    method Idle(now: int)
      requires Valid()
      modifies `ipent, `log
      ensures Valid()
      ensures Contents() == Next(net, old(Contents()), Pass(now))
      ensures forall i :: 0 <= i < nipent - 1 && old(ipent)[i].state != FREE && ipent[i].state == FREE ==>
                now > heard[i] + 330
    {
      for i := 0 to nipent
        invariant Valid()
        invariant forall k :: 0 <= k < nipent ==> ipent[k] == if k < i then Aged(old(ipent)[k], now) else old(ipent)[k]
      {
        if ipent[i].state == LEASED && ipent[i].timo < now {
          Expire(i, now);
        }
      }
      forall i | 0 <= i < nipent - 1 && old(ipent)[i].state != FREE && ipent[i].state == FREE
        ensures now > heard[i] + 330
      {
        assert Timely(old(ipent)[i], old(heard)[i]);
      }
    }

    /** The step for one entry whose time is up. */
    method Expire(i: nat, now: int)
      requires Valid() && i < nipent && ipent[i].state == LEASED && ipent[i].timo < now
      modifies `ipent, `log
      ensures Valid() && ipent == old(ipent)[i := Aged(old(ipent)[i], now)]
    {
      assert i < nipent - 1 ==> Timely(ipent[i], heard[i]);
      var e := ipent[i];
      if e.retr != 0 {
        ipent := ipent[i := IpEnt(LEASED, now + ARPTIMEOUT, e.retr - 1)];
      } else {
        ipent := ipent[i := IpEnt(FREE, e.timo, e.retr - 1)];
        FreeKeeps(log, i);
        Remember(Freed(i));
      }
    }

    /** Every run of the gateway. */
    method Run(acts: seq<Action>)
      requires Valid()
      modifies `ipent, `heard, `log
      ensures Valid() && Contents() == After(net, old(Contents()), acts)
    {
      for i := 0 to |acts|
        invariant Valid() && Contents() == After(net, old(Contents()), acts[..i])
      {
        assert acts[..i + 1][..i] == acts[..i];
        match acts[i] {
          case Request(now) =>
            var ip, k := Assign(now);
          case Packet(ip, now) =>
            Hear(ip, now);
          case Pass(now) =>
            Idle(now);
        }
      }
      assert acts[..|acts|] == acts;
    }
  }
}
