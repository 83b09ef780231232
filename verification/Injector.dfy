/** The fault injector of libcpe464: every sendto goes through it, and what it
    may do to one message is all the network can do to a message in transit.
    Random draws (whether the chance event fires, which one, which byte) are
    arbitrary arguments. */
module Injector {
  import opened Bytes
  import opened Checksum
  import opened Wire

  datatype MsgEvent =
    | Drop(all: bool, listed: seq<u32>)
    | FlipBits
    | InfoSeqNo

  /** The result codes of IMsgEvent::run. */
  const UNCHANGED := 0
  const CHANGED := 1
  const DROPPED := 2

  /** The draws one message takes: a byte position for each standard event, and
      for the chance event whether it fires, which one it is, and its position. */
  datatype Draws = Draws(standardAt: seq<nat>, fire: bool, pick: nat, at: nat)

  ghost predicate Legal(standard: seq<MsgEvent>, chance: seq<MsgEvent>, len: nat, d: Draws)
  {
    && |d.standardAt| == |standard|
    && (forall i :: 0 <= i < |standard| ==> d.standardAt[i] < len)
    && (chance != [] ==> d.pick < |chance|)
    && d.at < len
  }

  // ---- specification ----

  predicate Drops(ev: MsgEvent, msgNo: u32) { ev.Drop? && (ev.all || msgNo in ev.listed) }

  /** XOR with 0xFF complements every bit of one byte. */
  function FlipAt(s: seq<byte>, at: nat): (r: seq<byte>)
    requires at < |s|
    ensures |r| == |s|
  {
    s[at := 0xFF - s[at]]
  }

  function Effect(ev: MsgEvent, s: seq<byte>, at: nat): (r: seq<byte>)
    requires at < |s|
    ensures |r| == |s|
  {
    if ev.FlipBits? then FlipAt(s, at) else s
  }

  function Result(ev: MsgEvent, msgNo: u32): int
  {
    if Drops(ev, msgNo) then DROPPED else if ev.FlipBits? then CHANGED else UNCHANGED
  }

  /** All standard events, in order, stopping at the first drop. */
  function RunAll(evs: seq<MsgEvent>, s: seq<byte>, msgNo: u32, ats: seq<nat>): (r: (seq<byte>, int))
    requires |ats| == |evs| && forall i :: 0 <= i < |evs| ==> ats[i] < |s|
    ensures |r.0| == |s|
  {
    if evs == [] then (s, UNCHANGED)
    else
      var t := Effect(evs[0], s, ats[0]);
      if Drops(evs[0], msgNo) then (t, DROPPED)
      else
        var (u, q) := RunAll(evs[1..], t, msgNo, ats[1..]);
        (u, if q == UNCHANGED then Result(evs[0], msgNo) else q)
  }

  /** The standard events, then at most one of the chance events. */
  function Process(standard: seq<MsgEvent>, chance: seq<MsgEvent>, s: seq<byte>, msgNo: u32, d: Draws)
    : (r: (seq<byte>, int))
    requires Legal(standard, chance, |s|, d)
  {
    var (t, q) := RunAll(standard, s, msgNo, d.standardAt);
    if chance != [] && d.fire then
      var ev := chance[d.pick];
      (Effect(ev, t, d.at), if q == DROPPED then DROPPED else Result(ev, msgNo))
    else (t, q)
  }

  /** What leaves the machine: nothing for a dropped message. */
  function Sent(standard: seq<MsgEvent>, chance: seq<MsgEvent>, s: seq<byte>, msgNo: u32, d: Draws)
    : Option<seq<byte>>
    requires Legal(standard, chance, |s|, d)
  {
    var (t, q) := Process(standard, chance, s, msgNo, d);
    if q == DROPPED then None else Some(t)
  }

  // ---- what gets registered: SettingsManager ----

  /** The drop and flip flags of one call of sendErr_init. */
  datatype Flags = Flags(drop: bool, flip: bool)

  /** The environment (None: variable not set, otherwise the numbers found in
      it), and the calls of sendErr_init so far. */
  datatype Settings = Settings(envDrop: Option<seq<int>>, envFlip: Option<seq<int>>, calls: seq<Flags>)

  /** parserLong2Uint32: negative numbers are skipped. */
  function Listed(numbers: seq<int>): seq<u32>
  {
    if numbers == [] then []
    else if numbers[0] >= 0 then [numbers[0] % 0x1_0000_0000] + Listed(numbers[1..])
    else Listed(numbers[1..])
  }

  /** The message numbers to drop, empty if there is no such list. */
  function DropList(c: Settings): seq<u32>
  {
    if c.envDrop.Some? then Listed(c.envDrop.value) else []
  }

  /** A drop list, if there is one, and what every call of sendErr_init adds. */
  function Standard(c: Settings): seq<MsgEvent>
  {
    (if DropList(c) != [] then [Drop(false, DropList(c))] else []) + seq(|c.calls|, _ => InfoSeqNo)
  }

  /** What one environment variable adds to the chance events. */
  function FromEnv(env: Option<seq<int>>, ev: MsgEvent): seq<MsgEvent>
  {
    if env.Some? && Listed(env.value) == [] then [ev] else []
  }

  /** What one call of sendErr_init adds, where no variable overrides it. */
  function FromCall(drop: bool, flip: bool, f: Flags): seq<MsgEvent>
  {
    (if drop && f.drop then [Drop(true, [])] else []) + (if flip && f.flip then [FlipBits] else [])
  }

  function FromCalls(drop: bool, flip: bool, calls: seq<Flags>): seq<MsgEvent>
  {
    if calls == [] then []
    else FromCalls(drop, flip, calls[..|calls| - 1]) + FromCall(drop, flip, calls[|calls| - 1])
  }

  function Chance(c: Settings): seq<MsgEvent>
  {
    FromEnv(c.envDrop, Drop(true, [])) + FromEnv(c.envFlip, FlipBits)
    + FromCalls(c.envDrop.None?, c.envFlip.None?, c.calls)
  }

  /** A variable without a non-negative number in it registers a flip whatever
      the program asked for; one with such a number registers none. */
  ghost predicate FlipsRegistered(c: Settings)
  {
    match c.envFlip
    case None => exists f :: f in c.calls && f.flip
    case Some(numbers) => forall n :: n in numbers ==> n < 0
  }

  lemma {:induction false} ListedEmpty(numbers: seq<int>)
    ensures Listed(numbers) == [] <==> forall n :: n in numbers ==> n < 0
  {
    if numbers != [] {
      ListedEmpty(numbers[1..]);
      assert numbers[0] in numbers && forall n :: n in numbers[1..] ==> n in numbers;
      forall n | n in numbers ensures n == numbers[0] || n in numbers[1..] {
        assert numbers == [numbers[0]] + numbers[1..];
      }
    }
  }

  lemma {:induction false} FlipFromCalls(drop: bool, flip: bool, calls: seq<Flags>)
    ensures FlipBits in FromCalls(drop, flip, calls) <==> flip && exists f :: f in calls && f.flip
  {
    if calls != [] {
      var k := |calls| - 1;
      FlipFromCalls(drop, flip, calls[..k]);
      assert calls == calls[..k] + [calls[k]];
      assert calls[k] in calls;
    }
  }

  /** Whatever the environment and the program say, a flip is never a standard
      event, and it is a chance event exactly in those cases. */
  lemma FlipRegisteredIff(c: Settings)
    ensures FlipBits !in Standard(c)
    ensures FlipBits in Chance(c) <==> FlipsRegistered(c)
  {
    if c.envFlip.Some? { ListedEmpty(c.envFlip.value); }
    FlipFromCalls(c.envDrop.None?, c.envFlip.None?, c.calls);
  }

  /** The same for drops of everything: a variable without a non-negative number
      registers one, whatever the program asked for. */
  ghost predicate DropsRegistered(c: Settings)
  {
    match c.envDrop
    case None => exists f :: f in c.calls && f.drop
    case Some(numbers) => forall n :: n in numbers ==> n < 0
  }

  ghost predicate SomeDrops(evs: seq<MsgEvent>, msgNo: u32) { exists ev :: ev in evs && Drops(ev, msgNo) }

  lemma SomeDropsAppend(a: seq<MsgEvent>, b: seq<MsgEvent>, msgNo: u32)
    ensures SomeDrops(a + b, msgNo) <==> SomeDrops(a, msgNo) || SomeDrops(b, msgNo)
  {
    assert forall ev :: ev in a + b <==> ev in a || ev in b;
  }

  lemma CallDrops(drop: bool, flip: bool, f: Flags, msgNo: u32)
    ensures SomeDrops(FromCall(drop, flip, f), msgNo) <==> drop && f.drop
  {
    var evs := FromCall(drop, flip, f);
    if drop && f.drop { assert evs[0] == Drop(true, []) && evs[0] in evs && Drops(evs[0], msgNo); }
  }

  lemma {:induction false} CallsDrop(drop: bool, flip: bool, calls: seq<Flags>, msgNo: u32)
    ensures SomeDrops(FromCalls(drop, flip, calls), msgNo) <==> drop && exists f :: f in calls && f.drop
  {
    if calls != [] {
      var k := |calls| - 1;
      CallsDrop(drop, flip, calls[..k], msgNo);
      CallDrops(drop, flip, calls[k], msgNo);
      SomeDropsAppend(FromCalls(drop, flip, calls[..k]), FromCall(drop, flip, calls[k]), msgNo);
      assert calls == calls[..k] + [calls[k]];
      assert calls[k] in calls;
    }
  }

  lemma EnvDrops(c: Settings, msgNo: u32)
    ensures SomeDrops(FromEnv(c.envDrop, Drop(true, [])) + FromEnv(c.envFlip, FlipBits), msgNo)
            <==> c.envDrop.Some? && forall n :: n in c.envDrop.value ==> n < 0
  {
    var a, b := FromEnv(c.envDrop, Drop(true, [])), FromEnv(c.envFlip, FlipBits);
    SomeDropsAppend(a, b, msgNo);
    if c.envDrop.Some? { ListedEmpty(c.envDrop.value); }
    if a != [] { assert a[0] == Drop(true, []) && a[0] in a && Drops(a[0], msgNo); }
  }

  /** For every environment, every run of calls and every message number, some
      chance event drops that message exactly in those cases. */
  lemma DropRegisteredIff(c: Settings, msgNo: u32)
    ensures SomeDrops(Chance(c), msgNo) <==> DropsRegistered(c)
  {
    EnvDrops(c, msgNo);
    CallsDrop(c.envDrop.None?, c.envFlip.None?, c.calls, msgNo);
    SomeDropsAppend(FromEnv(c.envDrop, Drop(true, [])) + FromEnv(c.envFlip, FlipBits),
                    FromCalls(c.envDrop.None?, c.envFlip.None?, c.calls), msgNo);
  }

  lemma {:induction false} ListedConcat(a: seq<int>, b: seq<int>)
    ensures Listed(a + b) == Listed(a) + Listed(b)
  {
    if a == [] {
      assert a + b == b;
    } else {
      ListedConcat(a[1..], b);
      assert (a + b)[1..] == a[1..] + b;
    }
  }

  /** The list holds the non-negative numbers, cut to 32 bits, in their order:
      each adds its own entry behind those of the numbers before it. */
  lemma ListedAt(numbers: seq<int>, i: nat)
    requires i < |numbers|
    ensures Listed(numbers[..i + 1]) ==
            Listed(numbers[..i]) + if numbers[i] < 0 then [] else [numbers[i] % 0x1_0000_0000]
  {
    var one := [numbers[i]];
    assert numbers[..i + 1] == numbers[..i] + one;
    ListedConcat(numbers[..i], one);
    assert one[1..] == [];
  }

  /** Bit k of a number. */
  function Bit(v: nat, k: nat): nat { if k == 0 then v % 2 else Bit(v / 2, k - 1) }

  function Pow2(n: nat): nat { if n == 0 then 1 else 2 * Pow2(n - 1) }

  /** Two numbers that add up to n ones differ in each of the n bits. */
  lemma {:induction false} BitsDiffer(v: nat, u: nat, n: nat, k: nat)
    requires k < n && v + u == Pow2(n) - 1
    ensures Bit(v, k) != Bit(u, k)
    decreases k
  {
    if k > 0 { BitsDiffer(v / 2, u / 2, n - 1, k - 1); }
  }

  /** The byte hit, and no other, is changed; all its eight bits are, and hitting
      it again restores it. */
  lemma FlipAtExactly(s: seq<byte>, at: nat)
    requires at < |s|
    ensures var r := FlipAt(s, at);
            && (forall i :: 0 <= i < |s| && i != at ==> r[i] == s[i])
            && (forall k :: 0 <= k < 8 ==> Bit(r[at], k) != Bit(s[at], k))
            && FlipAt(r, at) == s
  {
    var r := FlipAt(s, at);
    assert Pow2(8) == 0x100;
    forall k | 0 <= k < 8 ensures Bit(r[at], k) != Bit(s[at], k) {
      BitsDiffer(r[at], s[at], 8, k);
    }
  }

  /** How often byte i is hit. */
  function Hits(evs: seq<MsgEvent>, ats: seq<nat>, i: nat): nat
    requires |ats| == |evs|
  {
    if evs == [] then 0
    else (if evs[0].FlipBits? && ats[0] == i then 1 else 0) + Hits(evs[1..], ats[1..], i)
  }

  /** Standard events none of which drops the message complement each byte as
      often as a flip hits it, and report a change exactly if one is a flip. */
  lemma {:induction false} StandardEffect(evs: seq<MsgEvent>, s: seq<byte>, msgNo: u32, ats: seq<nat>, i: nat)
    requires |ats| == |evs| && (forall j :: 0 <= j < |evs| ==> ats[j] < |s|) && i < |s|
    requires !SomeDrops(evs, msgNo)
    ensures var (t, q) := RunAll(evs, s, msgNo, ats);
            && t[i] == (if Hits(evs, ats, i) % 2 == 0 then s[i] else 0xFF - s[i])
            && q == if FlipBits in evs then CHANGED else UNCHANGED
    decreases evs
  {
    if evs != [] {
      assert evs[0] in evs && forall ev :: ev in evs[1..] ==> ev in evs;
      assert FlipBits in evs <==> evs[0].FlipBits? || FlipBits in evs[1..] by { assert evs == [evs[0]] + evs[1..]; }
      StandardEffect(evs[1..], Effect(evs[0], s, ats[0]), msgNo, ats[1..], i);
    }
  }

  /** What is reported: dropped if anything that ran dropped it; else what the
      chance event did if one fired, and only otherwise what the standard ones did. */
  lemma ReportExactly(standard: seq<MsgEvent>, chance: seq<MsgEvent>, s: seq<byte>, msgNo: u32, d: Draws)
    requires Legal(standard, chance, |s|, d)
    ensures var q := Process(standard, chance, s, msgNo, d).1;
            var fired := chance != [] && d.fire;
            && (q == DROPPED <==> SomeDrops(standard, msgNo) || (fired && Drops(chance[d.pick], msgNo)))
            && (q != DROPPED ==> (q == CHANGED <==> if fired then chance[d.pick].FlipBits? else FlipBits in standard))
  {
    StandardResult(standard, s, msgNo, d.standardAt);
    if !SomeDrops(standard, msgNo) { StandardEffect(standard, s, msgNo, d.standardAt, d.at); }
  }

  lemma StandardDrops(c: Settings, msgNo: u32)
    ensures (exists ev :: ev in Standard(c) && Drops(ev, msgNo)) <==> msgNo in DropList(c)
  {
    if msgNo in DropList(c) {
      assert Standard(c)[0] == Drop(false, DropList(c));
      assert Standard(c)[0] in Standard(c) && Drops(Standard(c)[0], msgNo);
    }
  }

  // ---- the classes ----

  /** errorDrop::run: walk the list until the message number turns up. */
  method RunDrop(dropAll: bool, listed: seq<u32>, msgNo: u32) returns (nResult: int)
    ensures nResult == if dropAll || msgNo in listed then DROPPED else UNCHANGED
  {
    var toDrop := dropAll;
    var it := 0;
    while it < |listed|
      invariant it <= |listed|
      invariant msgNo !in listed[..it]
      invariant toDrop == dropAll
    {
      if listed[it] == msgNo {
        toDrop := true;
        break;
      }
      it := it + 1;
    }
    nResult := if toDrop then DROPPED else UNCHANGED;
  }

  /** errorFlipBits::run. */
  method RunFlip(buf: array<byte>, at: nat) returns (nResult: int)
    requires at < buf.Length
    modifies buf
    ensures buf[..] == FlipAt(old(buf[..]), at) && nResult == CHANGED
  {
    buf[at] := 0xFF - buf[at];
    nResult := CHANGED;
  }

  method RunEvent(ev: MsgEvent, buf: array<byte>, msgNo: u32, at: nat) returns (nResult: int)
    requires at < buf.Length
    modifies buf
    ensures buf[..] == Effect(ev, old(buf[..]), at) && nResult == Result(ev, msgNo)
  {
    match ev {
      case Drop(all, listed) => nResult := RunDrop(all, listed, msgNo);
      case FlipBits => nResult := RunFlip(buf, at);
      case InfoSeqNo => nResult := UNCHANGED;
    }
  }

  class ErrorDrop {
    var dropAll: bool
    var dropList: seq<u32>

    constructor ()
      ensures Event() == Drop(true, [])
    {
      dropAll, dropList := true, [];
    }

    /** The event as it stands when it is handed to the manager. */
    function Event(): MsgEvent
      reads this
    {
      Drop(dropAll, dropList)
    }

    method SetDropAll(all: bool)
      modifies this
      ensures Event() == Drop(all, old(dropList))
    {
      dropAll := all;
    }

    method SetDropSpecific(listed: seq<u32>)
      modifies this
      ensures Event() == Drop(false, listed)
    {
      dropAll, dropList := false, listed;
    }
  }

  class PacketManager {
    var standard: seq<MsgEvent>
    var chance: seq<MsgEvent>
    var msgNo: u32

    constructor ()
      ensures standard == [] && chance == [] && msgNo == 0
    {
      standard, chance, msgNo := [], [], 0;
    }

    method AddMsgEventStandard(ev: MsgEvent)
      modifies this`standard
      ensures standard == old(standard) + [ev]
    {
      standard := standard + [ev];
    }

    method AddMsgEventRandom(ev: MsgEvent)
      modifies this`chance
      ensures chance == old(chance) + [ev]
    {
      chance := chance + [ev];
    }

    method RunMsgEvents(evs: seq<MsgEvent>, buf: array<byte>, no: u32, ats: seq<nat>) returns (nResult: int)
      requires |ats| == |evs| && forall i :: 0 <= i < |evs| ==> ats[i] < buf.Length
      modifies buf
      ensures (buf[..], nResult) == RunAll(evs, old(buf[..]), no, ats)
    {
      ghost var s := buf[..];
      var hasChanged := false;
      var i := 0;
      while i < |evs|
        invariant i <= |evs|
        invariant RunAll(evs, s, no, ats) == var (u, q) := RunAll(evs[i..], buf[..], no, ats[i..]);
                                             (u, if q == UNCHANGED && hasChanged then CHANGED else q)
      {
        assert evs[i..][1..] == evs[i + 1..] && ats[i..][1..] == ats[i + 1..];
        nResult := RunEvent(evs[i], buf, no, ats[i]);
        if nResult == CHANGED {
          hasChanged := true;
        } else if nResult == DROPPED {
          return DROPPED;
        }
        i := i + 1;
      }
      nResult := if hasChanged then CHANGED else UNCHANGED;
    }

    method ProcessEvents(buf: array<byte>, no: u32, d: Draws) returns (nResult: int)
      requires Legal(standard, chance, buf.Length, d)
      modifies buf
      ensures (buf[..], nResult) == Process(standard, chance, old(buf[..]), no, d)
    {
      var hasChanged, hasDropped := UNCHANGED, false;
      nResult := RunMsgEvents(standard, buf, no, d.standardAt);
      if nResult == DROPPED {
        hasDropped := true;
      } else if nResult == CHANGED {
        hasChanged := CHANGED;
      }
      StandardResult(standard, old(buf[..]), no, d.standardAt);
      if chance != [] && d.fire {
        nResult := RunEvent(chance[d.pick], buf, no, d.at);
        if nResult == DROPPED {
          hasDropped := true;
        } else {
          hasChanged := nResult;
        }
      }
      nResult := if hasDropped then DROPPED else hasChanged;
    }

    /** sendtoErr: number the message, run the events over a private copy, and
        report the full length whether or not it was dropped.  The caller's
        buffer is outside the frame, so it cannot change. */
    method SendtoErr(buf: array<byte>, d: Draws) returns (sent: Option<seq<byte>>, nResult: int)
      requires buf.Length > 0 && Legal(standard, chance, buf.Length, d)
      modifies this`msgNo
      ensures msgNo == (old(msgNo) as int + 1) % 0x1_0000_0000
      ensures sent == Sent(standard, chance, buf[..], msgNo, d)
      ensures nResult == buf.Length
    {
      msgNo := (msgNo as int + 1) % 0x1_0000_0000;
      var bufTmp := new byte[buf.Length];
      for i := 0 to buf.Length
        modifies bufTmp
        invariant forall k :: 0 <= k < i ==> bufTmp[k] == buf[k]
      {
        bufTmp[i] := buf[i];
      }
      assert bufTmp[..] == buf[..];
      var q := ProcessEvents(bufTmp, msgNo, d);
      sent := if q == DROPPED then None else Some(bufTmp[..]);
      nResult := buf.Length;
    }

    /** A run of messages sent one after the other with only a drop list
        registered: exactly the unlisted message numbers get through. */
    method SendRun(messages: seq<seq<byte>>, listed: seq<u32>) returns (delivered: seq<seq<byte>>)
      requires standard == [Drop(false, listed)] && chance == []
      requires forall m :: m in messages ==> m != []
      requires msgNo as int + |messages| < 0x1_0000_0000
      modifies this`msgNo
      ensures msgNo as int == old(msgNo) as int + |messages|
      ensures delivered == Unlisted(messages, old(msgNo), listed)
    {
      delivered := [];
      for k := 0 to |messages|
        invariant msgNo as int == old(msgNo) as int + k
        invariant delivered == Unlisted(messages[..k], old(msgNo), listed)
      {
        var m := messages[k];
        assert m in messages;
        var buf := new byte[|m|](i requires 0 <= i < |m| => m[i]);
        assert buf[..] == m;
        var d := Draws([0], false, 0, 0);
        var sent, _ := SendtoErr(buf, d);
        Conservation(standard, chance, m, msgNo, d);
        assert Drops(standard[0], msgNo) <==> msgNo in listed;
        assert messages[..k + 1][..k] == messages[..k];
        if sent.Some? {
          delivered := delivered + [sent.value];
        }
      }
      assert messages[..|messages|] == messages;
    }
  }

  method ParserLong2Uint32(numbers: seq<int>) returns (listed: seq<u32>)
    ensures listed == Listed(numbers)
  {
    listed := [];
    var it := 0;
    while it < |numbers|
      invariant it <= |numbers|
      invariant listed + Listed(numbers[it..]) == Listed(numbers)
    {
      assert numbers[it..][1..] == numbers[it + 1..];
      if numbers[it] >= 0 {
        assert listed + ([numbers[it] % 0x1_0000_0000] + Listed(numbers[it + 1..]))
            == (listed + [numbers[it] % 0x1_0000_0000]) + Listed(numbers[it + 1..]);
        listed := listed + [numbers[it] % 0x1_0000_0000];
      }
      it := it + 1;
    }
  }

  class SettingsManager {
    const manager: PacketManager
    const envDrop: Option<seq<int>>
    const envFlip: Option<seq<int>>
    ghost var calls: seq<Flags>

    /** The manager holds what these settings register. */
    ghost predicate Registered()
      reads this, manager
    {
      var c := Settings(envDrop, envFlip, calls);
      manager.standard == Standard(c) && manager.chance == Chance(c)
    }

    constructor (manager: PacketManager, envDrop: Option<seq<int>>, envFlip: Option<seq<int>>)
      requires manager.standard == [] && manager.chance == []
      modifies manager
      ensures this.manager == manager && this.envDrop == envDrop && this.envFlip == envFlip
      ensures Registered() && calls == []
    {
      this.manager, this.envDrop, this.envFlip, calls := manager, envDrop, envFlip, [];
      new;
      if envDrop.Some? {
        var listed := ParserLong2Uint32(envDrop.value);
        if listed == [] {
          manager.AddMsgEventRandom(Drop(true, []));
        } else {
          manager.AddMsgEventStandard(Drop(false, listed));
        }
      }
      if envFlip.Some? {
        var listed := ParserLong2Uint32(envFlip.value);
        if listed == [] {
          manager.AddMsgEventRandom(FlipBits);
        }
      }
    }

    /** sendErr_init: the program's own flags count where no variable is set. */
    method SendErrInit(f: Flags)
      requires Registered()
      modifies this, manager
      ensures Registered() && calls == old(calls) + [f]
      ensures manager.standard == old(manager.standard) + [InfoSeqNo] && old(manager.chance) <= manager.chance
      ensures envDrop.None? && f.drop ==> Drop(true, []) in manager.chance
      ensures envFlip.None? && f.flip ==> FlipBits in manager.chance
      ensures |manager.chance| == |old(manager.chance)| + (if envDrop.None? && f.drop then 1 else 0)
                                                       + (if envFlip.None? && f.flip then 1 else 0)
    {
      CallAdds(Settings(envDrop, envFlip, calls), f);
      manager.AddMsgEventStandard(InfoSeqNo);
      SetUserMode(f);
      calls := calls + [f];
    }

    /** setUserMode_ErrDrop and setUserMode_ErrFlip. */
    method SetUserMode(f: Flags)
      modifies manager
      ensures manager.standard == old(manager.standard)
      ensures manager.chance == old(manager.chance) + FromCall(envDrop.None?, envFlip.None?, f)
    {
      if envDrop.None? && f.drop {
        manager.AddMsgEventRandom(Drop(true, []));
      }
      if envFlip.None? && f.flip {
        manager.AddMsgEventRandom(FlipBits);
      }
    }
  }

  lemma CallAdds(c: Settings, f: Flags)
    ensures var d := c.(calls := c.calls + [f]);
            && Standard(d) == Standard(c) + [InfoSeqNo]
            && Chance(d) == Chance(c) + FromCall(c.envDrop.None?, c.envFlip.None?, f)
  {
    assert (c.calls + [f])[..|c.calls|] == c.calls;
  }

  /** The messages whose numbers (counted on from base) are not listed, in order. */
  ghost function Unlisted(ms: seq<seq<byte>>, base: nat, listed: seq<u32>): seq<seq<byte>>
  {
    if ms == [] then []
    else
      var k := |ms| - 1;
      Unlisted(ms[..k], base, listed) + if base + k + 1 in listed then [] else [ms[k]]
  }

  /** How many of the messages are not listed. */
  ghost function Passing(n: nat, base: nat, listed: seq<u32>): nat
  {
    if n == 0 then 0 else Passing(n - 1, base, listed) + if base + n in listed then 0 else 1
  }

  /** Message k is numbered base + k + 1.  If it is not listed it comes out, behind
      exactly the unlisted ones before it; and nothing else comes out. */
  lemma {:induction false} UnlistedInOrder(ms: seq<seq<byte>>, base: nat, listed: seq<u32>, k: nat)
    requires k < |ms|
    ensures var out := Unlisted(ms, base, listed);
            && |out| == Passing(|ms|, base, listed)
            && (base + k + 1 !in listed ==>
                  Passing(k, base, listed) < |out| && out[Passing(k, base, listed)] == ms[k])
    decreases |ms|
  {
    var n := |ms| - 1;
    if k < n {
      UnlistedInOrder(ms[..n], base, listed, k);
    } else if n > 0 {
      UnlistedInOrder(ms[..n], base, listed, 0);
    }
  }

  // ---- conservation ----

  lemma {:induction false} StandardResult(evs: seq<MsgEvent>, s: seq<byte>, msgNo: u32, ats: seq<nat>)
    requires |ats| == |evs| && forall i :: 0 <= i < |evs| ==> ats[i] < |s|
    ensures var (t, q) := RunAll(evs, s, msgNo, ats);
            && UNCHANGED <= q <= DROPPED
            && (q == DROPPED <==> exists ev :: ev in evs && Drops(ev, msgNo))
            && (FlipBits !in evs ==> t == s)
  {
    if evs != [] {
      var t := Effect(evs[0], s, ats[0]);
      StandardResult(evs[1..], t, msgNo, ats[1..]);
      assert forall ev :: ev in evs <==> ev == evs[0] || ev in evs[1..];
    }
  }

  /** For every list of events and every message: the length is kept; the
      message is lost exactly when some event that ran dropped it; and with no
      flip among the standard events what arrives is the message itself or the
      message with the one byte complemented that the chance flip hit. */
  lemma Conservation(standard: seq<MsgEvent>, chance: seq<MsgEvent>, s: seq<byte>, msgNo: u32, d: Draws)
    requires Legal(standard, chance, |s|, d)
    ensures var sent := Sent(standard, chance, s, msgNo, d);
            var fired := chance != [] && d.fire;
            && (sent.None? <==> (exists ev :: ev in standard && Drops(ev, msgNo))
                                || (fired && Drops(chance[d.pick], msgNo)))
            && (sent.Some? ==> |sent.value| == |s|)
            && (FlipBits !in standard && sent.Some? ==>
                sent.value == if fired && chance[d.pick].FlipBits? then FlipAt(s, d.at) else s)
  {
    StandardResult(standard, s, msgNo, d.standardAt);
  }

  /** Verified means unmodified: when flips are registered only as chance
      events, as SettingsManager registers them, a message that checked when
      sent and checks when it arrives is the message sent, byte for byte. */
  lemma VerifiedMeansUnmodified(e: Endian, standard: seq<MsgEvent>, chance: seq<MsgEvent>,
                                s: seq<byte>, msgNo: u32, d: Draws)
    requires Legal(standard, chance, |s|, d) && FlipBits !in standard
    requires Checks(e, s)
    ensures var sent := Sent(standard, chance, s, msgNo, d);
            sent.Some? ==> (Checks(e, sent.value) <==> sent.value == s)
  {
    Conservation(standard, chance, s, msgNo, d);
    OneByteDetected(e, s, d.at, 0xFF - s[d.at]);
    assert FlipAt(s, d.at)[d.at] != s[d.at];
  }

  /** The registration matters: with a flip among the standard events as well,
      two complemented bytes can cancel and go unnoticed. */
  lemma TwoFlipsCanHide()
    ensures var s: seq<byte> := [0xFF, 0xFF, 0x00, 0x00];
            var d := Draws([0], true, 0, 2);
            && Legal([FlipBits], [FlipBits], |s|, d)
            && Checks(Little, s)
            && var sent := Sent([FlipBits], [FlipBits], s, 1, d);
               sent.Some? && sent.value != s && Checks(Little, sent.value)
  {
    var s: seq<byte> := [0xFF, 0xFF, 0x00, 0x00];
    var t: seq<byte> := [0x00, 0xFF, 0xFF, 0x00];
    var d := Draws([0], true, 0, 2);
    assert s[2..] == [0x00, 0x00] && t[2..] == [0xFF, 0x00];
    assert s[2..][2..] == [] && t[2..][2..] == [];
    assert WordSum(Little, s[2..]) == 0 && WordSum(Little, t[2..]) == 0xFF;
    ChecksIff(Little, s);
    ChecksIff(Little, t);
    var u: seq<byte> := [0x00, 0xFF, 0x00, 0x00];
    assert RunAll([FlipBits][1..], u, 1, [0][1..]) == (u, UNCHANGED);
    assert FlipAt(s, 0) == u && FlipAt(u, 2) == t;
  }

  // ---- what the transfer sees of it ----

  /** A stamped data PDU that passes through the injector is, to the receiver,
      either lost or the very packet sent: corruption is just another loss. */
  lemma DataLostOrIntact(e: Endian, host: Endian, standard: seq<MsgEvent>, chance: seq<MsgEvent>,
                         p: Packet, msgNo: u32, d: Draws)
    requires p.seqNo < 0x1_0000_0000 && FlipBits !in standard
    requires Legal(standard, chance, HEADER + |p.payload|, d)
    ensures var sent := Sent(standard, chance, Stamp(e, DataBytes(p)), msgNo, d);
            sent.None? || ReceiveData(host, sent.value) in {None, Some(p)}
  {
    var s := Stamp(e, DataBytes(p));
    HeaderKept(e, DataBytes(p), p.seqNo, if p.eof then EOF_FLAG else DATA_FLAG);
    StampChecks(e, DataBytes(p));
    StampPortable(e, DataBytes(p));
    assert Checks(host, s) by { assert host == e || host == Other(e); }
    VerifiedMeansUnmodified(host, standard, chance, s, msgNo, d);
    DataRoundTrip(e, host, p);
  }

  lemma ControlLostOrIntact(e: Endian, host: Endian, standard: seq<MsgEvent>, chance: seq<MsgEvent>,
                            localSeq: u32, c: Control, msgNo: u32, d: Draws)
    requires c.n < 0x1_0000_0000 && FlipBits !in standard
    requires Legal(standard, chance, CONTROL_SIZE, d)
    ensures var sent := Sent(standard, chance, Stamp(e, ControlBytes(localSeq, c)), msgNo, d);
            sent.None? || ReceiveControl(host, sent.value) in {None, Some(c)}
  {
    var s := Stamp(e, ControlBytes(localSeq, c));
    HeaderKept(e, ControlBytes(localSeq, c), localSeq, ControlFlag(c));
    StampChecks(e, ControlBytes(localSeq, c));
    StampPortable(e, ControlBytes(localSeq, c));
    assert Checks(host, s) by { assert host == e || host == Other(e); }
    VerifiedMeansUnmodified(host, standard, chance, s, msgNo, d);
    ControlRoundTrip(e, host, localSeq, c);
  }
}
