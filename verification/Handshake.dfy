/** The filename handshake (flags 8, 33, 9, 32): one client, the main server,
    and the children it forks, one for every filename request that reaches it.
    A child that opened the file starts sending data (flag 16) at once, which the
    client may read while still in the handshake.  Messages may be lost,
    duplicated and reordered, and polls may time out.  The client verifies
    nothing, so a reply may also reach it with its flag complemented; a request
    that was altered counts as lost, as the main server verifies it. */
module Handshake {
  import opened Bytes

  /** Where a message comes from or goes to. */
  datatype Address = Main | ChildAt(id: nat)

  const TALK_HERE := 33
  const FILE_OK := 9
  const FILE_NOT_OK := 32
  const DATA := 16

  /** Opening: the "talk to here" packet is out, the file not yet tried. */
  datatype Phase = Opening | Serving | Refusing | Gone

  datatype Child = Child(name: string, phase: Phase)

  datatype Mode =
    | SendFilename(attempts: nat, waiting: bool)
    | FileValid(retries: nat)
    | GetData
    | Done

  /** server is where the client sends; sends counts the requests sent since the
      last entry to SEND_FILENAME, heard whether any packet ever came back. */
  datatype Client = Client(mode: Mode, server: Address, sends: nat, heard: bool)

  datatype Request = Request(to: Address, name: string)
  datatype Reply = Reply(from: Address, flag: nat)

  datatype State = State(
    client: Client, children: seq<Child>, requests: multiset<Request>, replies: multiset<Reply>)

  datatype Step =
    | ClientSends
    | ClientTimesOut
    | ClientReceives(r: Reply, destOpens: bool)
    | MainForks(q: Request)
    | ChildTriesFile(id: nat, opens: bool)
    | ChildSendsData(id: nat)
    | ChildHears(q: Request)
    | ChildEnds(id: nat)
    | LoseRequest(q: Request)
    | LoseReply(r: Reply)
    | DuplicateRequest(q: Request)
    | DuplicateReply(r: Reply)
    | FlipReply(r: Reply)

  ghost function Init(): State
  {
    State(Client(SendFilename(0, false), Main, 0, false), [], multiset{}, multiset{})
  }

  const MAX_TRIES := 9

  // ---- the client ----

  /** A poll that times out. */
  function OnTimeout(c: Client): Client
  {
    match c.mode
    case SendFilename(attempts, waiting) =>
      c.(mode := if attempts + 1 < MAX_TRIES then SendFilename(attempts + 1, false) else Done)
    case FileValid(retries) => Retry(c, retries)
    case GetData => c
    case Done => c
  }

  /** One more fruitless turn in FILE_VALID; the ninth goes back to sending. */
  function Retry(c: Client, retries: nat): Client
  {
    if retries + 1 < MAX_TRIES then c.(mode := FileValid(retries + 1))
    else c.(mode := SendFilename(0, false), sends := 0)
  }

  /** A packet received in the handshake: recvfrom overwrites the stored address
      before the flag is looked at.  destOpens: the output file can be opened. */
  function OnReply(c: Client, r: Reply, destOpens: bool): Client
  {
    match c.mode
    case SendFilename(attempts, waiting) =>
      c.(mode := if r.flag == TALK_HERE && destOpens then FileValid(0) else Done, server := r.from, heard := true)
    case FileValid(retries) =>
      var d := c.(server := r.from, heard := true);
      if r.flag == FILE_OK then d.(mode := GetData)
      else if r.flag == FILE_NOT_OK then d.(mode := Done)
      else Retry(d, retries)
    case GetData => c
    case Done => c
  }

  ghost predicate Waiting(c: Client)
  {
    c.mode.FileValid? || (c.mode.SendFilename? && c.mode.waiting)
  }

  /** The request is sent, then one poll either times out or brings a reply;
      SEND_FILENAME repeats this until it has something to go on. */
  function SendLoop(c: Client, polls: seq<Option<Reply>>, destOpens: bool): Client
    decreases polls
  {
    if !c.mode.SendFilename? || polls == [] then c
    else
      var d := c.(mode := SendFilename(c.mode.attempts, true), sends := c.sends + 1);
      match polls[0]
      case None => SendLoop(OnTimeout(d), polls[1..], destOpens)
      case Some(r) => OnReply(d, r, destOpens)
  }

  /** FILE_VALID polls until a verdict comes or its turns are used up. */
  function ValidLoop(c: Client, polls: seq<Option<Reply>>): Client
    decreases polls
  {
    if !c.mode.FileValid? || polls == [] then c
    else match polls[0]
      case None => ValidLoop(OnTimeout(c), polls[1..])
      case Some(r) => ValidLoop(OnReply(c, r, true), polls[1..])
  }

  // ---- what the polls decide ----

  /** A reply that decides FILE_VALID. */
  predicate Verdict(poll: Option<Reply>) { poll.Some? && poll.value.flag in {FILE_OK, FILE_NOT_OK} }

  /** Poll i brings the first verdict. */
  ghost predicate FirstVerdict(polls: seq<Option<Reply>>, i: nat)
  {
    i < |polls| && Verdict(polls[i]) && forall j :: 0 <= j < i ==> !Verdict(polls[j])
  }

  /** Poll i brings the first reply. */
  ghost predicate FirstReply(polls: seq<Option<Reply>>, i: nat)
  {
    i < |polls| && polls[i].Some? && forall j :: 0 <= j < i ==> polls[j].None?
  }

  /** The address of the last reply among these polls, or the first one if there
      was none. */
  ghost function LastAddress(polls: seq<Option<Reply>>, first: Address): Address
  {
    if polls == [] then first
    else
      var k := |polls| - 1;
      if polls[k].Some? then polls[k].value.from else LastAddress(polls[..k], first)
  }

  class HandshakeClient {
    var server: Address
    var heard: bool
    var sends: nat

    constructor ()
      ensures server == Main && !heard && sends == 0
    {
      server, heard, sends := Main, false, 0;
    }

    /** doSendFilenameState, with the outcome of each poll given. */
    method DoSendFilenameState(polls: seq<Option<Reply>>, destOpens: bool) returns (next: Mode)
      requires |polls| >= MAX_TRIES
      modifies this
      ensures Client(next, server, sends, heard) ==
              SendLoop(Client(SendFilename(0, false), old(server), 0, old(heard)), polls, destOpens)
      ensures !next.SendFilename? && 1 <= sends <= MAX_TRIES
      ensures forall i: nat :: FirstReply(polls[..MAX_TRIES], i) ==>
                && next == (if polls[i].value.flag == TALK_HERE && destOpens then FileValid(0) else Done)
                && server == polls[i].value.from && heard && sends == i + 1
      ensures (forall i :: 0 <= i < MAX_TRIES ==> polls[i].None?) ==>
                next == Done && server == old(server) && heard == old(heard) && sends == MAX_TRIES
    {
      ghost var goal := SendLoop(Client(SendFilename(0, false), server, 0, heard), polls, destOpens);
      sends := 0;
      while sends < MAX_TRIES
        invariant sends <= MAX_TRIES && server == old(server) && heard == old(heard)
        invariant forall j :: 0 <= j < sends ==> polls[j].None?
        invariant goal == SendLoop(Client(if sends < MAX_TRIES then SendFilename(sends, false) else Done,
                                          server, sends, heard), polls[sends..], destOpens)
      {
        var poll := polls[sends];
        assert polls[sends..][1..] == polls[sends + 1..];
        sends := sends + 1;
        if poll.Some? {
          server, heard := poll.value.from, true;
          return if poll.value.flag == TALK_HERE && destOpens then FileValid(0) else Done;
        }
      }
      next := Done;
    }

    /** doFileValidState, once the output file could be opened. */
    method DoFileValidState(polls: seq<Option<Reply>>) returns (next: Mode)
      requires |polls| >= MAX_TRIES
      modifies this
      ensures Client(next, server, sends, heard) ==
              ValidLoop(Client(FileValid(0), old(server), old(sends), old(heard)), polls)
      ensures next in {GetData, Done, SendFilename(0, false)}
      ensures forall i: nat :: FirstVerdict(polls[..MAX_TRIES], i) ==>
                && next == (if polls[i].value.flag == FILE_OK then GetData else Done)
                && server == polls[i].value.from && heard && sends == old(sends)
      ensures (forall i :: 0 <= i < MAX_TRIES ==> !Verdict(polls[i])) ==>
                && next == SendFilename(0, false) && sends == 0
                && server == LastAddress(polls[..MAX_TRIES], old(server))
    {
      ghost var goal := ValidLoop(Client(FileValid(0), server, sends, heard), polls);
      var retries := 0;
      while retries < MAX_TRIES
        invariant retries <= MAX_TRIES && sends == old(sends)
        invariant forall j :: 0 <= j < retries ==> !Verdict(polls[j])
        invariant server == LastAddress(polls[..retries], old(server))
        invariant if retries < MAX_TRIES
                  then goal == ValidLoop(Client(FileValid(retries), server, sends, heard), polls[retries..])
                  else goal == Client(SendFilename(0, false), server, 0, heard)
      {
        var poll := polls[retries];
        assert polls[..retries + 1][..retries] == polls[..retries];
        assert polls[retries..][1..] == polls[retries + 1..];
        if poll.Some? {
          server, heard := poll.value.from, true;
          if poll.value.flag == FILE_OK {
            return GetData;
          } else if poll.value.flag == FILE_NOT_OK {
            return Done;
          }
        }
        retries := retries + 1;
      }
      sends := 0;
      next := SendFilename(0, false);
    }
  }

  /** The same of the specifications, from any turn on: the first verdict within
      the turns left decides, and the address is that of the reply that brought it. */
  lemma {:induction false} ValidDecided(c: Client, polls: seq<Option<Reply>>, i: nat)
    requires c.mode.FileValid? && c.mode.retries + i < MAX_TRIES && FirstVerdict(polls, i)
    ensures ValidLoop(c, polls) == Client(if polls[i].value.flag == FILE_OK then GetData else Done,
                                          polls[i].value.from, c.sends, true)
    decreases i
  {
    if i > 0 {
      var d := match polls[0] { case None => OnTimeout(c) case Some(r) => OnReply(c, r, true) };
      assert !Verdict(polls[0]);
      forall j | 0 <= j < i - 1 ensures !Verdict(polls[1..][j]) { assert !Verdict(polls[j + 1]); }
      ValidDecided(d, polls[1..], i - 1);
    }
  }

  /** Without a verdict the ninth turn goes back to sending. */
  lemma {:induction false} ValidUndecided(c: Client, polls: seq<Option<Reply>>)
    requires c.mode.FileValid? && c.mode.retries < MAX_TRIES && |polls| >= MAX_TRIES - c.mode.retries
    requires forall i :: 0 <= i < MAX_TRIES - c.mode.retries ==> !Verdict(polls[i])
    ensures ValidLoop(c, polls).mode == SendFilename(0, false) && ValidLoop(c, polls).sends == 0
    decreases MAX_TRIES - c.mode.retries
  {
    var d := match polls[0] { case None => OnTimeout(c) case Some(r) => OnReply(c, r, true) };
    assert !Verdict(polls[0]);
    if d.mode.FileValid? {
      forall i | 0 <= i < MAX_TRIES - d.mode.retries ensures !Verdict(polls[1..][i]) { assert !Verdict(polls[i + 1]); }
      ValidUndecided(d, polls[1..]);
    }
  }

  /** In SEND_FILENAME the first reply decides, whatever it is. */
  lemma {:induction false} SendDecided(c: Client, polls: seq<Option<Reply>>, destOpens: bool, i: nat)
    requires c.mode.SendFilename? && c.mode.attempts + i < MAX_TRIES && FirstReply(polls, i)
    ensures SendLoop(c, polls, destOpens) ==
            Client(if polls[i].value.flag == TALK_HERE && destOpens then FileValid(0) else Done,
                   polls[i].value.from, c.sends + i + 1, true)
    decreases i
  {
    if i > 0 {
      var d := OnTimeout(c.(mode := SendFilename(c.mode.attempts, true), sends := c.sends + 1));
      assert polls[0].None?;
      forall j | 0 <= j < i - 1 ensures polls[1..][j].None? { assert polls[j + 1].None?; }
      SendDecided(d, polls[1..], destOpens, i - 1);
    }
  }

  // ---- the step system ----

  ghost predicate Enabled(s: State, step: Step)
  {
    match step
    case ClientSends => s.client.mode.SendFilename? && !s.client.mode.waiting
    case ClientTimesOut => Waiting(s.client)
    case ClientReceives(r, _) => Waiting(s.client) && r in s.replies
    case MainForks(q) => q in s.requests && q.to.Main?
    case ChildTriesFile(id, _) => id < |s.children| && s.children[id].phase.Opening?
    case ChildSendsData(id) => id < |s.children| && s.children[id].phase.Serving?
    case ChildHears(q) => q in s.requests && q.to.ChildAt?
    case ChildEnds(id) => id < |s.children| && s.children[id].phase.Refusing?
    case LoseRequest(q) => q in s.requests
    case LoseReply(r) => r in s.replies
    case DuplicateRequest(q) => q in s.requests
    case DuplicateReply(r) => r in s.replies
    case FlipReply(r) => r in s.replies && r.flag <= 0xFF
  }

  ghost function SetPhase(cs: seq<Child>, id: nat, p: Phase): seq<Child>
    requires id < |cs|
  {
    cs[id := cs[id].(phase := p)]
  }

  ghost function Apply(name: string, s: State, step: Step): State
    requires Enabled(s, step)
  {
    match step
    case ClientSends =>
      var c := s.client;
      s.(client := c.(mode := c.mode.(waiting := true), sends := c.sends + 1),
         requests := s.requests + multiset{Request(c.server, name)})
    case ClientTimesOut => s.(client := OnTimeout(s.client))
    case ClientReceives(r, destOpens) =>
      s.(client := OnReply(s.client, r, destOpens), replies := s.replies - multiset{r})
    case MainForks(q) =>
      s.(children := s.children + [Child(q.name, Opening)],
         requests := s.requests - multiset{q},
         replies := s.replies + multiset{Reply(ChildAt(|s.children|), TALK_HERE)})
    case ChildTriesFile(id, opens) =>
      s.(children := SetPhase(s.children, id, if opens then Serving else Refusing),
         replies := s.replies + multiset{Reply(ChildAt(id), if opens then FILE_OK else FILE_NOT_OK)})
    case ChildSendsData(id) => s.(replies := s.replies + multiset{Reply(ChildAt(id), DATA)})
    case ChildHears(q) => s.(requests := s.requests - multiset{q})
    case ChildEnds(id) => s.(children := SetPhase(s.children, id, Gone))
    case LoseRequest(q) => s.(requests := s.requests - multiset{q})
    case LoseReply(r) => s.(replies := s.replies - multiset{r})
    case DuplicateRequest(q) => s.(requests := s.requests + multiset{q})
    case DuplicateReply(r) => s.(replies := s.replies + multiset{r})
    case FlipReply(r) => s.(replies := s.replies - multiset{r} + multiset{Reply(r.from, 0xFF - r.flag)})
  }

  ghost predicate Reaches(name: string, s: State, steps: seq<Step>, t: State)
    decreases steps
  {
    if steps == [] then s == t
    else Enabled(s, steps[0]) && Reaches(name, Apply(name, s, steps[0]), steps[1..], t)
  }

  ghost predicate Reachable(name: string, s: State)
  {
    exists steps :: Reaches(name, Init(), steps, s)
  }

  // ---- the invariant ----

  /** This address is a child that was forked for the file and opened it. */
  ghost predicate Opened(name: string, cs: seq<Child>, a: Address)
  {
    a.ChildAt? && a.id < |cs| && cs[a.id].name == name && cs[a.id].phase.Serving?
  }

  /** A reply sent with this flag, as sent or complemented. */
  predicate Flagged(r: Reply, flag: nat) { r.flag == flag || r.flag == 0xFF - flag }

  /** Each reply is from a child, and what says or shows that the file was opened
      is from one that opened it. */
  ghost predicate GenuineReply(name: string, cs: seq<Child>, r: Reply)
  {
    && r.from.ChildAt? && r.from.id < |cs|
    && (Flagged(r, TALK_HERE) || Flagged(r, FILE_OK) || Flagged(r, FILE_NOT_OK) || Flagged(r, DATA))
    && (Flagged(r, FILE_OK) || Flagged(r, DATA) ==> Opened(name, cs, r.from))
  }

  ghost predicate ClientOk(name: string, c: Client, cs: seq<Child>)
  {
    && (c.mode.GetData? ==> Opened(name, cs, c.server))
    && (c.server.Main? <==> !c.heard)
    && (c.server.ChildAt? ==> c.server.id < |cs|)
    && (c.mode.SendFilename? ==>
          c.mode.attempts < MAX_TRIES && c.sends == c.mode.attempts + if c.mode.waiting then 1 else 0)
    && c.sends <= MAX_TRIES
  }

  ghost predicate Inv(name: string, s: State)
  {
    && ClientOk(name, s.client, s.children)
    && (forall q :: q in s.requests ==> q.name == name)
    && (forall r :: r in s.replies ==> GenuineReply(name, s.children, r))
    && (forall i :: 0 <= i < |s.children| ==> s.children[i].name == name)
  }

  /** Children only ever move forward: what was opened stays opened. */
  lemma OpenedStays(name: string, s: State, step: Step, a: Address)
    requires Enabled(s, step) && Opened(name, s.children, a)
    ensures Opened(name, Apply(name, s, step).children, a)
  {
  }

  lemma GenuineStays(name: string, s: State, step: Step, r: Reply)
    requires Enabled(s, step) && GenuineReply(name, s.children, r)
    ensures GenuineReply(name, Apply(name, s, step).children, r)
  {
    if Flagged(r, FILE_OK) || Flagged(r, DATA) { OpenedStays(name, s, step, r.from); }
  }

  predicate ClientStep(step: Step) { step.ClientSends? || step.ClientTimesOut? || step.ClientReceives? }

  lemma ClientStepKeeps(name: string, s: State, step: Step)
    requires Inv(name, s) && Enabled(s, step) && ClientStep(step)
    ensures Inv(name, Apply(name, s, step))
  {
    match step {
      case ClientSends =>
      case ClientTimesOut =>
      case ClientReceives(r, destOpens) =>
        assert GenuineReply(name, s.children, r);
        assert ClientOk(name, OnReply(s.client, r, destOpens), s.children);
    }
  }

  lemma OtherStepKeeps(name: string, s: State, step: Step)
    requires Inv(name, s) && Enabled(s, step) && !ClientStep(step)
    ensures Inv(name, Apply(name, s, step))
  {
    var t := Apply(name, s, step);
    if s.client.mode.GetData? { OpenedStays(name, s, step, s.client.server); }
    assert ClientOk(name, t.client, t.children);
    forall r | r in t.replies ensures GenuineReply(name, t.children, r) {
      NewReplyGenuine(name, s, step, r);
    }
  }

  /** A reply that was not in flight before is one a child just sent, or one that
      was, complemented. */
  lemma NewReplyGenuine(name: string, s: State, step: Step, r: Reply)
    requires Inv(name, s) && Enabled(s, step) && !ClientStep(step)
    requires r in Apply(name, s, step).replies
    ensures GenuineReply(name, Apply(name, s, step).children, r)
  {
    if r in s.replies {
      GenuineStays(name, s, step, r);
    } else if step.FlipReply? {
      FlippedGenuine(name, s, step.r);
    } else {
      SentGenuine(name, s, step, r);
    }
  }

  lemma SentGenuine(name: string, s: State, step: Step, r: Reply)
    requires Inv(name, s) && Enabled(s, step) && r !in s.replies && r in Apply(name, s, step).replies
    requires !ClientStep(step) && !step.FlipReply?
    ensures GenuineReply(name, Apply(name, s, step).children, r)
  {
    match step {
      case MainForks(q) =>
      case ChildTriesFile(id, opens) =>
      case ChildSendsData(id) =>
      case _ =>
    }
  }

  lemma FlippedGenuine(name: string, s: State, r: Reply)
    requires GenuineReply(name, s.children, r) && r.flag <= 0xFF
    ensures GenuineReply(name, s.children, Reply(r.from, 0xFF - r.flag))
  {
  }

  lemma StepKeeps(name: string, s: State, step: Step)
    requires Inv(name, s) && Enabled(s, step)
    ensures Inv(name, Apply(name, s, step))
  {
    if ClientStep(step) { ClientStepKeeps(name, s, step); } else { OtherStepKeeps(name, s, step); }
  }

  lemma {:induction false} RunKeeps(name: string, s: State, steps: seq<Step>, t: State)
    requires Inv(name, s) && Reaches(name, s, steps, t)
    ensures Inv(name, t)
    decreases steps
  {
    if steps != [] {
      StepKeeps(name, s, steps[0]);
      RunKeeps(name, Apply(name, s, steps[0]), steps[1..], t);
    }
  }

  lemma ReachableInv(name: string, s: State)
    requires Reachable(name, s)
    ensures Inv(name, s)
  {
    var steps :| Reaches(name, Init(), steps, s);
    RunKeeps(name, Init(), steps, s);
  }

  // ---- what it gives ----

  /** Whenever the client is in GET_DATA the address it stored is that of a child
      that opened the file it asked for, however many children there are and
      whichever of them spoke first. */
  lemma TransferFromOpener(name: string, s: State)
    requires Reachable(name, s) && s.client.mode.GetData?
    ensures Opened(name, s.children, s.client.server)
  {
    ReachableInv(name, s);
  }

  /** Every entry to SEND_FILENAME sends at most nine requests, and the client is
      still there only while it may send, or wait for the answer to, one more. */
  lemma AtMostNineRequests(name: string, s: State)
    requires Reachable(name, s)
    ensures s.client.sends <= 9
    ensures s.client.mode.SendFilename? && !s.client.mode.waiting ==> s.client.sends < 9
  {
    ReachableInv(name, s);
  }

  /** The stored address is the main server's exactly until the first packet
      comes back.  A client that falls back to SEND_FILENAME after that repeats
      its request to a child, where it forks nothing. */
  lemma RetryGoesToChild(name: string, s: State)
    requires Reachable(name, s) && Enabled(s, ClientSends)
    ensures var q := Request(s.client.server, name);
            var t := Apply(name, s, ClientSends);
            && q in t.requests
            && (Enabled(t, MainForks(q)) <==> !s.client.heard)
  {
    ReachableInv(name, s);
  }

  /** When the transfer starts, replies of the handshake can still be in flight:
      each is from a child, with flag 33, 9, 32 or 16, or the complement of one. */
  lemma LeftInFlight(name: string, s: State)
    requires Reachable(name, s)
    ensures forall r :: r in s.replies ==>
              r.from.ChildAt? && exists flag :: flag in {TALK_HERE, FILE_OK, FILE_NOT_OK, DATA} && Flagged(r, flag)
  {
    ReachableInv(name, s);
    forall r | r in s.replies
      ensures r.from.ChildAt? && exists flag :: flag in {TALK_HERE, FILE_OK, FILE_NOT_OK, DATA} && Flagged(r, flag)
    {
      assert GenuineReply(name, s.children, r);
    }
  }

  lemma ReachesCons(name: string, s: State, a: Step, rest: seq<Step>, t: State)
    requires Enabled(s, a) && Reaches(name, Apply(name, s, a), rest, t)
    ensures Reaches(name, s, [a] + rest, t)
  {
    assert ([a] + rest)[1..] == rest;
  }

  /** The request was heard by the main server, and the talk-here packet arrived. */
  ghost function Heard(name: string, s: State): State
    requires Enabled(s, ClientSends) && s.client.server.Main?
  {
    var s1 := Apply(name, s, ClientSends);
    var s2 := Apply(name, s1, MainForks(Request(Main, name)));
    Apply(name, s2, ClientReceives(Reply(ChildAt(|s.children|), TALK_HERE), true))
  }

  lemma ToHeard(name: string, s: State, rest: seq<Step>, t: State) returns (steps: seq<Step>)
    requires Enabled(s, ClientSends) && s.client.server.Main? && Reaches(name, Heard(name, s), rest, t)
    ensures |steps| == |rest| + 3 && Reaches(name, s, steps, t)
  {
    var q, here := Request(Main, name), Reply(ChildAt(|s.children|), TALK_HERE);
    var s1 := Apply(name, s, ClientSends);
    var s2 := Apply(name, s1, MainForks(q));
    var r2 := [ClientReceives(here, true)] + rest;
    var r1 := [MainForks(q)] + r2;
    ReachesCons(name, s2, ClientReceives(here, true), rest, t);
    ReachesCons(name, s1, MainForks(q), r2, t);
    ReachesCons(name, s, ClientSends, r1, t);
    steps := [ClientSends] + r1;
  }

  /** The child's verdict arrives. */
  lemma VerdictHeard(name: string, s: State, id: nat, opens: bool) returns (steps: seq<Step>, t: State)
    requires s.client.mode.FileValid? && id < |s.children| && s.children[id].phase.Opening?
    ensures |steps| == 2 && Reaches(name, s, steps, t)
    ensures t.client.mode == (if opens then GetData else Done) && t.client.server == ChildAt(id)
    ensures t.children == s.children[id := s.children[id].(phase := if opens then Serving else Refusing)]
  {
    var r := Reply(ChildAt(id), if opens then FILE_OK else FILE_NOT_OK);
    var s1 := Apply(name, s, ChildTriesFile(id, opens));
    t := Apply(name, s1, ClientReceives(r, true));
    steps := [ChildTriesFile(id, opens), ClientReceives(r, true)];
    ReachesCons(name, s1, steps[1], [], t);
    ReachesCons(name, s, steps[0], [steps[1]], t);
    assert [steps[1]] + [] == [steps[1]] && [steps[0]] + [steps[1]] == steps;
  }

  /** From every reachable state in which the client is about to send and has never
      heard anything, five steps get it to GET_DATA with a child that serves, if
      the file opens, and to DONE if it does not. */
  lemma HandshakeCompletes(name: string, s: State, opens: bool) returns (steps: seq<Step>, t: State)
    requires Reachable(name, s) && Enabled(s, ClientSends) && !s.client.heard
    ensures |steps| == 5 && Reaches(name, s, steps, t)
    ensures t.client.mode == if opens then GetData else Done
    ensures t.client.server == ChildAt(|s.children|)
    ensures |t.children| == |s.children| + 1
    ensures t.children[|s.children|] == Child(name, if opens then Serving else Refusing)
  {
    ReachableInv(name, s);
    var rest;
    rest, t := VerdictHeard(name, Heard(name, s), |s.children|, opens);
    steps := ToHeard(name, s, rest, t);
  }

  /** One is, if the acceptance arrived twice. */
  lemma AcceptanceCanLinger(name: string)
    ensures exists s :: Reachable(name, s) && s.client.mode.GetData? && Reply(ChildAt(0), FILE_OK) in s.replies
  {
    var ok := Reply(ChildAt(0), FILE_OK);
    var s0 := Heard(name, Init());
    var s1 := Apply(name, s0, ChildTriesFile(0, true));
    var s2 := Apply(name, s1, DuplicateReply(ok));
    var s3 := Apply(name, s2, ClientReceives(ok, true));
    var r2 := [ClientReceives(ok, true)];
    var r1 := [DuplicateReply(ok)] + r2;
    assert r2 == r2 + [];
    ReachesCons(name, s2, ClientReceives(ok, true), [], s3);
    ReachesCons(name, s1, DuplicateReply(ok), r2, s3);
    ReachesCons(name, s0, ChildTriesFile(0, true), r1, s3);
    var steps := ToHeard(name, Init(), [ChildTriesFile(0, true)] + r1, s3);
    assert Reachable(name, s3) && s3.client.mode.GetData? && ok in s3.replies;
  }

  // ---- counting over runs ----

  function Sends(step: Step): nat { if step.ClientSends? || step.DuplicateRequest? then 1 else 0 }

  function Takes(step: Step): nat { if step.MainForks? || step.ChildHears? || step.LoseRequest? then 1 else 0 }

  function Forks(step: Step): nat { if step.MainForks? then 1 else 0 }

  function Total(f: Step -> nat, steps: seq<Step>): nat
  {
    if steps == [] then 0 else f(steps[0]) + Total(f, steps[1..])
  }

  /** Over any run every request sent or duplicated is in flight or was taken, by
      the main server, a child or the network; and the main server forks once for
      each request that it took. */
  lemma {:induction false} RequestsConserved(name: string, s: State, steps: seq<Step>, t: State)
    requires Reaches(name, s, steps, t)
    ensures |t.requests| + Total(Takes, steps) == |s.requests| + Total(Sends, steps)
    ensures |t.children| == |s.children| + Total(Forks, steps)
    decreases steps
  {
    if steps != [] {
      StepCounts(name, s, steps[0]);
      RequestsConserved(name, Apply(name, s, steps[0]), steps[1..], t);
    }
  }

  lemma StepCounts(name: string, s: State, step: Step)
    requires Enabled(s, step)
    ensures var t := Apply(name, s, step);
            && |t.requests| + Takes(step) == |s.requests| + Sends(step)
            && |t.children| == |s.children| + Forks(step)
  {
  }

  /** A child ends at most once. */
  lemma {:induction false} GoneForGood(name: string, s: State, steps: seq<Step>, t: State, id: nat)
    requires Reaches(name, s, steps, t) && id < |s.children| && s.children[id].phase.Gone?
    ensures ChildEnds(id) !in steps && id < |t.children| && t.children[id].phase.Gone?
    decreases steps
  {
    if steps != [] {
      var u := Apply(name, s, steps[0]);
      assert u.children[id].phase.Gone?;
      GoneForGood(name, u, steps[1..], t, id);
      assert steps == [steps[0]] + steps[1..];
    }
  }

  lemma EndsOnce(name: string, s: State, id: nat, steps: seq<Step>, t: State)
    requires Enabled(s, ChildEnds(id)) && Reaches(name, Apply(name, s, ChildEnds(id)), steps, t)
    ensures ChildEnds(id) !in steps && id < |t.children| && t.children[id].phase.Gone?
  {
    GoneForGood(name, Apply(name, s, ChildEnds(id)), steps, t, id);
  }

  /** If nothing ever comes back, sending and waiting in turn is over after the
      ninth request. */
  lemma {:induction false} SilenceEnds(name: string, s: State) returns (steps: seq<Step>, t: State)
    requires s.client.mode.SendFilename? && !s.client.mode.waiting && s.client.mode.attempts < MAX_TRIES
    ensures |steps| == 2 * (MAX_TRIES - s.client.mode.attempts) && Reaches(name, s, steps, t)
    ensures t.client ==
            Client(Done, s.client.server, s.client.sends + MAX_TRIES - s.client.mode.attempts, s.client.heard)
    decreases MAX_TRIES - s.client.mode.attempts
  {
    var s1 := Apply(name, s, ClientSends);
    var s2 := Apply(name, s1, ClientTimesOut);
    var rest: seq<Step> := [];
    t := s2;
    if s.client.mode.attempts + 1 < MAX_TRIES {
      rest, t := SilenceEnds(name, s2);
    }
    ReachesCons(name, s1, ClientTimesOut, rest, t);
    ReachesCons(name, s, ClientSends, [ClientTimesOut] + rest, t);
    steps := [ClientSends] + ([ClientTimesOut] + rest);
  }
}
