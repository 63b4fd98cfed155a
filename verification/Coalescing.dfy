/**
 * Query coalescing: concurrent callers of `resolve_coalesced` share one resolution per key.
 * The first caller leads; a guard takes its entry out of the map when its resolution ends or is cancelled.
 */
module Coalescing {
  import opened Bytes
  import opened Question
  import opened Header
  import opened Packet
  import opened Messages

  type Key = (Text, QueryType)
  type ChannelId = nat

  // ---- The locked map ----

  datatype Disposition = Leader(tx: ChannelId) | Follower(rx: ChannelId)

  /** `acquire_inflight`, with the channel a leader would create. */
  function Acquired(entries: map<Key, ChannelId>, key: Key, created: ChannelId): (Disposition, map<Key, ChannelId>) {
    if key in entries then (Follower(entries[key]), entries) else (Leader(created), entries[key := created])
  }

  /** `InflightGuard::drop`: removal by key, whoever's entry that is. */
  function Released(entries: map<Key, ChannelId>, key: Key): map<Key, ChannelId> { entries - {key} }

  class InflightMap {
    var entries: map<Key, ChannelId>

    constructor ()
      ensures entries == map[]
    {
      entries := map[];
    }

    method AcquireInflight(key: Key, created: ChannelId) returns (d: Disposition)
      modifies this
      ensures (d, entries) == Acquired(old(entries), key, created)
    {
      if key in entries {
        d := Follower(entries[key]);
      } else {
        entries := entries[key := created];
        d := Leader(created);
      }
    }

    method DropGuard(key: Key)
      modifies this
      ensures entries == Released(old(entries), key)
    {
      entries := entries - {key};
    }
  }

  // ---- The system ----

  /** Where one call is. A leader lets go of the map first, then sends, then (at the latest) drops its sender. */
  datatype Caller =
    | Leading(key: Key, query: DnsPacket, channel: ChannelId)
    | Resolved(key: Key, query: DnsPacket, channel: ChannelId, result: Option<DnsPacket>)
    | Cancelling(channel: ChannelId)
    | Waiting(key: Key, query: DnsPacket, channel: ChannelId)
    | Led(query: DnsPacket, channel: ChannelId, result: Option<DnsPacket>, reply: DnsPacket)
    | Followed(key: Key, query: DnsPacket, channel: ChannelId, reply: DnsPacket)
    | Abandoned(channel: ChannelId)
    | GaveUp

  /** A broadcast channel: its one message, once sent. `leader` and `key` are never changed. */
  datatype Channel = Channel(key: Key, leader: nat, message: Option<Option<DnsPacket>>)

  datatype State = State(entries: map<Key, ChannelId>, callers: seq<Caller>, channels: seq<Channel>)

  const INIT := State(map[], [], [])

  datatype Event =
    | Arrive(key: Key, query: DnsPacket)
    | Finish(i: nat, result: Option<DnsPacket>)   // the resolution ends: the guard is dropped
    | Send(i: nat)
    | Cancel(i: nat)                              // a leader's future is dropped: the guard first
    | DropSender(i: nat)                          // then its sender
    | Receive(i: nat)
    | Leave(i: nat)                               // a follower's future is dropped

  /** Somebody still holds a sender of the channel: its leader, or the map. */
  ghost predicate SenderAlive(s: State, ch: ChannelId) {
    (exists i :: 0 <= i < |s.callers| && HoldsSender(s.callers[i], ch)) || (exists k :: k in s.entries && s.entries[k] == ch)
  }

  predicate HoldsSender(c: Caller, ch: ChannelId) {
    (c.Leading? || c.Resolved? || c.Cancelling?) && c.channel == ch
  }

  function LeaderReply(query: DnsPacket, result: Option<DnsPacket>): DnsPacket {
    if result.Some? then result.value else ResponseFrom(query, SERVFAIL)
  }

  /** What a follower makes of a message, or of a channel closed without one. */
  function FollowerReply(query: DnsPacket, message: Option<Option<DnsPacket>>): DnsPacket {
    if message.Some? && message.value.Some? then WithId(message.value.value, query.header.id) else ResponseFrom(query, SERVFAIL)
  }

  ghost predicate Enabled(s: State, e: Event) {
    match e
    case Arrive(_, _) => true
    case Finish(i, _) => i < |s.callers| && s.callers[i].Leading?
    case Send(i) => i < |s.callers| && s.callers[i].Resolved? && s.callers[i].channel < |s.channels|
    case Cancel(i) => i < |s.callers| && s.callers[i].Leading?
    case DropSender(i) => i < |s.callers| && s.callers[i].Cancelling?
    case Receive(i) =>
      && i < |s.callers| && s.callers[i].Waiting? && s.callers[i].channel < |s.channels|
      && (s.channels[s.callers[i].channel].message.Some? || !SenderAlive(s, s.callers[i].channel))
    case Leave(i) => i < |s.callers| && s.callers[i].Waiting?
  }

  function After(s: State, e: Event): State
    requires Enabled(s, e)
  {
    match e
    case Arrive(key, query) =>
      var (d, entries) := Acquired(s.entries, key, |s.channels|);
      (match d
       case Leader(tx) =>
         State(entries, s.callers + [Leading(key, query, tx)], s.channels + [Channel(key, |s.callers|, None)])
       case Follower(rx) => State(entries, s.callers + [Waiting(key, query, rx)], s.channels))
    case Finish(i, result) =>
      var c := s.callers[i];
      State(Released(s.entries, c.key), s.callers[i := Resolved(c.key, c.query, c.channel, result)], s.channels)
    case Send(i) =>
      var c := s.callers[i];
      var ch := s.channels[c.channel];
      State(s.entries, s.callers[i := Led(c.query, c.channel, c.result, LeaderReply(c.query, c.result))],
            s.channels[c.channel := Channel(ch.key, ch.leader, Some(c.result))])
    case Cancel(i) =>
      State(Released(s.entries, s.callers[i].key), s.callers[i := Cancelling(s.callers[i].channel)], s.channels)
    case DropSender(i) => State(s.entries, s.callers[i := Abandoned(s.callers[i].channel)], s.channels)
    case Receive(i) =>
      var c := s.callers[i];
      State(s.entries, s.callers[i := Followed(c.key, c.query, c.channel, FollowerReply(c.query, s.channels[c.channel].message))], s.channels)
    case Leave(i) => State(s.entries, s.callers[i := GaveUp], s.channels)
  }

  ghost function Run(events: seq<Event>): Option<State>
  {
    if events == [] then Some(INIT) else
    var s :- Run(events[..|events| - 1]);
    if Enabled(s, events[|events| - 1]) then Some(After(s, events[|events| - 1])) else None
  }

  ghost predicate Reachable(s: State) { exists events :: Run(events) == Some(s) }

  // ---- The invariant ----

  /** The caller created channel `ch` and its state agrees with what the channel carries. */
  ghost predicate LeaderAgrees(c: Caller, key: Key, ch: ChannelId, message: Option<Option<DnsPacket>>) {
    match message
    case Some(m) => c.Led? && c.channel == ch && c.result == m && c.reply == LeaderReply(c.query, m)
    case None =>
      || ((c.Leading? || c.Resolved?) && c.channel == ch && c.key == key)
      || ((c.Cancelling? || c.Abandoned?) && c.channel == ch)
  }

  ghost predicate ChannelOk(s: State, ch: ChannelId)
    requires ch < |s.channels|
  {
    s.channels[ch].leader < |s.callers| && LeaderAgrees(s.callers[s.channels[ch].leader], s.channels[ch].key, ch, s.channels[ch].message)
  }

  ghost predicate CallerOk(s: State, i: nat)
    requires i < |s.callers|
  {
    match s.callers[i]
    case Leading(key, _, ch) =>
      ch < |s.channels| && s.channels[ch].leader == i && s.channels[ch].key == key && key in s.entries && s.entries[key] == ch
    case Resolved(key, _, ch, _) => ch < |s.channels| && s.channels[ch].leader == i && s.channels[ch].key == key
    case Cancelling(ch) => ch < |s.channels| && s.channels[ch].leader == i
    case Waiting(key, _, ch) => ch < |s.channels| && s.channels[ch].key == key
    case Led(_, ch, _, _) => ch < |s.channels| && s.channels[ch].leader == i
    case Followed(key, query, ch, reply) =>
      && ch < |s.channels| && s.channels[ch].key == key && reply == FollowerReply(query, s.channels[ch].message)
      && s.channels[ch].leader < |s.callers| && LeaderEnded(s.callers[s.channels[ch].leader])
    case Abandoned(ch) => ch < |s.channels| && s.channels[ch].leader == i
    case GaveUp => true
  }

  predicate LeaderEnded(c: Caller) { c.Led? || c.Abandoned? }

  ghost predicate EntryOk(s: State, key: Key)
    requires key in s.entries
  {
    var ch := s.entries[key];
    && ch < |s.channels| && s.channels[ch].leader < |s.callers|
    && var c := s.callers[s.channels[ch].leader]; c.Leading? && c.key == key && c.channel == ch
  }

  ghost predicate Inv(s: State) {
    && (forall ch :: 0 <= ch < |s.channels| ==> ChannelOk(s, ch))
    && (forall i :: 0 <= i < |s.callers| ==> CallerOk(s, i))
    && (forall key :: key in s.entries ==> EntryOk(s, key))
  }

  lemma ArriveKeepsInv(s: State, key: Key, query: DnsPacket)
    requires Inv(s)
    ensures Inv(After(s, Arrive(key, query)))
  {
    hide FollowerReply, LeaderReply;
    var t := After(s, Arrive(key, query));
    assert forall j :: 0 <= j < |s.callers| ==> t.callers[j] == s.callers[j];
    assert forall ch :: 0 <= ch < |s.channels| ==> t.channels[ch] == s.channels[ch];
    forall ch | 0 <= ch < |t.channels| ensures ChannelOk(t, ch) {
      if ch < |s.channels| { assert ChannelOk(s, ch); }
    }
    forall j | 0 <= j < |t.callers| ensures CallerOk(t, j) {
      if j < |s.callers| {
        assert CallerOk(s, j);
        if s.callers[j].Followed? { assert ChannelOk(s, s.callers[j].channel); }
      } else if key in s.entries {
        assert EntryOk(s, key) && ChannelOk(s, s.entries[key]);
      }
    }
    forall k | k in t.entries ensures EntryOk(t, k) {
      if k in s.entries { assert EntryOk(s, k); }
    }
  }

  /** A step of one caller that leaves the map and the channels alone. */
  lemma MoveKeepsInv(s: State, i: nat, c: Caller)
    requires Inv(s) && i < |s.callers| && CallerOk(State(s.entries, s.callers[i := c], s.channels), i)
    requires match s.callers[i]
             case Waiting(_, _, _) => true
             case Cancelling(ch) => c == Abandoned(ch)
             case _ => false
    ensures Inv(State(s.entries, s.callers[i := c], s.channels))
  {
    hide FollowerReply, LeaderReply;
    var t := State(s.entries, s.callers[i := c], s.channels);
    forall ch | 0 <= ch < |t.channels| ensures ChannelOk(t, ch) {
      assert ChannelOk(s, ch);
    }
    forall j | 0 <= j < |t.callers| ensures CallerOk(t, j) {
      assert CallerOk(s, j);
    }
    forall k | k in t.entries ensures EntryOk(t, k) {
      assert EntryOk(s, k) && ChannelOk(s, s.entries[k]);
    }
  }

  /** The guard is dropped: the entry that goes is the leader's own. */
  lemma ReleaseKeepsInv(s: State, i: nat, c: Caller)
    requires Inv(s) && i < |s.callers| && s.callers[i].Leading?
    requires c == Cancelling(s.callers[i].channel)
          || exists r :: c == Resolved(s.callers[i].key, s.callers[i].query, s.callers[i].channel, r)
    ensures Inv(State(Released(s.entries, s.callers[i].key), s.callers[i := c], s.channels))
  {
    hide FollowerReply, LeaderReply;
    var t := State(Released(s.entries, s.callers[i].key), s.callers[i := c], s.channels);
    assert CallerOk(s, i);
    forall ch | 0 <= ch < |t.channels| ensures ChannelOk(t, ch) {
      assert ChannelOk(s, ch);
    }
    forall j | 0 <= j < |t.callers| ensures CallerOk(t, j) {
      assert CallerOk(s, j);
    }
    forall k | k in t.entries ensures EntryOk(t, k) {
      assert EntryOk(s, k);
    }
  }

  lemma SendKeepsInv(s: State, i: nat)
    requires Inv(s) && Enabled(s, Send(i))
    ensures Inv(After(s, Send(i)))
  {
    hide FollowerReply, LeaderReply;
    var t := After(s, Send(i));
    var own := s.callers[i].channel;
    assert CallerOk(s, i) && ChannelOk(s, own);
    forall ch | 0 <= ch < |t.channels| ensures ChannelOk(t, ch) {
      assert ChannelOk(s, ch);
    }
    forall j | 0 <= j < |t.callers| ensures CallerOk(t, j) {
      assert CallerOk(s, j);
    }
    forall k | k in t.entries ensures EntryOk(t, k) {
      assert EntryOk(s, k);
    }
  }

  lemma ReceiveIsOk(s: State, i: nat)
    requires Inv(s) && Enabled(s, Receive(i))
    ensures CallerOk(After(s, Receive(i)), i)
  {
    hide FollowerReply, LeaderReply;
    var ch := s.callers[i].channel;
    assert CallerOk(s, i) && ChannelOk(s, ch);
    var leader := s.callers[s.channels[ch].leader];
    if s.channels[ch].message.None? { assert !HoldsSender(leader, ch); }
  }

  lemma StepKeepsInv(s: State, e: Event)
    requires Inv(s) && Enabled(s, e)
    ensures Inv(After(s, e))
  {
    hide Inv;
    match e
    case Arrive(key, query) => ArriveKeepsInv(s, key, query);
    case Finish(i, result) => ReleaseKeepsInv(s, i, Resolved(s.callers[i].key, s.callers[i].query, s.callers[i].channel, result));
    case Send(i) => SendKeepsInv(s, i);
    case Cancel(i) => ReleaseKeepsInv(s, i, Cancelling(s.callers[i].channel));
    case DropSender(i) =>
      CallerIsOk(s, i);
      MoveKeepsInv(s, i, Abandoned(s.callers[i].channel));
    case Receive(i) =>
      ReceiveIsOk(s, i);
      MoveKeepsInv(s, i, After(s, e).callers[i]);
    case Leave(i) => MoveKeepsInv(s, i, GaveUp);
  }

  lemma CallerIsOk(s: State, i: nat)
    requires Inv(s) && i < |s.callers|
    ensures CallerOk(s, i)
  {
  }

  /** Every interleaving of any number of callers keeps the invariant. */
  lemma {:induction false} InvHolds(events: seq<Event>)
    ensures Run(events).Some? ==> Inv(Run(events).value)
  {
    if events != [] && Run(events).Some? {
      hide Inv, After, Enabled;
      InvHolds(events[..|events| - 1]);
      StepKeepsInv(Run(events[..|events| - 1]).value, events[|events| - 1]);
    }
  }

  lemma ReachableInv(s: State)
    requires Reachable(s)
    ensures Inv(s)
  {
    hide Inv, Run;
    var events :| Run(events) == Some(s);
    InvHolds(events);
  }

  // ---- What the callers can rely on ----

  /** Caller `i` is a leader for the key and holds its guard. */
  predicate LeadsFor(s: State, i: int, key: Key) {
    0 <= i < |s.callers| && s.callers[i].Leading? && s.callers[i].key == key
  }

  /** A key is in the map exactly while a leader for it holds its guard; there is never more than one. */
  lemma EntryIffGuard(s: State, key: Key)
    requires Reachable(s)
    ensures key in s.entries <==> exists i :: LeadsFor(s, i, key)
    ensures forall i, j :: LeadsFor(s, i, key) && LeadsFor(s, j, key) ==> i == j
  {
    ReachableInv(s);
    hide Reachable;
    if key in s.entries {
      assert EntryOk(s, key);
      assert LeadsFor(s, s.channels[s.entries[key]].leader, key);
    }
    forall i | 0 <= i < |s.callers| && s.callers[i].Leading?
      ensures s.callers[i].key in s.entries && s.channels[s.entries[s.callers[i].key]].leader == i
    {
      assert CallerOk(s, i);
    }
  }

  /** Dropping a guard takes out the leader's own entry and no other. */
  lemma GuardRemovesOwnEntry(s: State, e: Event, i: nat)
    requires Reachable(s) && Enabled(s, e) && (e == Cancel(i) || (e.Finish? && e.i == i))
    ensures var c, t := s.callers[i], After(s, e);
            c.key in s.entries && s.entries[c.key] == c.channel < |s.channels| && s.channels[c.channel].leader == i
            && forall k :: k in t.entries <==> k in s.entries && s.entries[k] != c.channel
  {
    ReachableInv(s);
    hide Reachable;
    assert CallerOk(s, i);
    forall k | k in s.entries && s.entries[k] == s.callers[i].channel ensures k == s.callers[i].key {
      assert EntryOk(s, k);
    }
  }

  /** No leader holds a guard: the map is empty. */
  lemma NoLeaderNoEntry(s: State)
    requires Reachable(s) && forall i :: 0 <= i < |s.callers| ==> !s.callers[i].Leading?
    ensures s.entries == map[]
  {
    forall k: Key ensures k !in s.entries { EntryIffGuard(s, k); }
    hide Reachable;
  }

  /** Whoever joins, joins a resolution for its own key that is still running. */
  lemma JoinsRunningLeader(s: State, key: Key, query: DnsPacket)
    requires Reachable(s) && key in s.entries
    ensures var t := After(s, Arrive(key, query));
            var joined := t.callers[|s.callers|];
            joined.Waiting? && joined.channel < |t.channels| && t.channels[joined.channel].leader < |t.callers|
            && var leader := t.callers[t.channels[joined.channel].leader];
               leader.Leading? && leader.key == key && leader.channel == joined.channel
  {
    ReachableInv(s);
    hide Reachable;
    assert EntryOk(s, key);
  }

  /** A follower ends with its own leader's answer under its own id, or with SERVFAIL if there is none. */
  lemma FollowerGetsLeadersAnswer(s: State, i: nat)
    requires Reachable(s) && i < |s.callers| && s.callers[i].Followed?
    ensures var f := s.callers[i];
            f.channel < |s.channels| && s.channels[f.channel].key == f.key && s.channels[f.channel].leader < |s.callers|
            && var leader := s.callers[s.channels[f.channel].leader];
               match leader
               case Led(query, ch, result, reply) =>
                 && ch == f.channel
                 && (result.Some? ==> reply == result.value && SameButId(f.reply, result.value, f.query.header.id))
                 && (result.None? ==> ServfailTo(reply, query) && ServfailTo(f.reply, f.query))
               case Abandoned(ch) => ch == f.channel && ServfailTo(f.reply, f.query)
               case _ => false
  {
    ReachableInv(s);
    hide Reachable;
    assert CallerOk(s, i) && ChannelOk(s, s.callers[i].channel);
  }

  /** A follower waits only while its leader is still at work. */
  lemma NoFollowerIsStuck(s: State, i: nat)
    requires Reachable(s) && i < |s.callers| && s.callers[i].Waiting?
    ensures s.callers[i].channel < |s.channels| && s.channels[s.callers[i].channel].leader < |s.callers|
    ensures LeaderEnded(s.callers[s.channels[s.callers[i].channel].leader]) ==> Enabled(s, Receive(i))
  {
    ReachableInv(s);
    hide Reachable;
    var ch := s.callers[i].channel;
    assert CallerOk(s, i) && ChannelOk(s, ch);
    if LeaderEnded(s.callers[s.channels[ch].leader]) && s.channels[ch].message.None? && SenderAlive(s, ch) {
      NobodyElseHolds(s, ch);
    }
  }

  /** Only the channel's leader, or the map for it, ever holds a sender. */
  lemma NobodyElseHolds(s: State, ch: ChannelId)
    requires Inv(s) && ch < |s.channels| && SenderAlive(s, ch)
    ensures s.channels[ch].leader < |s.callers| && HoldsSender(s.callers[s.channels[ch].leader], ch)
  {
    assert ChannelOk(s, ch);
    if j :| 0 <= j < |s.callers| && HoldsSender(s.callers[j], ch) {
      assert CallerOk(s, j);
    } else {
      var k :| k in s.entries && s.entries[k] == ch;
      assert EntryOk(s, k);
    }
  }

  predicate Done(c: Caller) { c.Led? || c.Followed? || c.Abandoned? || c.GaveUp? }

  /** Steps a caller may still take. */
  function StepsLeft(c: Caller): nat {
    match c
    case Leading(_, _, _) => 2
    case Resolved(_, _, _, _) => 1
    case Cancelling(_) => 1
    case Waiting(_, _, _) => 1
    case _ => 0
  }

  function TotalSteps(cs: seq<Caller>): nat {
    if cs == [] then 0 else StepsLeft(cs[0]) + TotalSteps(cs[1..])
  }

  lemma {:induction false} OneStepLess(cs: seq<Caller>, i: nat, c: Caller)
    requires i < |cs| && StepsLeft(c) < StepsLeft(cs[i])
    ensures TotalSteps(cs[i := c]) < TotalSteps(cs)
  {
    if i == 0 {
      assert cs[i := c][1..] == cs[1..];
    } else {
      OneStepLess(cs[1..], i - 1, c);
      assert cs[i := c][1..] == cs[1..][i - 1 := c];
    }
  }

  /** Between arrivals only boundedly many steps happen. */
  lemma EveryStepIsProgress(s: State, e: Event)
    requires Enabled(s, e) && !e.Arrive?
    ensures TotalSteps(After(s, e).callers) < TotalSteps(s.callers)
  {
    OneStepLess(s.callers, e.i, After(s, e).callers[e.i]);
  }

  /** As long as somebody is not done there is a step to take; once all are done the map is empty. */
  lemma NoDeadlock(s: State) returns (e: Event)
    requires Reachable(s)
    ensures (exists i :: 0 <= i < |s.callers| && !Done(s.callers[i])) ==> !e.Arrive? && Enabled(s, e)
    ensures (forall i :: 0 <= i < |s.callers| ==> Done(s.callers[i])) ==> s.entries == map[]
  {
    e := Cancel(0);
    if i :| 0 <= i < |s.callers| && !Done(s.callers[i]) {
      ReachableInv(s);
      var j := i;
      if s.callers[i].Waiting? {
        NoFollowerIsStuck(s, i);
        j := s.channels[s.callers[i].channel].leader;
        assert ChannelOk(s, s.callers[i].channel);
      }
      assert CallerOk(s, j);
      e := match s.callers[j]
           case Leading(_, _, _) => Finish(j, None)
           case Resolved(_, _, _, _) => Send(j)
           case Cancelling(_) => DropSender(j)
           case _ => Receive(i);
    } else {
      NoLeaderNoEntry(s);
    }
  }
}
