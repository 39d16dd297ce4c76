/** What holds of the liveness tracker of module Heartbeat over whole runs. */
module HeartbeatRuns {
  import opened Basics
  import opened Heartbeat

  datatype Op = Heartbeat(id: string, now: nat, space: nat) | Tick(now: nat) | Register(id: string, now: nat)

  function Apply(config: Config, peers: Peers, op: Op): Peers {
    match op
    case Heartbeat(id, now, space) => peers[id := Beat(PeerOrNew(peers, id, now), now, space)]
    case Tick(now) => TickAll(config, peers, now)
    case Register(id, now) => peers[id := PeerOrNew(peers, id, now)]
  }

  /** The events an operation of the manager raises. */
  ghost predicate Raises(config: Config, peers: Peers, op: Op, e: PeerEvent) {
    match op
    case Heartbeat(id, now, space) => e == BeatEvent(PeerOrNew(peers, id, now), id)
    case Tick(now) => RaisedByTick(config, peers, now, e)
    case Register(_, _) => false
  }

  function Run(config: Config, peers: Peers, ops: seq<Op>): Peers
    decreases ops
  {
    if ops == [] then peers else Run(config, Apply(config, peers, ops[0]), ops[1..])
  }

  // ---------- One peer's view ----------

  type Tracked = Option<PeerState>

  function Lookup(peers: Peers, id: string): Tracked {
    if id in peers then Some(peers[id]) else None
  }

  function Known(t: Tracked, id: string, now: nat): PeerState {
    if t.Some? then t.value else NewPeer(id, now)
  }

  function ApplyOne(config: Config, t: Tracked, id: string, op: Op): Tracked {
    match op
    case Heartbeat(who, now, space) => if who == id then Some(Beat(Known(t, id, now), now, space)) else t
    case Tick(now) => if t.Some? then Some(TickPeer(config, t.value, now)) else None
    case Register(who, now) => if who == id then Some(Known(t, id, now)) else t
  }

  function EventOf(config: Config, t: Tracked, id: string, op: Op): Option<PeerEvent> {
    match op
    case Heartbeat(who, now, _) => if who == id then Some(BeatEvent(Known(t, id, now), id)) else None
    case Tick(now) => if t.Some? then TickEvent(config, t.value, now) else None
    case Register(_, _) => None
  }

  function RunOne(config: Config, t: Tracked, id: string, ops: seq<Op>): Tracked
    decreases ops
  {
    if ops == [] then t else RunOne(config, ApplyOne(config, t, id, ops[0]), id, ops[1..])
  }

  /** The events raised about one peer during a run, in order. */
  function Log(config: Config, t: Tracked, id: string, ops: seq<Op>): seq<PeerEvent>
    decreases ops
  {
    if ops == [] then []
    else AsSeq(EventOf(config, t, id, ops[0])) + Log(config, ApplyOne(config, t, id, ops[0]), id, ops[1..])
  }

  /** The manager is a product of peers that do not influence each other: in one step,
      each peer moves, and raises events, as if it were alone. */
  lemma StepIsIndependent(config: Config, peers: Peers, id: string, op: Op)
    requires Keyed(peers)
    ensures Keyed(Apply(config, peers, op))
    ensures Lookup(Apply(config, peers, op), id) == ApplyOne(config, Lookup(peers, id), id, op)
    ensures forall e :: Raises(config, peers, op, e) && e.peerId == id <==>
              EventOf(config, Lookup(peers, id), id, op) == Some(e)
  {
  }

  /** The operation makes the manager raise some event about the peer. */
  ghost predicate RaisesAbout(config: Config, peers: Peers, op: Op, id: string) {
    exists e :: Raises(config, peers, op, e) && e.peerId == id
  }

  /** `log` lists the events that the manager raises about the peer, step by step. */
  ghost predicate IsLogOf(config: Config, peers: Peers, id: string, ops: seq<Op>, log: seq<PeerEvent>)
    decreases ops
  {
    if ops == [] then log == []
    else if RaisesAbout(config, peers, ops[0], id) then
      && log != [] && Raises(config, peers, ops[0], log[0]) && log[0].peerId == id
      && IsLogOf(config, Apply(config, peers, ops[0]), id, ops[1..], log[1..])
    else IsLogOf(config, Apply(config, peers, ops[0]), id, ops[1..], log)
  }

  /** The manager's events about a peer are those of the peer alone: there is one log, the
      one the peer's own view gives. */
  lemma {:induction false} LogIsOwn(config: Config, peers: Peers, id: string, ops: seq<Op>, log: seq<PeerEvent>)
    requires Keyed(peers)
    ensures IsLogOf(config, peers, id, ops, log) <==> log == Log(config, Lookup(peers, id), id, ops)
    decreases ops
  {
    if ops != [] {
      var peers', event := Apply(config, peers, ops[0]), EventOf(config, Lookup(peers, id), id, ops[0]);
      StepIsIndependent(config, peers, id, ops[0]);
      if event.Some? {
        assert Raises(config, peers, ops[0], event.value) && event.value.peerId == id;
        if log != [] {
          LogIsOwn(config, peers', id, ops[1..], log[1..]);
          assert log == [log[0]] + log[1..];
        }
      } else {
        LogIsOwn(config, peers', id, ops[1..], log);
      }
    }
  }

  lemma {:induction false} RunIsIndependent(config: Config, peers: Peers, id: string, ops: seq<Op>)
    requires Keyed(peers)
    ensures Keyed(Run(config, peers, ops))
    ensures Lookup(Run(config, peers, ops), id) == RunOne(config, Lookup(peers, id), id, ops)
    decreases ops
  {
    if ops != [] {
      StepIsIndependent(config, peers, id, ops[0]);
      RunIsIndependent(config, Apply(config, peers, ops[0]), id, ops[1..]);
    }
  }

  // ---------- The event log ----------

  /** The peer counts as alive after this much of its log. */
  predicate EndsAlive(log: seq<PeerEvent>) {
    log == [] || log[|log| - 1].PeerAlive? || log[|log| - 1].PeerRecovered?
  }

  predicate EndsSuspect(log: seq<PeerEvent>) {
    log != [] && log[|log| - 1].PeerSuspect?
  }

  /** What a well-shaped log must end with for an event to follow. */
  predicate MayFollow(log: seq<PeerEvent>, e: PeerEvent) {
    match e
    case PeerAlive(_) => EndsAlive(log)
    case PeerSuspect(_) => EndsAlive(log)
    case PeerDied(_) => EndsSuspect(log)
    case PeerRecovered(_) => !EndsAlive(log)
  }

  /** Alive* (Suspect Died? Recovered Alive*)*, perhaps ended in mid-cycle: each event
      says what the events before it must have ended with. */
  predicate WellShaped(log: seq<PeerEvent>) {
    forall k :: 0 <= k < |log| ==> MayFollow(log[..k], log[k])
  }

  function StatusFromLog(log: seq<PeerEvent>): PeerStatus {
    if EndsAlive(log) then Alive else if EndsSuspect(log) then Suspect else Dead
  }

  /** An alive peer has fewer misses than make it suspect, or none. */
  predicate Consistent(config: Config, t: Tracked) {
    t.Some? && t.value.status == Alive ==>
      t.value.missedHeartbeats < config.suspectThreshold || t.value.missedHeartbeats == 0
  }

  ghost predicate Tracks(config: Config, t: Tracked, log: seq<PeerEvent>) {
    && Consistent(config, t)
    && WellShaped(log)
    && StatusFromLog(log) == if t.Some? then t.value.status else Alive
  }

  lemma ShapeGrows(log: seq<PeerEvent>, e: PeerEvent)
    requires WellShaped(log) && MayFollow(log, e)
    ensures WellShaped(log + [e])
  {
    forall k | 0 <= k <= |log|
      ensures MayFollow((log + [e])[..k], (log + [e])[k])
    {
      assert (log + [e])[..k] == log[..k];
      assert log[..|log|] == log;
    }
  }

  lemma LogStep(config: Config, t: Tracked, id: string, op: Op, log: seq<PeerEvent>)
    requires Tracks(config, t, log)
    ensures Tracks(config, ApplyOne(config, t, id, op), log + AsSeq(EventOf(config, t, id, op)))
  {
    var event := EventOf(config, t, id, op);
    if event.Some? {
      ShapeGrows(log, event.value);
    } else {
      assert log + AsSeq(event) == log;
    }
  }

  lemma LogSplits(config: Config, t: Tracked, id: string, ops: seq<Op>, log: seq<PeerEvent>)
    ensures ops == [] ==> log + Log(config, t, id, ops) == log
    ensures ops != [] ==>
              var first := AsSeq(EventOf(config, t, id, ops[0]));
              log + Log(config, t, id, ops) == log + first + Log(config, ApplyOne(config, t, id, ops[0]), id, ops[1..])
  {
  }

  lemma {:induction false} LogFrom(config: Config, t: Tracked, id: string, ops: seq<Op>, log: seq<PeerEvent>)
    requires Tracks(config, t, log)
    ensures Tracks(config, RunOne(config, t, id, ops), log + Log(config, t, id, ops))
    decreases ops
  {
    LogSplits(config, t, id, ops, log);
    if ops != [] {
      LogStep(config, t, id, ops[0], log);
      LogFrom(config, ApplyOne(config, t, id, ops[0]), id, ops[1..], log + AsSeq(EventOf(config, t, id, ops[0])));
    }
  }

  lemma OwnLogShape(config: Config, id: string, ops: seq<Op>)
    ensures Tracks(config, RunOne(config, None, id, ops), Log(config, None, id, ops))
  {
    LogFrom(config, None, id, ops, []);
    assert [] + Log(config, None, id, ops) == Log(config, None, id, ops);
  }

  /** In every run of the manager, the events it raises about a peer have the stated shape
      and determine the peer's status; in particular no peer goes from alive to dead
      without having been reported suspect. */
  lemma LogShape(config: Config, id: string, ops: seq<Op>, log: seq<PeerEvent>)
    requires IsLogOf(config, map[], id, ops, log)
    ensures var peers := Run(config, map[], ops);
      && WellShaped(log)
      && (id in peers ==> peers[id].status == StatusFromLog(log))
      && (id in peers && peers[id].status == Alive ==>
            peers[id].missedHeartbeats < config.suspectThreshold || peers[id].missedHeartbeats == 0)
  {
    LogIsOwn(config, map[], id, ops, log);
    OwnLogShape(config, id, ops);
    RunIsIndependent(config, map[], id, ops);
  }

  // ---------- What the record of a peer says ----------

  /** The instant of the last heartbeat of the peer or, if it never beat, of its first
      registration. */
  function LastHeard(ops: seq<Op>, id: string): Option<nat> {
    if ops == [] then None
    else
      var before := LastHeard(ops[..|ops| - 1], id);
      match ops[|ops| - 1]
      case Heartbeat(who, now, _) => if who == id then Some(now) else before
      case Register(who, now) => if who == id && before.None? then Some(now) else before
      case Tick(_) => before
  }

  /** The space the last heartbeat of the peer reported; zero if it never beat. */
  function LastSpace(ops: seq<Op>, id: string): nat {
    if ops == [] then 0
    else
      match ops[|ops| - 1]
      case Heartbeat(who, _, space) => if who == id then space else LastSpace(ops[..|ops| - 1], id)
      case _ => LastSpace(ops[..|ops| - 1], id)
  }

  /** Operation `k` is a tick more than one interval after the peer was last heard of. */
  predicate LateTickAt(config: Config, ops: seq<Op>, id: string, k: nat) {
    && k < |ops| && ops[k].Tick? && LastHeard(ops[..k], id).Some?
    && ops[k].now > LastHeard(ops[..k], id).value + config.intervalSecs * 1_000_000_000
  }

  /** Operation `k` is a heartbeat of the peer. */
  predicate BeatAt(ops: seq<Op>, id: string, k: nat) {
    k < |ops| && ops[k].Heartbeat? && ops[k].id == id
  }

  /** The status of a peer before operation `k`; a peer not known is taken to be alive. */
  function StatusBefore(config: Config, ops: seq<Op>, id: string, k: nat): PeerStatus
    requires k <= |ops|
  {
    var peers := Run(config, map[], ops[..k]);
    if id in peers then peers[id].status else Alive
  }

  /** Late ticks since the peer was last revived. */
  function MissesOnRecord(config: Config, ops: seq<Op>, id: string): nat {
    if ops == [] then 0
    else
      var n := |ops| - 1;
      var before := MissesOnRecord(config, ops[..n], id);
      if LateTickAt(config, ops, id, n) then before + 1
      else if BeatAt(ops, id, n) && StatusBefore(config, ops, id, n) != Alive then 0
      else before
  }

  /** Late ticks that found the peer dead since its last heartbeat. */
  function FailuresOnRecord(config: Config, ops: seq<Op>, id: string): nat {
    if ops == [] then 0
    else
      var n := |ops| - 1;
      var before := FailuresOnRecord(config, ops[..n], id);
      if LateTickAt(config, ops, id, n) && StatusBefore(config, ops, id, n) == Dead then before + 1
      else if BeatAt(ops, id, n) then 0
      else before
  }

  lemma {:induction false} RunOneMore(config: Config, peers: Peers, ops: seq<Op>, op: Op)
    ensures Run(config, peers, ops + [op]) == Apply(config, Run(config, peers, ops), op)
    decreases ops
  {
    if ops == [] {
      assert Run(config, Apply(config, peers, op), ([op])[1..]) == Apply(config, peers, op);
    } else {
      assert (ops + [op])[1..] == ops[1..] + [op];
      RunOneMore(config, Apply(config, peers, ops[0]), ops[1..], op);
    }
  }

  ghost predicate OnRecord(config: Config, ops: seq<Op>, id: string) {
    var peers, heard := Run(config, map[], ops), LastHeard(ops, id);
    && (id in peers <==> heard.Some?)
    && (id in peers ==>
          var p := peers[id];
          && p.peerId == id && p.lastSeen == heard.value && p.availableSpaceBytes == LastSpace(ops, id)
          && p.missedHeartbeats == MissesOnRecord(config, ops, id)
          && p.consecutiveFailures == FailuresOnRecord(config, ops, id))
    && (id !in peers ==> LastSpace(ops, id) == 0 && MissesOnRecord(config, ops, id) == 0
                         && FailuresOnRecord(config, ops, id) == 0)
  }

  lemma OnRecordOneMore(config: Config, ops: seq<Op>, id: string)
    requires ops != [] && OnRecord(config, ops[..|ops| - 1], id)
    requires Run(config, map[], ops) == Apply(config, Run(config, map[], ops[..|ops| - 1]), ops[|ops| - 1])
    ensures OnRecord(config, ops, id)
  {
    var op := ops[|ops| - 1];
    match op
    case Heartbeat(_, _, _) =>
    case Tick(now) =>
    case Register(_, _) =>
  }

  /** In every run, a peer is known exactly if it beat or was registered; when it was last
      seen, its space, misses and failures are as the operations tell. */
  lemma {:induction false} RecordIsHistory(config: Config, ops: seq<Op>, id: string)
    ensures OnRecord(config, ops, id)
  {
    if ops != [] {
      var n := |ops| - 1;
      RecordIsHistory(config, ops[..n], id);
      RunOneMore(config, map[], ops[..n], ops[n]);
      assert ops[..n] + [ops[n]] == ops;
      OnRecordOneMore(config, ops, id);
    }
  }

  /** After any run, a tick no later than one interval after the peer was last heard of
      leaves it as it is and raises nothing about it. */
  lemma OnTimeTickIsHarmless(config: Config, ops: seq<Op>, id: string, now: nat)
    requires LastHeard(ops, id).Some?
    requires now <= LastHeard(ops, id).value + config.intervalSecs * 1_000_000_000
    ensures var peers := Run(config, map[], ops);
      && id in peers && id in Apply(config, peers, Tick(now)) && Apply(config, peers, Tick(now))[id] == peers[id]
      && !RaisesAbout(config, peers, Tick(now), id)
  {
    RecordIsHistory(config, ops, id);
    RunIsIndependent(config, map[], id, ops);
    StepIsIndependent(config, Run(config, map[], ops), id, Tick(now));
  }

  /** A peer that always beats in time, so that no tick is late, stays alive for ever, and all
      that is raised about it are signs of life. */
  lemma {:induction false} SteadyPeerStaysAlive(config: Config, ops: seq<Op>, id: string)
    requires forall k :: 0 <= k < |ops| ==> !LateTickAt(config, ops, id, k)
    ensures var peers := Run(config, map[], ops);
      id in peers ==> peers[id].status == Alive && peers[id].missedHeartbeats == 0
    ensures forall k, e :: 0 <= k < |ops| && Raises(config, Run(config, map[], ops[..k]), ops[k], e) ==>
              e.peerId == id ==> e == PeerAlive(id)
  {
    if ops != [] {
      var n := |ops| - 1;
      forall k | 0 <= k < n
        ensures !LateTickAt(config, ops[..n], id, k) && ops[..n][k] == ops[k] && ops[..n][..k] == ops[..k]
      {
        assert !LateTickAt(config, ops, id, k);
        assert ops[..n][..k] == ops[..k];
      }
      SteadyPeerStaysAlive(config, ops[..n], id);
      RecordIsHistory(config, ops[..n], id);
      RunIsIndependent(config, map[], id, ops[..n]);
      var peers := Run(config, map[], ops[..n]);
      StepIsIndependent(config, peers, id, ops[n]);
      RunOneMore(config, map[], ops[..n], ops[n]);
      assert ops[..n] + [ops[n]] == ops;
      assert !LateTickAt(config, ops, id, n);
    }
  }

  // ---------- A silent peer ----------

  predicate Silent(id: string, ops: seq<Op>) {
    forall k :: 0 <= k < |ops| && ops[k].Heartbeat? ==> ops[k].id != id
  }

  /** Ticks that find a peer last seen at `lastSeen` late. */
  function LateTicks(config: Config, lastSeen: nat, ops: seq<Op>): nat
    decreases ops
  {
    if ops == [] then 0
    else
      (if ops[0].Tick? && ops[0].now - lastSeen > config.intervalSecs * NANOS_PER_SEC then 1 else 0)
      + LateTicks(config, lastSeen, ops[1..])
  }

  /** The late tick, counted from one, at which an alive peer with `m` misses becomes suspect. */
  function SuspectAt(config: Config, m: nat): nat {
    Max(1, config.suspectThreshold - m)
  }

  function DeadAt(config: Config, m: nat): nat {
    Max(config.maxMissed - m, SuspectAt(config, m) + 1)
  }

  function StatusAfterLate(config: Config, m: nat, late: nat): PeerStatus {
    if late < SuspectAt(config, m) then Alive else if late < DeadAt(config, m) then Suspect else Dead
  }

  /** What has become of a peer that was `start` when it fell silent, after `late` late
      ticks: misses go on being counted, and failures from the tick after its death. */
  function Faded(config: Config, start: PeerState, late: nat): PeerState {
    start.(missedHeartbeats := start.missedHeartbeats + late,
           status := StatusAfterLate(config, start.missedHeartbeats, late),
           consecutiveFailures := start.consecutiveFailures + Max(0, late - DeadAt(config, start.missedHeartbeats)))
  }

  lemma {:induction false} FadesFrom(config: Config, id: string, start: PeerState, late: nat, t: Tracked, ops: seq<Op>)
    requires start.missedHeartbeats < config.suspectThreshold || start.missedHeartbeats == 0
    requires start.status == Alive && t == Some(Faded(config, start, late)) && Silent(id, ops)
    ensures RunOne(config, t, id, ops) == Some(Faded(config, start, late + LateTicks(config, start.lastSeen, ops)))
    decreases ops
  {
    if ops != [] {
      var t' := ApplyOne(config, t, id, ops[0]);
      var more := LateTicks(config, start.lastSeen, [ops[0]]);
      assert LateTicks(config, start.lastSeen, [ops[0]][1..]) == 0;
      assert Silent(id, ops[1..]);
      FadesFrom(config, id, start, late + more, t', ops[1..]);
    }
  }

  lemma AliveAfterRun(config: Config, id: string, ops: seq<Op>)
    ensures var peers := Run(config, map[], ops);
      Keyed(peers) && (id in peers ==> Consistent(config, Some(peers[id])))
  {
    OwnLogShape(config, id, ops);
    RunIsIndependent(config, map[], id, ops);
  }

  lemma NotYetFaded(config: Config, start: PeerState)
    requires start.status == Alive
    ensures Faded(config, start, 0) == start
  {
  }

  /** A peer found alive after any run that then stays silent, whatever else goes on:
      with `m` misses on record it is suspect from late tick `SuspectAt` on and dead from
      late tick `DeadAt` on, neither earlier nor later. */
  lemma SilentPeer(config: Config, id: string, before: seq<Op>, ops: seq<Op>)
    requires var peers := Run(config, map[], before); id in peers && peers[id].status == Alive
    requires Silent(id, ops)
    ensures var start := Run(config, map[], before)[id];
      var peers := Run(config, Run(config, map[], before), ops);
      var late := LateTicks(config, start.lastSeen, ops);
      id in peers && peers[id] == Faded(config, start, late)
  {
    var peers := Run(config, map[], before);
    AliveAfterRun(config, id, before);
    RunIsIndependent(config, peers, id, ops);
    NotYetFaded(config, peers[id]);
    FadesFrom(config, id, peers[id], 0, Lookup(peers, id), ops);
  }

  /** With no misses on record the two ticks are as configured, and by default the first
      and the third. */
  lemma ConfiguredTicks(config: Config)
    ensures SuspectAt(config, 0) == Max(1, config.suspectThreshold)
    ensures DeadAt(config, 0) == Max(config.maxMissed, Max(1, config.suspectThreshold) + 1)
    ensures SuspectAt(DEFAULT_CONFIG, 0) == 1 && DeadAt(DEFAULT_CONFIG, 0) == 3
    ensures forall p: PeerState, now: nat :: Late(DEFAULT_CONFIG, p, now) <==> now > p.lastSeen + 900_000_000_000
  {
  }
}
