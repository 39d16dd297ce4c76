/**
  Peer liveness, p2p/src/heartbeat.rs. Instants are nanoseconds and are passed in;
  the order in which a tick visits the peers is not known.
 */
module Heartbeat {
  import opened Basics

  datatype PeerStatus = Alive | Suspect | Dead

  datatype PeerState = PeerState(peerId: string, status: PeerStatus, lastSeen: nat, availableSpaceBytes: nat,
                                 missedHeartbeats: nat, consecutiveFailures: nat)

  datatype Config = Config(intervalSecs: nat, maxMissed: nat, suspectThreshold: nat)

  datatype PeerEvent =
    | PeerAlive(peerId: string)
    | PeerSuspect(peerId: string)
    | PeerDied(peerId: string)
    | PeerRecovered(peerId: string)

  const NANOS_PER_SEC: nat := 1_000_000_000

  const DEFAULT_CONFIG: Config := Config(900, 3, 1)

  type Peers = map<string, PeerState>

  // ---------- One peer ----------

  function NewPeer(id: string, now: nat): PeerState {
    PeerState(id, Alive, now, 0, 0, 0)
  }

  function PeerOrNew(peers: Peers, id: string, now: nat): PeerState {
    if id in peers then peers[id] else NewPeer(id, now)
  }

  /** A heartbeat revives the peer; misses of a peer that was still alive are kept. */
  function Beat(p: PeerState, now: nat, space: nat): PeerState {
    var seen := p.(lastSeen := now, availableSpaceBytes := space, consecutiveFailures := 0);
    if p.status == Alive then seen else seen.(status := Alive, missedHeartbeats := 0)
  }

  function BeatEvent(p: PeerState, id: string): PeerEvent {
    if p.status == Alive then PeerAlive(id) else PeerRecovered(id)
  }

  predicate Late(config: Config, p: PeerState, now: nat) {
    now - p.lastSeen > config.intervalSecs * NANOS_PER_SEC
  }

  /** The status after one more miss. */
  function StatusAfterMiss(config: Config, p: PeerState): PeerStatus {
    match p.status
    case Alive => if p.missedHeartbeats + 1 >= config.suspectThreshold then Suspect else Alive
    case Suspect => if p.missedHeartbeats + 1 >= config.maxMissed then Dead else Suspect
    case Dead => Dead
  }

  function TickPeer(config: Config, p: PeerState, now: nat): PeerState {
    if !Late(config, p, now) then p
    else p.(missedHeartbeats := p.missedHeartbeats + 1,
            status := StatusAfterMiss(config, p),
            consecutiveFailures := p.consecutiveFailures + if p.status == Dead then 1 else 0)
  }

  function TickEvent(config: Config, p: PeerState, now: nat): Option<PeerEvent> {
    if !Late(config, p, now) || StatusAfterMiss(config, p) == p.status then None
    else if p.status == Alive then Some(PeerSuspect(p.peerId))
    else Some(PeerDied(p.peerId))
  }

  // ---------- The manager ----------

  function TickAll(config: Config, peers: Peers, now: nat): Peers {
    map id | id in peers :: TickPeer(config, peers[id], now)
  }

  ghost predicate RaisedByTick(config: Config, peers: Peers, now: nat, e: PeerEvent) {
    exists id :: id in peers && TickEvent(config, peers[id], now) == Some(e)
  }

  function AsSeq<T>(o: Option<T>): seq<T> {
    if o.Some? then [o.value] else []
  }

  ghost predicate Keyed(peers: Peers) {
    forall id :: id in peers ==> peers[id].peerId == id
  }

  lemma RaisedByOneMore(config: Config, peers: Peers, id: string, p: PeerState, now: nat, events: seq<PeerEvent>)
    requires Keyed(peers) && p.peerId == id && id !in peers
    requires NoDuplicates(events) && forall e :: e in events <==> RaisedByTick(config, peers, now, e)
    ensures var events' := events + AsSeq(TickEvent(config, p, now));
      NoDuplicates(events') && forall e :: e in events' <==> RaisedByTick(config, peers[id := p], now, e)
  {
    var more, event := peers[id := p], TickEvent(config, p, now);
    var events' := events + AsSeq(event);
    assert forall e :: e in events' <==> e in events || event == Some(e);
    assert forall e :: e in events ==> e.peerId != id;
    assert more[id] == p;
    forall e
      ensures e in events' <==> RaisedByTick(config, more, now, e)
    {
      if RaisedByTick(config, peers, now, e) {
        var other :| other in peers && TickEvent(config, peers[other], now) == Some(e);
        assert other in more && more[other] == peers[other];
      }
    }
  }

  class HeartbeatManager {
    var config: Config
    var peers: Peers
    var nodeId: string
    var availableSpace: nat

    ghost predicate Valid()
      reads this
    {
      Keyed(peers)
    }

    constructor (nodeId: string, config: Config)
      ensures Valid() && peers == map[] && this.config == config && this.nodeId == nodeId && availableSpace == 0
    {
      this.config, this.nodeId := config, nodeId;
      peers, availableSpace := map[], 0;
    }

    method ProcessHeartbeat(id: string, now: nat, space: nat) returns (event: PeerEvent)
      requires Valid()
      modifies this`peers
      ensures Valid()
      ensures peers == old(peers)[id := Beat(PeerOrNew(old(peers), id, now), now, space)]
      ensures event == BeatEvent(PeerOrNew(old(peers), id, now), id)
      ensures id in peers && peers[id].lastSeen == now && peers[id].availableSpaceBytes == space
      ensures peers[id].status == Alive && peers[id].consecutiveFailures == 0
      ensures if id in old(peers) && old(peers)[id].status != Alive
              then event == PeerRecovered(id) && peers[id].missedHeartbeats == 0
              else event == PeerAlive(id)
                   && peers[id].missedHeartbeats == if id in old(peers) then old(peers)[id].missedHeartbeats else 0
    {
      var peer := if id in peers then peers[id] else NewPeer(id, now);
      peer := peer.(lastSeen := now);
      peer := peer.(availableSpaceBytes := space);
      peer := peer.(consecutiveFailures := 0);
      match peer.status {
        case Alive =>
          event := PeerAlive(id);
        case _ =>
          peer := peer.(status := Alive, missedHeartbeats := 0);
          event := PeerRecovered(id);
      }
      peers := peers[id := peer];
    }

    /** Every peer takes its step, and the events are those of the peers, each once. */
    method Tick(now: nat) returns (events: seq<PeerEvent>)
      requires Valid()
      modifies this`peers
      ensures Valid()
      ensures peers == TickAll(config, old(peers), now)
      ensures NoDuplicates(events)
      ensures forall e :: e in events <==> RaisedByTick(config, old(peers), now, e)
    {
      var interval := config.intervalSecs * NANOS_PER_SEC;
      events := [];
      var rest := peers.Keys;
      while rest != {}
        invariant rest <= peers.Keys == old(peers).Keys
        invariant forall id :: id in peers ==>
                    peers[id] == if id in rest then old(peers)[id] else TickPeer(config, old(peers)[id], now)
        invariant NoDuplicates(events)
        invariant forall e :: e in events <==> RaisedByTick(config, old(peers) - rest, now, e)
        decreases rest
      {
        var id :| id in rest;
        var peer := peers[id];
        ghost var visited, raised := old(peers) - rest, events;
        rest := rest - {id};
        assert old(peers) - rest == visited[id := peer];
        if now - peer.lastSeen > interval {
          peer := peer.(missedHeartbeats := peer.missedHeartbeats + 1);
          match peer.status {
            case Alive =>
              if peer.missedHeartbeats >= config.suspectThreshold {
                peer := peer.(status := Suspect);
                events := events + [PeerSuspect(peer.peerId)];
              }
            case Suspect =>
              if peer.missedHeartbeats >= config.maxMissed {
                peer := peer.(status := Dead);
                events := events + [PeerDied(peer.peerId)];
              }
            case Dead =>
              peer := peer.(consecutiveFailures := peer.consecutiveFailures + 1);
          }
          peers := peers[id := peer];
        }
        assert peers[id] == TickPeer(config, old(peers)[id], now);
        assert events == raised + AsSeq(TickEvent(config, old(peers)[id], now));
        RaisedByOneMore(config, visited, id, old(peers)[id], now, raised);
      }
      assert old(peers) - {} == old(peers);
      assert peers == TickAll(config, old(peers), now);
    }

    method GetDeadPeers() returns (dead: seq<PeerState>)
      requires Valid()
      ensures NoDuplicates(dead)
      ensures forall p :: p in dead <==> p.peerId in peers && p == peers[p.peerId] && p.status == Dead
    {
      dead := [];
      var rest := peers.Keys;
      while rest != {}
        invariant rest <= peers.Keys
        invariant NoDuplicates(dead)
        invariant forall p :: p in dead <==>
                    p.peerId in peers && p.peerId !in rest && p == peers[p.peerId] && p.status == Dead
        decreases rest
      {
        var id :| id in rest;
        rest := rest - {id};
        if peers[id].status == Dead {
          dead := dead + [peers[id]];
        }
      }
    }

    method AliveCount() returns (count: nat)
      ensures count == |set id | id in peers && peers[id].status == Alive|
    {
      count := 0;
      var rest := peers.Keys;
      ghost var counted: set<string> := {};
      while rest != {}
        invariant rest <= peers.Keys
        invariant counted == set id | id in peers && id !in rest && peers[id].status == Alive
        invariant count == |counted|
        decreases rest
      {
        var id :| id in rest;
        rest := rest - {id};
        if peers[id].status == Alive {
          count := count + 1;
          counted := counted + {id};
        }
      }
      assert counted == set id | id in peers && peers[id].status == Alive;
    }

    method RegisterPeer(id: string, now: nat)
      requires Valid()
      modifies this`peers
      ensures Valid()
      ensures peers == old(peers)[id := PeerOrNew(old(peers), id, now)]
      ensures peers == if id in old(peers) then old(peers) else old(peers)[id := PeerState(id, Alive, now, 0, 0, 0)]
    {
      if id !in peers {
        peers := peers[id := NewPeer(id, now)];
      }
    }
  }
}
