/**
  Ledger synchronisation between peers, ledger/src/gossip_sync.rs. Request identifiers
  are chosen at random in the source; here they are passed in and may even repeat.
 */
module GossipSync {
  import opened Basics
  import opened Conflict
  import opened Merkle
  import opened MerklePaths
  import opened MerkleInputs
  import LedgerStore
  import Hex

  datatype SyncMessage =
    | StateAdvert(peerId: string, merkleRoot: string, latestSeq: int)
    | EntryRequest(fromSeq: int, requestId: string)
    | EntryResponse(responseTo: string, entries: seq<Json>)
    | ConflictNotify(conflicts: seq<Json>)

  datatype PeerSyncState = PeerSyncState(peerId: string, merkleRoot: string, latestSeq: int, lastSync: nat)

  type Peers = map<string, PeerSyncState>

  /** A known peer advertises another root, or entries not held locally. */
  predicate SyncNeeded(peers: Peers, peerId: string, localRoot: string, localLatestSeq: int) {
    peerId in peers && (peers[peerId].merkleRoot != localRoot || peers[peerId].latestSeq > localLatestSeq)
  }

  function RequestFrom(peers: Peers, peerId: string, localLatestSeq: int): int {
    if peerId in peers then Max(0, localLatestSeq - peers[peerId].latestSeq + 1) else 0
  }

  /** Each conflict settled without votes, in order. */
  function ResolveAll(conflicts: seq<LedgerConflict>): seq<ResolveResult> {
    seq(|conflicts|, i requires 0 <= i < |conflicts| => Resolution(conflicts[i], 0, 0))
  }

  function CountAll(s: Stats, results: seq<ResolveResult>): Stats {
    if results == [] then s
    else Count(CountAll(s, results[..|results| - 1]), results[|results| - 1])
  }

  lemma CountOneMore(s: Stats, results: seq<ResolveResult>, r: ResolveResult)
    ensures CountAll(s, results + [r]) == Count(CountAll(s, results), r)
  {
  }

  /** The part of the manager that requests and responses change. */
  datatype Exchange = Exchange(pending: map<string, string>, stats: Stats)

  function Results(x: Exchange, requestId: string, entries: seq<Json>, localEntries: seq<Json>): seq<ResolveResult> {
    if requestId in x.pending then ResolveAll(ScanConflicts(localEntries, entries)) else []
  }

  function Respond(x: Exchange, requestId: string, entries: seq<Json>, localEntries: seq<Json>): Exchange {
    Exchange(x.pending - {requestId}, CountAll(x.stats, Results(x, requestId, entries, localEntries)))
  }

  ghost function RemoteCount(results: seq<ResolveResult>): nat {
    |set i | 0 <= i < |results| && results[i].UseRemote?|
  }

  lemma RemoteCountMore(results: seq<ResolveResult>, r: ResolveResult)
    ensures RemoteCount(results + [r]) == RemoteCount(results) + if r.UseRemote? then 1 else 0
  {
    var before := set i | 0 <= i < |results| && results[i].UseRemote?;
    var after := set i | 0 <= i < |results + [r]| && (results + [r])[i].UseRemote?;
    assert after == if r.UseRemote? then before + {|results|} else before;
  }

  lemma {:induction false} CountsByOutcome(s: Stats, results: seq<ResolveResult>)
    ensures var end := CountAll(s, results);
      && end.resolved == s.resolved + |results|
      && end.remoteWins == s.remoteWins + RemoteCount(results)
      && end.localWins == s.localWins + |results| - RemoteCount(results)
  {
    if results != [] {
      var n := |results| - 1;
      CountsByOutcome(s, results[..n]);
      RemoteCountMore(results[..n], results[n]);
      assert results == results[..n] + [results[n]];
    } else {
      assert RemoteCount([]) == 0;
    }
  }

  /** The result delivered for the conflict of a local and a remote entry: the remote entry
      if its timestamp is later, and else the local one. */
  ghost predicate LaterKept(mine: Json, theirs: Json, r: ResolveResult) {
    exists t: string, u: string :: IsTimestampOf(t, mine) && IsTimestampOf(u, theirs)
                                   && r == if Precedes(t, u) then UseRemote(theirs) else UseLocal(mine)
  }

  /** A pending response yields one result for every remote entry that clashes with a local
      one, in the order of the remote entries; any other response yields nothing. */
  lemma ResultsKeepTheLater(x: Exchange, requestId: string, entries: seq<Json>, localEntries: seq<Json>)
      returns (ks: seq<nat>, js: seq<nat>)
    ensures var results := Results(x, requestId, entries, localEntries);
      && (requestId !in x.pending ==> results == [])
      && (requestId in x.pending ==>
            && |ks| == |js| == |results| && Increasing(js)
            && (forall i :: 0 <= i < |results| ==>
                  Clash(localEntries, entries, ks[i], js[i])
                  && LaterKept(localEntries[ks[i]], entries[js[i]], results[i]))
            && forall k: nat, j: nat :: Clash(localEntries, entries, k, j) ==> j in js)
  {
    var found := ScanConflicts(localEntries, entries);
    ks, js := ScanInOrder(localEntries, entries, |entries|);
    assert entries[..|entries|] == entries;
    if requestId in x.pending {
      var results := Results(x, requestId, entries, localEntries);
      forall i | 0 <= i < |results|
        ensures LaterKept(localEntries[ks[i]], entries[js[i]], results[i])
      {
        ConflictDescribes(localEntries[ks[i]], entries[js[i]]);
        ResolutionIs(found[i], 0, 0);
        assert results[i] == Resolution(found[i], 0, 0);
      }
    }
  }

  class LedgerSyncManager {
    const localPeerId: string
    const conflictResolver: ConflictResolver
    var localMerkleRoot: string
    var localLatestSeq: int
    var peers: Peers
    var pendingRequests: map<string, string>

    function State(): Exchange
      reads this, conflictResolver
    {
      Exchange(pendingRequests, conflictResolver.GetStats())
    }

    constructor (localPeerId: string)
      ensures State() == Exchange(map[], Stats(0, 0, 0)) && fresh(conflictResolver)
      ensures this.localPeerId == localPeerId && localMerkleRoot == "" && localLatestSeq == 0 && peers == map[]
    {
      this.localPeerId := localPeerId;
      conflictResolver := new ConflictResolver();
      localMerkleRoot, localLatestSeq, peers, pendingRequests := "", 0, map[], map[];
    }

    method UpdateLocalState(merkleRoot: string, latestSeq: int)
      modifies this`localMerkleRoot, this`localLatestSeq
      ensures localMerkleRoot == merkleRoot && localLatestSeq == latestSeq
    {
      localMerkleRoot, localLatestSeq := merkleRoot, latestSeq;
    }

    method RegisterPeerState(peerId: string, merkleRoot: string, latestSeq: int, now: nat)
      modifies this`peers
      ensures peers == old(peers)[peerId := PeerSyncState(peerId, merkleRoot, latestSeq, now)]
    {
      peers := peers[peerId := PeerSyncState(peerId, merkleRoot, latestSeq, now)];
    }

    method NeedsSync(peerId: string) returns (needed: bool)
      ensures needed <==> SyncNeeded(peers, peerId, localMerkleRoot, localLatestSeq)
      ensures peerId !in peers ==> !needed
      ensures peerId in peers && peers[peerId].merkleRoot != localMerkleRoot ==> needed
      ensures peerId in peers && peers[peerId].merkleRoot == localMerkleRoot ==>
                (needed <==> peers[peerId].latestSeq > localLatestSeq)
    {
      if peerId in peers {
        var peer := peers[peerId];
        if peer.merkleRoot != localMerkleRoot {
          return true;
        }
        if peer.latestSeq > localLatestSeq {
          return true;
        }
      }
      needed := false;
    }

    method CreateEntryRequest(peerId: string, requestId: string) returns (request: SyncMessage)
      modifies this`pendingRequests
      ensures State() == old(State()).(pending := old(pendingRequests)[requestId := peerId])
      ensures request == EntryRequest(RequestFrom(peers, peerId, localLatestSeq), requestId)
      ensures pendingRequests == old(pendingRequests)[requestId := peerId]
      ensures peerId !in peers ==> request.fromSeq == 0
      ensures peerId in peers ==> var excess := localLatestSeq - peers[peerId].latestSeq;
                                  request.fromSeq == if excess >= 0 then excess + 1 else 0
    {
      pendingRequests := pendingRequests[requestId := peerId];
      var fromSeq := 0;
      if peerId in peers {
        fromSeq := Max(0, localLatestSeq - peers[peerId].latestSeq + 1);
      }
      request := EntryRequest(fromSeq, requestId);
    }

    method CreateStateAdvert() returns (advert: SyncMessage)
      ensures advert == StateAdvert(localPeerId, localMerkleRoot, localLatestSeq)
    {
      advert := StateAdvert(localPeerId, localMerkleRoot, localLatestSeq);
    }

    /** The loop over the conflicts; no votes are known during a sync. */
    method ResolveConflicts(conflicts: seq<LedgerConflict>) returns (results: seq<ResolveResult>)
      modifies conflictResolver
      ensures results == ResolveAll(conflicts)
      ensures conflictResolver.GetStats() == CountAll(old(conflictResolver.GetStats()), results)
    {
      results := [];
      for i := 0 to |conflicts|
        invariant results == ResolveAll(conflicts)[..i]
        invariant conflictResolver.GetStats() == CountAll(old(conflictResolver.GetStats()), results)
      {
        var result := conflictResolver.Resolve(conflicts[i], 0, 0);
        CountOneMore(old(conflictResolver.GetStats()), results, result);
        results := results + [result];
      }
    }

    method ProcessEntries(requestId: string, entries: seq<Json>, localEntries: seq<Json>)
        returns (results: seq<ResolveResult>)
      modifies this`pendingRequests, conflictResolver
      ensures results == Results(old(State()), requestId, entries, localEntries)
      ensures State() == Respond(old(State()), requestId, entries, localEntries)
      ensures pendingRequests == old(pendingRequests) - {requestId}
      ensures conflictResolver.resolvedCount == old(conflictResolver.resolvedCount) + |results|
      ensures conflictResolver.remoteWins == old(conflictResolver.remoteWins) + RemoteCount(results)
      ensures conflictResolver.localWins == old(conflictResolver.localWins) + |results| - RemoteCount(results)
    {
      CountsByOutcome(State().stats, Results(State(), requestId, entries, localEntries));
      results := [];
      if requestId in pendingRequests {
        pendingRequests := pendingRequests - {requestId};
        var conflicts := conflictResolver.DetectConflicts(localEntries, entries);
        results := ResolveConflicts(conflicts);
      } else {
        assert pendingRequests - {requestId} == pendingRequests;
      }
    }
  }

  // ---------- Runs ----------

  datatype Op =
    | Request(requestId: string, peerId: string)
    | Response(requestId: string, entries: seq<Json>, localEntries: seq<Json>)

  function Apply(x: Exchange, op: Op): Exchange {
    match op
    case Request(id, peer) => x.(pending := x.pending[id := peer])
    case Response(id, entries, localEntries) => Respond(x, id, entries, localEntries)
  }

  function Run(x: Exchange, ops: seq<Op>): Exchange
    decreases ops
  {
    if ops == [] then x else Run(Apply(x, ops[0]), ops[1..])
  }

  /** Requests sent with this identifier. */
  function Sent(ops: seq<Op>, id: string): nat
    decreases ops
  {
    if ops == [] then 0 else (if ops[0].Request? && ops[0].requestId == id then 1 else 0) + Sent(ops[1..], id)
  }

  /** Responses with this identifier that were looked at. */
  function Consumed(x: Exchange, ops: seq<Op>, id: string): nat
    decreases ops
  {
    if ops == [] then 0
    else
      (if ops[0].Response? && ops[0].requestId == id && id in x.pending then 1 else 0)
      + Consumed(Apply(x, ops[0]), ops[1..], id)
  }

  /** Every result of a run, in order. */
  function AllResults(x: Exchange, ops: seq<Op>): seq<ResolveResult>
    decreases ops
  {
    if ops == [] then []
    else
      (if ops[0].Response? then Results(x, ops[0].requestId, ops[0].entries, ops[0].localEntries) else [])
      + AllResults(Apply(x, ops[0]), ops[1..])
  }

  lemma {:induction false} CountAllSplits(s: Stats, first: seq<ResolveResult>, second: seq<ResolveResult>)
    ensures CountAll(CountAll(s, first), second) == CountAll(s, first + second)
  {
    if second == [] {
      assert first + second == first;
    } else {
      var n := |second| - 1;
      CountAllSplits(s, first, second[..n]);
      assert (first + second)[..|first| + n] == first + second[..n];
    }
  }

  lemma {:induction false} RunCounts(x: Exchange, ops: seq<Op>)
    ensures Run(x, ops).stats == CountAll(x.stats, AllResults(x, ops))
    decreases ops
  {
    if ops != [] {
      var now := if ops[0].Response? then Results(x, ops[0].requestId, ops[0].entries, ops[0].localEntries) else [];
      var x' := Apply(x, ops[0]);
      RunCounts(x', ops[1..]);
      CountAllSplits(x.stats, now, AllResults(x', ops[1..]));
    }
  }

  /** In every run from the start, the counters count the results delivered, and each
      resolution is a win for the side it was decided for. */
  lemma CountersAddUp(ops: seq<Op>)
    ensures var start := Exchange(map[], Stats(0, 0, 0));
      var end := Run(start, ops).stats;
      && end.resolved == end.localWins + end.remoteWins == |AllResults(start, ops)|
      && end.remoteWins == RemoteCount(AllResults(start, ops))
  {
    var start := Exchange(map[], Stats(0, 0, 0));
    RunCounts(start, ops);
    CountsByOutcome(start.stats, AllResults(start, ops));
  }

  /** Each request is consumed at most once; one still pending has not been. */
  lemma {:induction false} ConsumedAtMostOnce(x: Exchange, ops: seq<Op>, id: string)
    ensures Consumed(x, ops, id) + (if id in Run(x, ops).pending then 1 else 0)
         <= Sent(ops, id) + (if id in x.pending then 1 else 0)
    decreases ops
  {
    if ops != [] {
      ConsumedAtMostOnce(Apply(x, ops[0]), ops[1..], id);
    }
  }

  lemma {:induction false} StaysConsumed(x: Exchange, ops: seq<Op>, id: string)
    requires id !in x.pending && Sent(ops, id) == 0
    ensures id !in Run(x, ops).pending
    decreases ops
  {
    if ops != [] {
      StaysConsumed(Apply(x, ops[0]), ops[1..], id);
    }
  }

  /** A response that is replayed, whatever happened since, short of the same request being
      sent anew, yields nothing and changes nothing. */
  lemma ReplayIsInert(x: Exchange, response: Op, between: seq<Op>, replay: Op)
    requires response.Response? && replay.Response? && replay.requestId == response.requestId
    requires Sent(between, response.requestId) == 0
    ensures var later := Run(Apply(x, response), between);
      Apply(later, replay) == later && AllResults(later, [replay]) == []
  {
    var id, later := response.requestId, Run(Apply(x, response), between);
    StaysConsumed(Apply(x, response), between, id);
    assert later.pending - {id} == later.pending;
    assert [replay][1..] == [];
  }

  // ---------- When the protocol rests, and what a request covers ----------

  /** Where the protocol sees nothing to do between two ledgers, the rows that go into their
      roots are the same, or a hash collision is computed. With an honest advertisement sync
      is needed exactly if those rows differ or the peer is ahead; differences beyond them
      are otherwise not seen. */
  lemma AtRestMeansSameRows(h: HashFunction, peers: Peers, peerId: string, mine: seq<Bytes>, theirs: seq<Bytes>)
    requires peerId in peers
    requires peers[peerId].merkleRoot == Hex.Encode(LedgerStore.LedgerRoot(h, theirs))
    requires |mine| == |theirs| || (Distinguishable(mine) && Distinguishable(theirs))
    ensures var needed := SyncNeeded(peers, peerId, Hex.Encode(LedgerStore.LedgerRoot(h, mine)), |mine|);
      var differ := LedgerStore.RowsRead(mine) != LedgerStore.RowsRead(theirs);
      && (!needed ==> !differ || IsCollision(h, LedgerStore.LedgerCollision(h, mine, theirs)))
      && (peers[peerId].latestSeq == |theirs| ==>
            (needed <==> differ || |theirs| > |mine|) || IsCollision(h, LedgerStore.LedgerCollision(h, mine, theirs)))
  {
    assert LedgerStore.RowsRead(mine) == LedgerStore.RowsRead(theirs) ==> (mine == [] <==> theirs == []);
    if Hex.Encode(LedgerStore.LedgerRoot(h, mine)) == peers[peerId].merkleRoot {
      LedgerStore.SameRootSameRows(h, mine, theirs);
    }
  }

  /** With an honest advertisement, the protocol rests between two different ledgers exactly
      if the local one is as long and all the rows read are the same, so that at least the
      limit is full; or a collision is computed. */
  lemma DifferenceIsMissed(h: HashFunction, peers: Peers, peerId: string, mine: seq<Bytes>, theirs: seq<Bytes>)
    requires peerId in peers && peers[peerId].latestSeq == |theirs|
    requires peers[peerId].merkleRoot == Hex.Encode(LedgerStore.LedgerRoot(h, theirs))
    requires |mine| == |theirs| || (Distinguishable(mine) && Distinguishable(theirs))
    requires mine != theirs
    ensures (!SyncNeeded(peers, peerId, Hex.Encode(LedgerStore.LedgerRoot(h, mine)), |mine|) <==>
              LedgerStore.ROW_LIMIT <= |theirs| <= |mine|
              && mine[..LedgerStore.ROW_LIMIT] == theirs[..LedgerStore.ROW_LIMIT])
            || IsCollision(h, LedgerStore.LedgerCollision(h, mine, theirs))
  {
    AtRestMeansSameRows(h, peers, peerId, mine, theirs);
    if |theirs| < LedgerStore.ROW_LIMIT {
      assert LedgerStore.RowsRead(theirs) == theirs;
      if |mine| <= LedgerStore.ROW_LIMIT {
        assert LedgerStore.RowsRead(mine) == mine;
      }
    }
  }

  /** Two ledgers that differ in their last row, number 100,001, stay as they are. */
  lemma RowBeyondLimitNeverSynced(h: HashFunction, peers: Peers, peerId: string, rows: seq<Bytes>, a: Bytes, b: Bytes)
    requires |rows| == 100_000 && a != b
    requires peerId in peers && peers[peerId].latestSeq == |rows + [b]|
    requires peers[peerId].merkleRoot == Hex.Encode(LedgerStore.LedgerRoot(h, rows + [b]))
    ensures rows + [a] != rows + [b]
    ensures !SyncNeeded(peers, peerId, Hex.Encode(LedgerStore.LedgerRoot(h, rows + [a])), |rows + [a]|)
  {
    LedgerStore.RowsBeyondLimitUnseen(h, rows, [a]);
    LedgerStore.RowsBeyondLimitUnseen(h, rows, [b]);
    assert (rows + [a])[100_000] == a && (rows + [b])[100_000] == b;
  }

  /** What a peer answers to the request made of it. */
  function Answered(peers: Peers, peerId: string, localLatestSeq: int, rows: seq<Bytes>): seq<Bytes> {
    LedgerStore.Answer(rows, RequestFrom(peers, peerId, localLatestSeq))
  }

  /** The answer holds all the rows of a peer exactly if that peer is ahead and has no more
      rows than fit one answer. A peer that is not ahead leaves out its first rows, and
      conflicts in them are not seen. */
  lemma AnswerIsWhole(peers: Peers, peerId: string, localLatestSeq: int, rows: seq<Bytes>)
    requires peerId in peers && peers[peerId].latestSeq == |rows| > 0
    ensures Answered(peers, peerId, localLatestSeq, rows) == rows
       <==> |rows| > localLatestSeq && |rows| <= LedgerStore.ANSWER_LIMIT
  {
    var answer := Answered(peers, peerId, localLatestSeq, rows);
    if |rows| <= localLatestSeq || |rows| > LedgerStore.ANSWER_LIMIT {
      assert |answer| < |rows|;
    }
  }

  /** The ledgers agree in their first `common` rows, and none of the peer's later rows is
      held locally. */
  ghost predicate Diverge(mine: seq<Bytes>, rows: seq<Bytes>, common: nat) {
    && common <= |mine| && common <= |rows| && mine[..common] == rows[..common]
    && forall k :: common <= k < |rows| ==> rows[k] !in mine
  }

  /** Whether the answer brings a row that is not held locally. From a peer that is ahead, it
      does exactly if fewer rows are common than fit one answer; from any other, exactly if
      the window that is asked for, which opens the later the longer the local ledger is,
      meets the rows that are not common. */
  lemma AnswerBringsNews(peers: Peers, peerId: string, mine: seq<Bytes>, rows: seq<Bytes>, common: nat)
    requires peerId in peers && peers[peerId].latestSeq == |rows| && Diverge(mine, rows, common)
    ensures (exists r :: r in Answered(peers, peerId, |mine|, rows) && r !in mine) <==>
            if |mine| < |rows| then common < LedgerStore.ANSWER_LIMIT
            else common < |rows| && |mine| + 1 < 2 * |rows| && common < |mine| - |rows| + 1 + LedgerStore.ANSWER_LIMIT
  {
    var from, answer := RequestFrom(peers, peerId, |mine|), Answered(peers, peerId, |mine|, rows);
    var k := Max(from, common);
    if k < |rows| && k < from + LedgerStore.ANSWER_LIMIT {
      assert answer[k - from] == rows[k];
      assert rows[k] in answer && rows[k] !in mine;
    } else {
      forall j | 0 <= j < |answer|
        ensures answer[j] in mine
      {
        assert answer[j] == mine[from + j];
      }
    }
  }

  /** Where one ledger continues the other, it does exactly if the peer is ahead and fewer
      rows are held than fit one answer. */
  lemma ContinuationBringsNews(peers: Peers, peerId: string, mine: seq<Bytes>, rows: seq<Bytes>)
    requires peerId in peers && peers[peerId].latestSeq == |rows| && NoDuplicates(rows)
    requires mine <= rows || rows <= mine
    ensures (exists r :: r in Answered(peers, peerId, |mine|, rows) && r !in mine)
       <==> |mine| < |rows| && |mine| < LedgerStore.ANSWER_LIMIT
  {
    AnswerBringsNews(peers, peerId, mine, rows, Min(|mine|, |rows|));
  }

  /** Two peers that hold one row each, and not the same one, get nothing from each other,
      although sync is needed. */
  lemma NewsIsMissed(peers: Peers, peerId: string, localRoot: string, a: Bytes, b: Bytes)
    requires peerId in peers && peers[peerId].latestSeq == 1
    requires a != b && peers[peerId].merkleRoot != localRoot
    ensures SyncNeeded(peers, peerId, localRoot, |[a]|)
    ensures Diverge([a], [b], 0) && Answered(peers, peerId, |[a]|, [b]) == []
  {
  }

  /** A peer that is ahead always answers with its first rows, however many of them are held
      locally already, and sync goes on being needed. */
  lemma AnswerIgnoresProgress(peers: Peers, peerId: string, localRoot: string, localLatestSeq: int, rows: seq<Bytes>)
    requires peerId in peers && peers[peerId].latestSeq == |rows| > localLatestSeq
    ensures SyncNeeded(peers, peerId, localRoot, localLatestSeq)
    ensures Answered(peers, peerId, localLatestSeq, rows) == rows[..Min(|rows|, LedgerStore.ANSWER_LIMIT)]
  {
  }

  /** From a peer with 20,000 rows, a peer without any gets 10,000; one with those 10,000
      gets them once more, although it needs the rest. */
  lemma SyncStalls(peers: Peers, peerId: string, rows: seq<Bytes>, localRoot: string)
    requires peerId in peers && peers[peerId].latestSeq == |rows| == 20_000 && NoDuplicates(rows)
    ensures rows[10_000] !in Answered(peers, peerId, 0, rows)
    ensures SyncNeeded(peers, peerId, localRoot, 10_000)
    ensures Answered(peers, peerId, 10_000, rows) == Answered(peers, peerId, 0, rows) == rows[..10_000]
  {
    LedgerStore.EntryIsRead(rows, 0, LedgerStore.ANSWER_LIMIT, 10_001);
  }
}
