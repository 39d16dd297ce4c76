/** Network messages, p2p/src/message.rs. */
module Messages {
  import opened Basics

  type ChunkId = Digest

  datatype StorageChallenge = StorageChallenge(chunkId: ChunkId, leafIndices: seq<nat>, nonce: Bytes, timestamp: nat)

  datatype StorageProof = StorageProof(chunkId: ChunkId, leafIndices: seq<nat>, leaves: seq<Bytes>, root: Digest)

  datatype P2pMessage =
    | ChunkRequest(chunkId: ChunkId, shardIndices: seq<nat>)
    | ChunkResponse(chunkId: ChunkId, shardIndex: nat, data: Bytes)
    | ChunkAnnounce(chunkId: ChunkId, availableShards: seq<nat>)
    | ChallengeRequest(challenge: StorageChallenge)
    | ChallengeResponse(proof: StorageProof)
    | Heartbeat(nodeId: string, timestamp: nat, availableSpaceBytes: nat)
    | HeartbeatAck(nodeId: string, timestamp: nat)
    | LedgerSync(merkleRoot: string, fromSeq: nat, entries: seq<Bytes>)
    | LedgerRequest(fromSeq: nat)
    | ReplicationRequest(chunkId: ChunkId, targetShards: seq<nat>)
    | NodeJoin(nodeId: string, peerId: string, availableSpace: nat)

  datatype GossipMessage = GossipMessage(senderPeerId: string, message: P2pMessage, timestamp: nat, sequence: nat)
}
