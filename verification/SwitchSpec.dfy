/** What one ingress pass of orbitcache.p4 does, with the request table of a key seen as a queue. */
module SwitchSpec {

  const MAX_QUEUE_SIZE_PER_KEY: nat := 8
  const MAX_CACHE_SIZE: nat := 8192
  const MISSED: nat := 2
  const FETCHING: nat := 1

  datatype Op = Read | ReadReply | Write | WriteReply | Correction | Fetch | FetchReply | Unknown(code: nat)

  /** The header fields the ingress reads or writes; `value` stands for the payload. */
  datatype Packet = Packet(op: Op, key: nat, value: nat, seq_: nat, flag: nat, cached: nat, latency: nat,
                           srcIp: nat, dstIp: nat, srcPort: nat, dstPort: nat)

  /** One entry of the request table. */
  datatype Request = Request(ip: nat, port: nat, seq_: nat, latency: nat)

  function RequestOf(p: Packet): Request {
    Request(p.srcIp, p.srcPort, p.seq_, p.latency)
  }

  /** The packet addressed to the client that made a request. */
  function Answer(p: Packet, r: Request): Packet {
    p.(dstIp := r.ip, dstPort := r.port, seq_ := r.seq_, latency := r.latency)
  }

  /**
   * Where a packet goes: nowhere, to its destination address, back into orbit, or, by the multicast
   * group of its destination, one copy to that client and one into orbit.
   */
  datatype Fate = Dropped | Forwarded(p: Packet) | Recirculated(p: Packet) | Cloned(p: Packet)

  datatype KeyState = KeyState(valid: bool, queue: seq<Request>)

  /** A read of a valid key waits in the table unless the table is full. */
  function PassRead(ks: KeyState, p: Packet): (KeyState, Fate) {
    if !ks.valid then (ks, Forwarded(p))
    else if |ks.queue| < MAX_QUEUE_SIZE_PER_KEY then (ks.(queue := ks.queue + [RequestOf(p)]), Dropped)
    else (ks, Forwarded(p.(cached := MISSED)))
  }

  /** A cache packet of a valid key serves the oldest request, and stays in orbit. */
  function PassOrbit(ks: KeyState, p: Packet): (KeyState, Fate) {
    if !ks.valid then (ks, Dropped)
    else if ks.queue == [] then (ks, Recirculated(p))
    else (ks.(queue := ks.queue[1..]), Cloned(Answer(p, ks.queue[0])))
  }

  /** The pass of a packet whose key is cached. */
  function PassCached(ks: KeyState, p: Packet, fromOrbit: bool): (KeyState, Fate) {
    if fromOrbit then PassOrbit(ks, p.(op := ReadReply))
    else match p.op
      case Read => PassRead(ks, p)
      case Write => (ks.(valid := false), Forwarded(p.(flag := FETCHING)))
      case WriteReply => (ks.(valid := true), Cloned(p))
      case FetchReply => (ks.(valid := true), Cloned(p))
      case _ => (ks, Forwarded(p))
  }

  function PassUncached(p: Packet, fromOrbit: bool): Fate {
    if fromOrbit then Dropped else Forwarded(p)
  }
}
