/** The registers of the request table as values, and the queue each key's ring stands for. */
module RequestTable {
  import opened SwitchSpec

  datatype Registers = Registers(cacheState: seq<nat>, rear: seq<nat>, front: seq<nat>, qlen: seq<nat>,
                                 ip: seq<nat>, port: seq<nat>, seqNo: seq<nat>, latency: seq<nat>)

  const INVALID: nat := 0
  const VALID: nat := 1

  /** The declared sizes: eight slots per cache index. */
  ghost predicate Laid(r: Registers) {
    && |r.cacheState| == |r.rear| == |r.front| == |r.qlen| == MAX_CACHE_SIZE
    && |r.ip| == |r.port| == |r.seqNo| == |r.latency| == MAX_CACHE_SIZE * MAX_QUEUE_SIZE_PER_KEY
  }

  /** The ring of index k: rear is front plus the length, modulo the capacity. */
  ghost predicate RingOk(r: Registers, k: nat)
    requires Laid(r) && k < MAX_CACHE_SIZE
  {
    && r.cacheState[k] <= VALID
    && r.front[k] < MAX_QUEUE_SIZE_PER_KEY
    && r.qlen[k] <= MAX_QUEUE_SIZE_PER_KEY
    && r.rear[k] == (r.front[k] + r.qlen[k]) % MAX_QUEUE_SIZE_PER_KEY
  }

  ghost predicate RegistersOk(r: Registers) {
    Laid(r) && forall k | 0 <= k < MAX_CACHE_SIZE :: RingOk(r, k)
  }

  function SlotIndex(k: nat, offset: nat): nat {
    k * MAX_QUEUE_SIZE_PER_KEY + offset
  }

  ghost function SlotAt(r: Registers, i: nat): Request
    requires Laid(r) && i < MAX_CACHE_SIZE * MAX_QUEUE_SIZE_PER_KEY
  {
    Request(r.ip[i], r.port[i], r.seqNo[i], r.latency[i])
  }

  /** The pending requests of index k, oldest first. */
  ghost function Queue(r: Registers, k: nat): seq<Request>
    requires Laid(r) && k < MAX_CACHE_SIZE
  {
    seq(r.qlen[k], j requires 0 <= j => SlotAt(r, SlotIndex(k, (r.front[k] + j) % MAX_QUEUE_SIZE_PER_KEY)))
  }

  ghost function View(r: Registers, k: nat): KeyState
    requires Laid(r) && k < MAX_CACHE_SIZE
  {
    KeyState(r.cacheState[k] == VALID, Queue(r, k))
  }

  /** What a pass may change at one slot and at the three pointers of one index. */
  ghost function Update(r: Registers, k: nat, rear: nat, front: nat, qlen: nat, offset: nat, q: Request): Registers
    requires Laid(r) && k < MAX_CACHE_SIZE && offset < MAX_QUEUE_SIZE_PER_KEY
  {
    var i := SlotIndex(k, offset);
    r.(rear := r.rear[k := rear], front := r.front[k := front], qlen := r.qlen[k := qlen],
       ip := r.ip[i := q.ip], port := r.port[i := q.port], seqNo := r.seqNo[i := q.seq_], latency := r.latency[i := q.latency])
  }

  ghost function RingIndex(r: Registers, k: nat, j: nat): (i: nat)
    requires Laid(r) && k < MAX_CACHE_SIZE
    ensures i < MAX_CACHE_SIZE * MAX_QUEUE_SIZE_PER_KEY
    ensures i / MAX_QUEUE_SIZE_PER_KEY == k
  {
    SlotIndex(k, (r.front[k] + j) % MAX_QUEUE_SIZE_PER_KEY)
  }

  lemma QueueAt(r: Registers, k: nat, j: nat)
    requires Laid(r) && k < MAX_CACHE_SIZE && j < r.qlen[k]
    ensures |Queue(r, k)| == r.qlen[k] && Queue(r, k)[j] == SlotAt(r, RingIndex(r, k, j))
  {
  }

  /** Within one ring, different distances from the front are different slots. */
  lemma RingDistinct(r: Registers, k: nat, i: nat, j: nat)
    requires Laid(r) && k < MAX_CACHE_SIZE && i < j < MAX_QUEUE_SIZE_PER_KEY
    ensures RingIndex(r, k, i) != RingIndex(r, k, j)
  {
  }

  ghost function Admitted(r: Registers, k: nat, q: Request): Registers
    requires RegistersOk(r) && k < MAX_CACHE_SIZE
  {
    assert RingOk(r, k);
    Update(r, k, (r.rear[k] + 1) % MAX_QUEUE_SIZE_PER_KEY, r.front[k], r.qlen[k] + 1, r.rear[k], q)
  }

  ghost function Served(r: Registers, k: nat): Registers
    requires RegistersOk(r) && k < MAX_CACHE_SIZE && r.qlen[k] > 0
  {
    assert RingOk(r, k);
    Update(r, k, r.rear[k], (r.front[k] + 1) % MAX_QUEUE_SIZE_PER_KEY, r.qlen[k] - 1, r.front[k], Request(0, 0, 0, 0))
  }

  /** The slot the front pointer of index k stands at. */
  ghost function FrontSlot(r: Registers, k: nat): Request
    requires RegistersOk(r) && k < MAX_CACHE_SIZE
  {
    assert RingOk(r, k);
    SlotAt(r, SlotIndex(k, r.front[k]))
  }

  /** The slots of different keys are disjoint. */
  lemma UpdateElsewhere(r: Registers, k: nat, rear: nat, front: nat, qlen: nat, offset: nat, q: Request, l: nat)
    requires Laid(r) && k < MAX_CACHE_SIZE && offset < MAX_QUEUE_SIZE_PER_KEY && l < MAX_CACHE_SIZE && l != k
    ensures var r' := Update(r, k, rear, front, qlen, offset, q);
            && View(r', l) == View(r, l)
            && (RingOk(r', l) <==> RingOk(r, l))
  {
    var r' := Update(r, k, rear, front, qlen, offset, q);
    forall j | 0 <= j < r.qlen[l] ensures Queue(r', l)[j] == Queue(r, l)[j] {
      QueueAt(r, l, j);
      QueueAt(r', l, j);
      assert SlotIndex(k, offset) / MAX_QUEUE_SIZE_PER_KEY == k;
      assert RingIndex(r, l, j) == RingIndex(r', l, j) != SlotIndex(k, offset);
    }
    assert Queue(r', l) == Queue(r, l);
  }

  /** The pointers around index k after an update, the other keys being untouched. */
  lemma UpdateRings(r: Registers, k: nat, rear: nat, front: nat, qlen: nat, offset: nat, q: Request)
    requires RegistersOk(r) && k < MAX_CACHE_SIZE && offset < MAX_QUEUE_SIZE_PER_KEY
    requires front < MAX_QUEUE_SIZE_PER_KEY && qlen <= MAX_QUEUE_SIZE_PER_KEY
    requires rear == (front + qlen) % MAX_QUEUE_SIZE_PER_KEY
    ensures var r' := Update(r, k, rear, front, qlen, offset, q);
            && RegistersOk(r')
            && forall l | 0 <= l < MAX_CACHE_SIZE && l != k :: View(r', l) == View(r, l)
  {
    hide View;
    var r' := Update(r, k, rear, front, qlen, offset, q);
    forall l | 0 <= l < MAX_CACHE_SIZE ensures RingOk(r', l) && (l != k ==> View(r', l) == View(r, l)) {
      assert RingOk(r, l);
      if l != k {
        UpdateElsewhere(r, k, rear, front, qlen, offset, q, l);
      }
    }
  }

  /** Filling the rear slot appends to the queue. */
  lemma AdmittedAppends(r: Registers, k: nat, q: Request)
    requires RegistersOk(r) && k < MAX_CACHE_SIZE && r.qlen[k] < MAX_QUEUE_SIZE_PER_KEY
    ensures var r' := Admitted(r, k, q);
            && RegistersOk(r')
            && View(r', k) == View(r, k).(queue := Queue(r, k) + [q])
            && forall l | 0 <= l < MAX_CACHE_SIZE && l != k :: View(r', l) == View(r, l)
  {
    hide Queue;
    assert RingOk(r, k);
    var r' := Admitted(r, k, q);
    var n := r.qlen[k];
    UpdateRings(r, k, (r.rear[k] + 1) % MAX_QUEUE_SIZE_PER_KEY, r.front[k], n + 1, r.rear[k], q);
    forall j | 0 <= j < n ensures |Queue(r', k)| == n + 1 && |Queue(r, k)| == n && Queue(r', k)[j] == Queue(r, k)[j] {
      QueueAt(r, k, j);
      QueueAt(r', k, j);
      RingDistinct(r, k, j, n);
    }
    QueueAt(r', k, n);
    QueueLength(r, k);
    assert Queue(r', k) == Queue(r, k) + [q];
  }

  /** Clearing the front slot takes the oldest request off the queue. */
  lemma ServedTakes(r: Registers, k: nat)
    requires RegistersOk(r) && k < MAX_CACHE_SIZE && r.qlen[k] > 0
    ensures Queue(r, k) != [] && Queue(r, k)[0] == FrontSlot(r, k)
    ensures var r' := Served(r, k);
            && RegistersOk(r')
            && View(r', k) == View(r, k).(queue := Queue(r, k)[1..])
            && forall l | 0 <= l < MAX_CACHE_SIZE && l != k :: View(r', l) == View(r, l)
  {
    hide Queue;
    assert RingOk(r, k);
    var r' := Served(r, k);
    var n := r.qlen[k];
    UpdateRings(r, k, r.rear[k], (r.front[k] + 1) % MAX_QUEUE_SIZE_PER_KEY, n - 1, r.front[k], Request(0, 0, 0, 0));
    QueueAt(r, k, 0);
    QueueLength(r', k);
    forall j | 0 <= j < n - 1 ensures Queue(r', k)[j] == Queue(r, k)[j + 1] {
      QueueAt(r, k, j + 1);
      QueueAt(r', k, j);
      RingDistinct(r, k, 0, j + 1);
    }
    assert Queue(r', k) == Queue(r, k)[1..];
  }

  lemma QueueLength(r: Registers, k: nat)
    requires Laid(r) && k < MAX_CACHE_SIZE
    ensures |Queue(r, k)| == r.qlen[k]
  {
  }

  lemma FlagKeepsQueues(r: Registers, k: nat, state: nat)
    requires RegistersOk(r) && k < MAX_CACHE_SIZE && state <= VALID
    ensures var r' := r.(cacheState := r.cacheState[k := state]);
            && RegistersOk(r')
            && View(r', k) == View(r, k).(valid := state == VALID)
            && forall l | 0 <= l < MAX_CACHE_SIZE && l != k :: View(r', l) == View(r, l)
  {
    var r' := r.(cacheState := r.cacheState[k := state]);
    forall l | 0 <= l < MAX_CACHE_SIZE ensures RingOk(r', l) && Queue(r', l) == Queue(r, l) {
      assert RingOk(r, l);
      QueueLength(r, l);
      QueueLength(r', l);
      forall j | 0 <= j < r.qlen[l] ensures Queue(r', l)[j] == Queue(r, l)[j] {
        QueueAt(r, l, j);
        QueueAt(r', l, j);
      }
    }
  }

  /** The cache indexes that the lookup table gives out. */
  ghost predicate Indexes(lookup: map<nat, nat>) {
    && (forall key | key in lookup :: lookup[key] < MAX_CACHE_SIZE)
    && (forall a, b | a in lookup && b in lookup && lookup[a] == lookup[b] :: a == b)
  }

  ghost function SetState(r: Registers, k: nat, state: nat): Registers
    requires Laid(r) && k < MAX_CACHE_SIZE
  {
    r.(cacheState := r.cacheState[k := state])
  }

  /** What a pass does to the registers of all keys, and to the packet. */
  ghost function PassRegisters(r: Registers, lookup: map<nat, nat>, p: Packet, fromOrbit: bool): (Registers, Fate)
    requires RegistersOk(r) && Indexes(lookup)
  {
    if p.key !in lookup then (r, PassUncached(p, fromOrbit))
    else
      var k := lookup[p.key];
      var valid := r.cacheState[k] == VALID;
      if fromOrbit then
        var q := p.(op := ReadReply);
        if !valid then (r, Dropped)
        else if r.qlen[k] == 0 then (r, Recirculated(q))
        else (Served(r, k), Cloned(Answer(q, FrontSlot(r, k))))
      else match p.op
        case Read =>
          if !valid then (r, Forwarded(p))
          else if r.qlen[k] == MAX_QUEUE_SIZE_PER_KEY then (r, Forwarded(p.(cached := MISSED)))
          else (Admitted(r, k, RequestOf(p)), Dropped)
        case Write => (SetState(r, k, INVALID), Forwarded(p.(flag := FETCHING)))
        case WriteReply => (SetState(r, k, VALID), Cloned(p))
        case FetchReply => (SetState(r, k, VALID), Cloned(p))
        case _ => (r, Forwarded(p))
  }

  /** The registers of all keys are as many independent queues. */
  lemma PassRegistersView(r: Registers, lookup: map<nat, nat>, p: Packet, fromOrbit: bool)
    requires RegistersOk(r) && Indexes(lookup)
    ensures var (r', fate) := PassRegisters(r, lookup, p, fromOrbit);
            && RegistersOk(r')
            && (if p.key in lookup
                then (View(r', lookup[p.key]), fate) == PassCached(View(r, lookup[p.key]), p, fromOrbit)
                else r' == r && fate == PassUncached(p, fromOrbit))
            && forall key | key in lookup && key != p.key :: View(r', lookup[key]) == View(r, lookup[key])
  {
    hide Queue, Served, Admitted, FrontSlot;
    if p.key in lookup {
      var k := lookup[p.key];
      assert RingOk(r, k);
      QueueLength(r, k);
      FlagKeepsQueues(r, k, INVALID);
      FlagKeepsQueues(r, k, VALID);
      if r.qlen[k] > 0 {
        ServedTakes(r, k);
      }
      if r.qlen[k] < MAX_QUEUE_SIZE_PER_KEY {
        AdmittedAppends(r, k, RequestOf(p));
      }
    }
  }
}
