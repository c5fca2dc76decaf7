/** The ingress of orbitcache.p4 over its register arrays, proved against SwitchSpec. */
module Switch {
  import opened SwitchSpec
  import opened RequestTable

  class SwitchIngress {
    /** cacheLookup_table: the cache index of every cached key. */
    const cacheLookup: map<nat, nat>
    const cacheState: array<nat>
    const ptrRear: array<nat>
    const ptrFront: array<nat>
    const qlen: array<nat>
    const clientIP: array<nat>
    const udpPort: array<nat>
    const seqNo: array<nat>
    const latency: array<nat>

    ghost function Arrays(): set<object> {
      {cacheState, ptrRear, ptrFront, qlen, clientIP, udpPort, seqNo, latency}
    }

    ghost function Regs(): Registers
      reads Arrays()
    {
      Registers(cacheState[..], ptrRear[..], ptrFront[..], qlen[..], clientIP[..], udpPort[..], seqNo[..], latency[..])
    }

    ghost predicate Distinct() {
      && cacheState != ptrRear && cacheState != ptrFront && cacheState != qlen
      && ptrRear != ptrFront && ptrRear != qlen && ptrFront != qlen
      && clientIP != udpPort && clientIP != seqNo && clientIP != latency
      && udpPort != seqNo && udpPort != latency && seqNo != latency
    }

    ghost predicate Valid()
      reads Arrays()
    {
      Distinct() && RegistersOk(Regs()) && Indexes(cacheLookup)
    }

    /** The state of a cached key: its flag, and its pending requests oldest first. */
    ghost function StateOf(key: nat): KeyState
      reads Arrays()
      requires Valid() && key in cacheLookup
    {
      View(Regs(), cacheLookup[key])
    }

    /** A switch after the controller cleared every register: no key is valid. */
    constructor (cacheLookup: map<nat, nat>)
      requires Indexes(cacheLookup)
      ensures Valid() && this.cacheLookup == cacheLookup && fresh(Arrays())
      ensures forall key | key in cacheLookup :: StateOf(key) == KeyState(false, [])
    {
      this.cacheLookup := cacheLookup;
      cacheState := new nat[MAX_CACHE_SIZE](_ => INVALID);
      ptrRear := new nat[MAX_CACHE_SIZE](_ => 0);
      ptrFront := new nat[MAX_CACHE_SIZE](_ => 0);
      qlen := new nat[MAX_CACHE_SIZE](_ => 0);
      clientIP := new nat[MAX_CACHE_SIZE * MAX_QUEUE_SIZE_PER_KEY](_ => 0);
      udpPort := new nat[MAX_CACHE_SIZE * MAX_QUEUE_SIZE_PER_KEY](_ => 0);
      seqNo := new nat[MAX_CACHE_SIZE * MAX_QUEUE_SIZE_PER_KEY](_ => 0);
      latency := new nat[MAX_CACHE_SIZE * MAX_QUEUE_SIZE_PER_KEY](_ => 0);
      new;
      forall k | 0 <= k < MAX_CACHE_SIZE ensures RingOk(Regs(), k) && View(Regs(), k) == KeyState(false, []) {
        QueueLength(Regs(), k);
      }
    }

    /** Register action on qlen: zero means the table of the key is full. */
    method IncrQlen(k: nat) returns (r: nat)
      requires k < qlen.Length
      modifies qlen
      ensures r == (if old(qlen[k]) == MAX_QUEUE_SIZE_PER_KEY then 0 else old(qlen[k]) + 1)
      ensures qlen[..] == if r == 0 then old(qlen[..]) else old(qlen[..])[k := r]
    {
      if qlen[k] == MAX_QUEUE_SIZE_PER_KEY {
        r := 0;
      } else {
        qlen[k] := qlen[k] + 1;
        r := qlen[k];
      }
    }

    /** Register action on qlen: returns the length before. */
    method DecrQlen(k: nat) returns (r: nat)
      requires k < qlen.Length
      modifies qlen
      ensures r == old(qlen[k])
      ensures qlen[..] == if r > 0 then old(qlen[..])[k := r - 1] else old(qlen[..])
    {
      r := qlen[k];
      if qlen[k] > 0 {
        qlen[k] := qlen[k] - 1;
      }
    }

    /** Register action on ptr_rear or ptr_front: returns the pointer and advances it around the ring. */
    method IncrPointer(pointer: array<nat>, k: nat) returns (r: nat)
      requires k < pointer.Length && pointer[k] < MAX_QUEUE_SIZE_PER_KEY
      modifies pointer
      ensures r == old(pointer[k])
      ensures pointer[..] == old(pointer[..])[k := (r + 1) % MAX_QUEUE_SIZE_PER_KEY]
    {
      r := pointer[k];
      if pointer[k] == MAX_QUEUE_SIZE_PER_KEY - 1 {
        pointer[k] := 0;
      } else {
        pointer[k] := pointer[k] + 1;
      }
    }

    /** The four update actions on one slot of the request table. */
    method PutSlot(i: nat, p: Packet)
      requires Distinct() && i < clientIP.Length == udpPort.Length == seqNo.Length == latency.Length
      modifies clientIP, udpPort, seqNo, latency
      ensures clientIP[..] == old(clientIP[..])[i := p.srcIp] && udpPort[..] == old(udpPort[..])[i := p.srcPort]
      ensures seqNo[..] == old(seqNo[..])[i := p.seq_] && latency[..] == old(latency[..])[i := p.latency]
    {
      clientIP[i] := p.srcIp;
      udpPort[i] := p.srcPort;
      seqNo[i] := p.seq_;
      latency[i] := p.latency;
    }

    /** The four get actions: the slot is read into the header and cleared. */
    method TakeSlot(i: nat, p: Packet) returns (answer: Packet)
      requires Distinct() && i < clientIP.Length == udpPort.Length == seqNo.Length == latency.Length
      modifies clientIP, udpPort, seqNo, latency
      ensures answer == old(Answer(p, Request(clientIP[i], udpPort[i], seqNo[i], latency[i])))
      ensures clientIP[..] == old(clientIP[..])[i := 0] && udpPort[..] == old(udpPort[..])[i := 0]
      ensures seqNo[..] == old(seqNo[..])[i := 0] && latency[..] == old(latency[..])[i := 0]
    {
      answer := p.(dstIp := clientIP[i]);
      clientIP[i] := 0;
      answer := answer.(dstPort := udpPort[i]);
      udpPort[i] := 0;
      answer := answer.(seq_ := seqNo[i]);
      seqNo[i] := 0;
      answer := answer.(latency := latency[i]);
      latency[i] := 0;
    }

    /** The read branch of a valid key: claims a slot and fills it, or finds the table full. */
    method Admit(k: nat, p: Packet) returns (admitted: bool)
      requires Distinct() && RegistersOk(Regs()) && k < MAX_CACHE_SIZE
      modifies ptrRear, qlen, clientIP, udpPort, seqNo, latency
      ensures admitted == (old(qlen[k]) < MAX_QUEUE_SIZE_PER_KEY)
      ensures Regs() == if admitted then old(Admitted(Regs(), k, RequestOf(p))) else old(Regs())
    {
      assert RingOk(Regs(), k);
      var qlen' := IncrQlen(k);
      admitted := qlen' > 0;
      if admitted {
        var offset := IncrPointer(ptrRear, k);
        PutSlot(k * 8 + offset, p);
        assert ptrFront[..] == ptrFront[..][k := ptrFront[k]];
      }
    }

    /** The serving branch: frees the oldest slot into the header. */
    method Serve(k: nat, p: Packet) returns (served: bool, answer: Packet)
      requires Distinct() && RegistersOk(Regs()) && k < MAX_CACHE_SIZE
      modifies ptrFront, qlen, clientIP, udpPort, seqNo, latency
      ensures served == (old(qlen[k]) > 0)
      ensures answer == if served then Answer(p, old(FrontSlot(Regs(), k))) else p
      ensures Regs() == if served then old(Served(Regs(), k)) else old(Regs())
    {
      assert RingOk(Regs(), k);
      var before := DecrQlen(k);
      served := before > 0;
      answer := p;
      if served {
        var offset := IncrPointer(ptrFront, k);
        answer := TakeSlot(k * 8 + offset, p);
        assert ptrRear[..] == ptrRear[..][k := ptrRear[k]];
      }
    }

    /** Register actions on cacheState. */
    method WriteState(k: nat, state: nat)
      requires Distinct() && RegistersOk(Regs()) && k < MAX_CACHE_SIZE && state <= VALID
      modifies cacheState
      ensures Regs() == SetState(old(Regs()), k, state)
    {
      cacheState[k] := state;
    }

    /** One pass through the ingress, over the registers of all keys. */
    method Apply(p: Packet, fromOrbit: bool) returns (fate: Fate)
      requires Valid()
      modifies Arrays()
      ensures (Regs(), fate) == PassRegisters(old(Regs()), cacheLookup, p, fromOrbit)
    {
      hide RegistersOk, Admitted, Served, FrontSlot, SetState;
      var isCached := p.key in cacheLookup;
      var cacheIdx := if isCached then cacheLookup[p.key] else 0;
      LaidOut();
      var hdr := if p.op != ReadReply && fromOrbit then p.(op := ReadReply) else p;
      if hdr.op == Correction || hdr.op == Fetch {
        fate := Forwarded(hdr);
      } else if hdr.op == Read || hdr.op == ReadReply {
        var state := if isCached then cacheState[cacheIdx] else INVALID;
        if hdr.op == Read {
          if state == VALID {
            var admitted := Admit(cacheIdx, hdr);
            fate := if admitted then Dropped else Forwarded(hdr.(cached := MISSED));
          } else {
            fate := Forwarded(hdr);
          }
        } else if fromOrbit {
          if state == VALID {
            var served, answer := Serve(cacheIdx, hdr);
            fate := if served then Cloned(answer) else Recirculated(hdr);
          } else {
            fate := Dropped;
          }
        } else {
          fate := Forwarded(hdr);
        }
      } else if hdr.op == Write {
        if isCached {
          WriteState(cacheIdx, INVALID);
          hdr := hdr.(flag := FETCHING);
        }
        fate := Forwarded(hdr);
      } else if hdr.op == WriteReply || hdr.op == FetchReply {
        if isCached {
          WriteState(cacheIdx, VALID);
          fate := Cloned(hdr);
        } else {
          fate := Forwarded(hdr);
        }
      } else {
        fate := Forwarded(hdr);
      }
    }

    lemma LaidOut()
      requires Valid()
      ensures Laid(Regs()) && forall k | 0 <= k < MAX_CACHE_SIZE :: Regs().qlen[k] <= MAX_QUEUE_SIZE_PER_KEY
    {
      forall k | 0 <= k < MAX_CACHE_SIZE ensures Regs().qlen[k] <= MAX_QUEUE_SIZE_PER_KEY {
        assert RingOk(Regs(), k);
      }
    }

    /**
     * The same pass, seen from outside: what it does to the queue and the flag of the packet's key, and where the
     * packet goes.  No other key is touched.
     */
    method Ingress(p: Packet, fromOrbit: bool) returns (fate: Fate)
      requires Valid()
      modifies Arrays()
      ensures Valid()
      ensures (Regs(), fate) == PassRegisters(old(Regs()), cacheLookup, p, fromOrbit)
      ensures p.key !in cacheLookup ==>
                Regs() == old(Regs()) && fate == if fromOrbit then Dropped else Forwarded(p)
      ensures p.key in cacheLookup && !fromOrbit && p.op == Read ==>
                var ks := old(StateOf(p.key));
                if ks.valid && |ks.queue| < 8 then
                  && StateOf(p.key) == KeyState(true, ks.queue + [Request(p.srcIp, p.srcPort, p.seq_, p.latency)])
                  && fate == Dropped
                else
                  StateOf(p.key) == ks && fate == Forwarded(if ks.valid then p.(cached := MISSED) else p)
      ensures p.key in cacheLookup && !fromOrbit && p.op == Write ==>
                StateOf(p.key) == KeyState(false, old(StateOf(p.key)).queue) && fate == Forwarded(p.(flag := FETCHING))
      ensures p.key in cacheLookup && !fromOrbit && (p.op == WriteReply || p.op == FetchReply) ==>
                StateOf(p.key) == KeyState(true, old(StateOf(p.key)).queue) && fate == Cloned(p)
      ensures p.key in cacheLookup && !fromOrbit && p.op !in {Read, Write, WriteReply, FetchReply} ==>
                StateOf(p.key) == old(StateOf(p.key)) && fate == Forwarded(p)
      ensures p.key in cacheLookup && fromOrbit ==>
                var ks, q := old(StateOf(p.key)), p.(op := ReadReply);
                if !ks.valid then StateOf(p.key) == ks && fate == Dropped
                else if ks.queue == [] then StateOf(p.key) == ks && fate == Recirculated(q)
                else
                  var r := ks.queue[0];
                  && StateOf(p.key) == KeyState(true, ks.queue[1..])
                  && fate == Cloned(q.(dstIp := r.ip, dstPort := r.port, seq_ := r.seq_, latency := r.latency))
      ensures forall key | key in cacheLookup && key != p.key :: StateOf(key) == old(StateOf(key))
    {
      hide RegistersOk, View, PassRegisters;
      PassRegistersView(Regs(), cacheLookup, p, fromOrbit);
      fate := Apply(p, fromOrbit);
    }
  }
}
