/**
 * The protocol around one cached key: its switch state, the packets in orbit, the messages in
 * flight and the storage server.  A value is the number of writes the server had applied when it
 * produced it.  Every step is an arbitrary pass or delivery, so a run covers every interleaving.
 */
module OrbitProtocol {
  import opened SwitchSpec

  /** A message between switch and server, the client's packet behind it, and the server's version when that passed. */
  datatype Message = Message(p: Packet, client: Packet, born: nat)

  /** A read in the request table, and the server's version when it passed. */
  datatype Admission = Admission(client: Packet, born: nat)

  /** A reply handed to a client: the versions at the request, in the reply, and at the delivery. */
  datatype Delivery = Delivery(p: Packet, client: Packet, born: nat, current: nat)

  datatype World = World(
    ks: KeyState,
    orbit: multiset<Packet>,
    toServer: multiset<Message>,
    fromServer: multiset<Message>,
    store: nat,
    // what has happened so far
    arrived: nat,
    missed: nat,
    admitted: seq<Admission>,
    served: seq<Delivery>,
    direct: seq<Delivery>,
    accepted: nat,
    discarded: nat)

  /** A cleared switch: the key is not valid and nothing is in flight. */
  const START: World := World(KeyState(false, []), multiset{}, multiset{}, multiset{}, 0, 0, 0, [], [], [], 0, 0)

  datatype Action =
    | Arrive(p: Packet)      // a client's or the controller's packet reaches the switch
    | AtServer(m: Message)   // the server takes a message and answers it
    | Return(m: Message)     // an answer of the server reaches the switch
    | Seed(p: Packet)        // the preloader's write reply reaches the switch
    | Circle(c: Packet)      // a cache packet passes the ingress

  predicate IsRequest(op: Op) {
    op == Read || op == Write || op == Fetch || op == Correction
  }

  predicate IsUpdate(op: Op) {
    op == Write || op == WriteReply || op == Fetch || op == FetchReply
  }

  predicate Enabled(w: World, a: Action) {
    match a
    case Arrive(p) => IsRequest(p.op)
    case AtServer(m) => m in w.toServer
    case Return(m) => m in w.fromServer
    case Seed(p) => p.op == WriteReply
    case Circle(c) => c in w.orbit
  }

  /** The server answers to the source address; a write reply echoes the value it stored. */
  function ServerReply(p: Packet, store: nat): Packet {
    var q := p.(srcIp := p.dstIp, srcPort := p.dstPort, dstIp := p.srcIp, dstPort := p.srcPort);
    match p.op
    case Write => q.(op := WriteReply, value := store + 1)
    case Fetch => q.(op := FetchReply, value := store)
    case _ => q.(op := ReadReply, value := store)
  }

  /** What becomes of a client's packet, given what the pass did to the key and to the packet. */
  function EffectArrive(w: World, p: Packet, ks: KeyState, fate: Fate): World {
    var w' := w.(ks := ks, arrived := if p.op == Read then w.arrived + 1 else w.arrived);
    match fate
    case Dropped => w'.(admitted := w.admitted + [Admission(p, w.store)])
    case Forwarded(q) => w'.(toServer := w.toServer + multiset{Message(q, p, w.store)},
                             missed := if p.op == Read then w.missed + 1 else w.missed)
    case _ => w'
  }

  function StepArrive(w: World, p: Packet): World {
    var (ks, fate) := PassCached(w.ks, p, false);
    EffectArrive(w, p, ks, fate)
  }

  function StepAtServer(w: World, m: Message): World {
    w.(toServer := w.toServer - multiset{m},
       store := if m.p.op == Write then w.store + 1 else w.store,
       fromServer := w.fromServer + multiset{m.(p := ServerReply(m.p, w.store))})
  }

  function EffectReply(w: World, m: Message, ks: KeyState, fate: Fate): World {
    match fate
    case Forwarded(q) => w.(ks := ks, direct := w.direct + [Delivery(q, m.client, m.born, w.store)])
    case Cloned(q) => w.(ks := ks, orbit := w.orbit + multiset{q}, accepted := w.accepted + 1)
    case _ => w.(ks := ks)
  }

  function StepReply(w: World, m: Message): World {
    var (ks, fate) := PassCached(w.ks, m.p, false);
    EffectReply(w, m, ks, fate)
  }

  function EffectCircle(w: World, c: Packet, ks: KeyState, fate: Fate): World {
    var w' := w.(ks := ks, orbit := w.orbit - multiset{c});
    match fate
    case Dropped => w'.(discarded := w.discarded + 1)
    case Recirculated(q) => w'.(orbit := w.orbit - multiset{c} + multiset{q})
    case Cloned(q) =>
      var asked := if |w.served| < |w.admitted| then w.admitted[|w.served|] else Admission(c, 0);
      w'.(orbit := w.orbit - multiset{c} + multiset{q},
          served := w.served + [Delivery(q, asked.client, asked.born, w.store)])
    case Forwarded(_) => w'
  }

  function StepCircle(w: World, c: Packet): World {
    var (ks, fate) := PassCached(w.ks, c, true);
    EffectCircle(w, c, ks, fate)
  }

  function Step(w: World, a: Action): World {
    match a
    case Arrive(p) => StepArrive(w, p)
    case AtServer(m) => StepAtServer(w, m)
    case Return(m) => StepReply(w.(fromServer := w.fromServer - multiset{m}), m)
    case Seed(p) => StepReply(w, Message(p, p, w.store))
    case Circle(c) => StepCircle(w, c)
  }

  /** Every action of the run is enabled when its turn comes. */
  predicate Runs(w: World, run: seq<Action>)
    decreases |run|
  {
    run == [] || (Enabled(w, run[0]) && Runs(Step(w, run[0]), run[1..]))
  }

  function After(w: World, run: seq<Action>): World
    decreases |run|
  {
    if run == [] then w else After(Step(w, run[0]), run[1..])
  }

  // ---- conservation: no discipline is assumed ----

  /** Admitted reads leave in the order they came, each with an answer to its own sender, or still wait. */
  ghost predicate FifoOk(w: World) {
    && |w.served| + |w.ks.queue| == |w.admitted|
    && |w.ks.queue| <= MAX_QUEUE_SIZE_PER_KEY
    && (forall i | 0 <= i < |w.admitted| :: w.admitted[i].client.op == Read)
    && (forall i | 0 <= i < |w.served| ::
          var (p, client) := (w.served[i].p, w.admitted[i].client);
          && w.served[i].client == client && p.op == ReadReply
          && p.dstIp == client.srcIp && p.dstPort == client.srcPort && p.seq_ == client.seq_ && p.latency == client.latency)
    && (forall j | 0 <= j < |w.ks.queue| ::
          var client := w.admitted[|w.served| + j].client;
          w.ks.queue[j] == Request(client.srcIp, client.srcPort, client.seq_, client.latency))
  }

  predicate IsReply(op: Op) {
    op == ReadReply || op == WriteReply || op == FetchReply
  }

  ghost predicate MessagesOk(w: World) {
    && (forall m | m in w.toServer :: IsRequest(m.p.op))
    && (forall m | m in w.fromServer :: IsReply(m.p.op))
  }

  /** Reads are queued or forwarded, and packets in orbit are the accepted ones not discarded. */
  ghost predicate Conserved(w: World) {
    && MessagesOk(w) && FifoOk(w)
    && w.arrived == |w.admitted| + w.missed
    && w.accepted == |w.orbit| + w.discarded
  }

  lemma ArriveFifo(w: World, p: Packet)
    requires IsRequest(p.op) && FifoOk(w)
    ensures FifoOk(StepArrive(w, p))
  {
  }

  lemma ArriveConserves(w: World, p: Packet)
    requires IsRequest(p.op) && Conserved(w)
    ensures Conserved(StepArrive(w, p))
  {
    hide FifoOk;
    ArriveFifo(w, p);
  }

  lemma ReplyConserves(w: World, m: Message)
    requires IsReply(m.p.op) && Conserved(w)
    ensures Conserved(StepReply(w, m))
  {
  }

  lemma CircleFifo(w: World, c: Packet)
    requires FifoOk(w)
    ensures FifoOk(StepCircle(w, c))
  {
    var w' := StepCircle(w, c);
    forall j | 0 <= j < |w'.ks.queue|
      ensures var client := w'.admitted[|w'.served| + j].client;
              w'.ks.queue[j] == Request(client.srcIp, client.srcPort, client.seq_, client.latency)
    {
      if |w'.served| > |w.served| {
        assert w'.ks.queue[j] == w.ks.queue[j + 1];
      }
    }
  }

  lemma CircleConserves(w: World, c: Packet)
    requires c in w.orbit && Conserved(w)
    ensures Conserved(StepCircle(w, c))
  {
    hide FifoOk;
    CircleFifo(w, c);
  }

  lemma ServerConserves(w: World, m: Message)
    requires m in w.toServer && Conserved(w)
    ensures Conserved(StepAtServer(w, m))
  {
  }

  lemma TakenConserves(w: World, m: Message)
    requires m in w.fromServer && Conserved(w)
    ensures Conserved(w.(fromServer := w.fromServer - multiset{m})) && IsReply(m.p.op)
  {
  }

  lemma StepConserves(w: World, a: Action)
    requires Enabled(w, a) && Conserved(w)
    ensures Conserved(Step(w, a))
  {
    hide Conserved;
    match a
    case Arrive(p) => ArriveConserves(w, p);
    case AtServer(m) => ServerConserves(w, m);
    case Return(m) =>
      TakenConserves(w, m);
      ReplyConserves(w.(fromServer := w.fromServer - multiset{m}), m);
    case Seed(p) => ReplyConserves(w, Message(p, p, w.store));
    case Circle(c) => CircleConserves(w, c);
  }

  lemma {:induction false} RunConserves(w: World, run: seq<Action>)
    requires Runs(w, run) && Conserved(w)
    ensures Conserved(After(w, run))
    decreases |run|
  {
    if run != [] {
      StepConserves(w, run[0]);
      RunConserves(Step(w, run[0]), run[1..]);
    }
  }

  /** How many cache packets pass while the key is valid. */
  function ValidPasses(w: World, run: seq<Action>): nat
    decreases |run|
  {
    if run == [] then 0
    else (if run[0].Circle? && w.ks.valid then 1 else 0) + ValidPasses(Step(w, run[0]), run[1..])
  }

  lemma CircleHistory(w: World, c: Packet)
    requires FifoOk(w)
    ensures StepCircle(w, c).admitted == w.admitted && w.served <= StepCircle(w, c).served
    ensures |StepCircle(w, c).served| == |w.served| + if w.ks.valid && |w.served| < |w.admitted| then 1 else 0
  {
  }

  lemma StepHistory(w: World, a: Action)
    requires Enabled(w, a) && Conserved(w)
    ensures w.admitted <= Step(w, a).admitted && w.served <= Step(w, a).served
    ensures |Step(w, a).served| == |w.served| +
            if a.Circle? && w.ks.valid && |w.served| < |w.admitted| then 1 else 0
  {
    hide FifoOk, MessagesOk;
    if a.Circle? {
      CircleHistory(w, a.c);
    }
  }

  /**
   * A read that finds q requests ahead of it is answered by the (q+1)-st valid pass after it: not
   * before, and then by a reply with its own address, port, sequence number and latency stamp.
   */
  lemma {:induction false} AnsweredInTurn(w: World, run: seq<Action>, i: nat)
    requires Runs(w, run) && Conserved(w) && |w.served| <= i < |w.admitted|
    ensures var w' := After(w, run);
            && i < |w'.admitted| && w'.admitted[i] == w.admitted[i]
            && (i < |w'.served| <==> i - |w.served| < ValidPasses(w, run))
            && (i < |w'.served| ==>
                  var (p, client) := (w'.served[i].p, w.admitted[i].client);
                  && p.op == ReadReply && p.dstIp == client.srcIp && p.dstPort == client.srcPort
                  && p.seq_ == client.seq_ && p.latency == client.latency)
    decreases |run|
  {
    if run != [] {
      var w1 := Step(w, run[0]);
      StepConserves(w, run[0]);
      StepHistory(w, run[0]);
      if |w1.served| <= i {
        AnsweredInTurn(w1, run[1..], i);
      } else {
        RunHistory(w1, run[1..]);
        RunConserves(w1, run[1..]);
      }
    }
  }

  lemma {:induction false} RunHistory(w: World, run: seq<Action>)
    requires Runs(w, run) && Conserved(w)
    ensures w.admitted <= After(w, run).admitted && w.served <= After(w, run).served
    decreases |run|
  {
    if run != [] {
      StepConserves(w, run[0]);
      StepHistory(w, run[0]);
      RunHistory(Step(w, run[0]), run[1..]);
    }
  }

  /** A read of a valid key with room in its table: the pass that its place decides answers its own sender. */
  lemma ReadAnswered(w: World, p: Packet, run: seq<Action>)
    requires Conserved(w) && p.op == Read && w.ks.valid && |w.ks.queue| < 8
    requires Runs(Step(w, Arrive(p)), run)
    ensures var w', n := After(Step(w, Arrive(p)), run), |w.admitted|;
            && (n < |w'.served| <==> |w.ks.queue| < ValidPasses(Step(w, Arrive(p)), run))
            && (n < |w'.served| ==>
                  var q := w'.served[n].p;
                  && q.op == ReadReply && q.dstIp == p.srcIp && q.dstPort == p.srcPort
                  && q.seq_ == p.seq_ && q.latency == p.latency)
  {
    var w1 := Step(w, Arrive(p));
    assert w1.admitted == w.admitted + [Admission(p, w.store)] && w1.served == w.served;
    StepConserves(w, Arrive(p));
    AnsweredInTurn(w1, run, |w.admitted|);
  }

  /** A request goes into the table, or to the server with its address, its key and what it asks for. */
  lemma RequestGoesOn(w: World, p: Packet)
    requires IsRequest(p.op)
    ensures var w', waits := Step(w, Arrive(p)), p.op == Read && w.ks.valid && |w.ks.queue| < 8;
            && (waits ==> w'.admitted == w.admitted + [Admission(p, w.store)] && w'.toServer == w.toServer)
            && (!waits ==> w'.admitted == w.admitted && w'.ks.queue == w.ks.queue
                           && exists q :: w'.toServer == w.toServer + multiset{Message(q, p, w.store)}
                                          && q == p.(cached := q.cached, flag := q.flag))
  {
    var fate := PassCached(w.ks, p, false).1;
    if fate.Forwarded? {
      assert fate.p == p.(cached := fate.p.cached, flag := fate.p.flag);
      assert Step(w, Arrive(p)).toServer == w.toServer + multiset{Message(fate.p, p, w.store)};
    }
  }

  // ---- nothing is lost between clients and server, and replies go to those who asked ----

  /** What has come in and is waiting, under way, or answered. */
  function Accounted(w: World): nat {
    |w.admitted| + |w.toServer| + |w.fromServer| + |w.direct| + w.accepted
  }

  /** How many packets come in from outside. */
  function Entering(run: seq<Action>): nat {
    if run == [] then 0 else (if run[0].Arrive? || run[0].Seed? then 1 else 0) + Entering(run[1..])
  }

  lemma ReturnAccounts(w: World, m: Message)
    requires m in w.fromServer && IsReply(m.p.op)
    ensures Accounted(Step(w, Return(m))) == Accounted(w)
  {
    hide Step;
    if m.p.op == ReadReply {
      ReadReturns(w, m);
    } else {
      UpdateReturns(w, m);
    }
  }

  lemma ArriveAccounts(w: World, p: Packet)
    requires IsRequest(p.op)
    ensures Accounted(Step(w, Arrive(p))) == Accounted(w) + 1
  {
    hide Step;
    RequestGoesOn(w, p);
    ArriveElsewhere(w, p);
  }

  lemma ArriveElsewhere(w: World, p: Packet)
    requires IsRequest(p.op)
    ensures var w' := Step(w, Arrive(p));
            w'.fromServer == w.fromServer && w'.direct == w.direct && w'.accepted == w.accepted
  {
  }

  lemma StepAccounts(w: World, a: Action)
    requires Enabled(w, a) && MessagesOk(w)
    ensures Accounted(Step(w, a)) == Accounted(w) + if a.Arrive? || a.Seed? then 1 else 0
  {
    match a
    case Arrive(p) =>
      hide Step;
      ArriveAccounts(w, p);
    case Return(m) =>
      hide Step;
      ReturnAccounts(w, m);
    case AtServer(m) =>
    case Seed(p) =>
    case Circle(c) =>
  }

  /** Every packet that enters is in the table, on its way to or from the server, or delivered, and once only. */
  lemma {:induction false} RunAccounts(w: World, run: seq<Action>)
    requires Runs(w, run) && Conserved(w)
    ensures var w' := After(w, run);
            |w'.admitted| + |w'.toServer| + |w'.fromServer| + |w'.direct| + w'.accepted == Accounted(w) + Entering(run)
    decreases |run|
  {
    hide Step, Conserved, Enabled;
    if run != [] {
      SoundMessages(w);
      StepConserves(w, run[0]);
      StepAccounts(w, run[0]);
      RunAccounts(Step(w, run[0]), run[1..]);
    }
  }

  ghost predicate Asks(p: Packet, client: Packet) {
    && p.op == client.op && p.key == client.key && p.seq_ == client.seq_ && p.latency == client.latency
    && p.srcIp == client.srcIp && p.srcPort == client.srcPort && p.dstIp == client.dstIp && p.dstPort == client.dstPort
  }

  /** The reply is of the kind asked for, and goes from where the client sent to where the client is. */
  ghost predicate Answers(p: Packet, client: Packet) {
    && (p.op == WriteReply <==> client.op == Write) && (p.op == FetchReply <==> client.op == Fetch)
    && p.key == client.key && p.seq_ == client.seq_ && p.latency == client.latency
    && p.dstIp == client.srcIp && p.dstPort == client.srcPort && p.srcIp == client.dstIp && p.srcPort == client.dstPort
  }

  ghost predicate AnswersOk(w: World) {
    && (forall m | m in w.toServer :: Asks(m.p, m.client))
    && (forall m | m in w.fromServer :: Answers(m.p, m.client))
    && (forall i | 0 <= i < |w.direct| :: Answers(w.direct[i].p, w.direct[i].client))
  }

  lemma ArriveAnswers(w: World, p: Packet)
    requires IsRequest(p.op) && AnswersOk(w)
    ensures AnswersOk(StepArrive(w, p))
  {
    var w', fate := StepArrive(w, p), PassCached(w.ks, p, false).1;
    if fate.Forwarded? {
      assert Asks(fate.p, p);
      assert forall m | m in w'.toServer :: m in w.toServer || m == Message(fate.p, p, w.store);
    }
  }

  lemma ServerAnswers(w: World, m: Message)
    requires m in w.toServer && IsRequest(m.p.op) && AnswersOk(w)
    ensures AnswersOk(StepAtServer(w, m))
  {
    var w', reply := StepAtServer(w, m), m.(p := ServerReply(m.p, w.store));
    assert Asks(m.p, m.client) && Answers(reply.p, m.client);
    assert forall n | n in w'.fromServer :: n in w.fromServer || n == reply;
    assert forall n | n in w'.toServer :: n in w.toServer;
  }

  lemma ReplyAnswers(w: World, m: Message)
    requires IsReply(m.p.op) && AnswersOk(w) && (m.p.op == ReadReply ==> Answers(m.p, m.client))
    ensures AnswersOk(StepReply(w, m))
  {
  }

  lemma TakenAnswers(w: World, m: Message)
    requires m in w.fromServer && AnswersOk(w)
    ensures Answers(m.p, m.client) && AnswersOk(w.(fromServer := w.fromServer - multiset{m}))
  {
    hide Answers, Asks;
    assert forall n | n in w.fromServer - multiset{m} :: n in w.fromServer;
  }

  lemma CircleAnswers(w: World, c: Packet)
    requires AnswersOk(w)
    ensures AnswersOk(StepCircle(w, c))
  {
    hide Answers, Asks;
  }

  lemma StepAnswers(w: World, a: Action)
    requires Enabled(w, a) && MessagesOk(w) && AnswersOk(w)
    ensures AnswersOk(Step(w, a))
  {
    hide AnswersOk, Answers, StepArrive, StepAtServer, StepReply, StepCircle;
    match a
    case Arrive(p) => ArriveAnswers(w, p);
    case AtServer(m) => ServerAnswers(w, m);
    case Return(m) =>
      TakenAnswers(w, m);
      ReplyAnswers(w.(fromServer := w.fromServer - multiset{m}), m);
    case Seed(p) => ReplyAnswers(w, Message(p, p, w.store));
    case Circle(c) => CircleAnswers(w, c);
  }

  lemma {:induction false} RunAnswers(w: World, run: seq<Action>)
    requires Runs(w, run) && Conserved(w) && AnswersOk(w)
    ensures AnswersOk(After(w, run))
    decreases |run|
  {
    hide Step, Conserved, AnswersOk, Enabled;
    if run != [] {
      SoundMessages(w);
      StepConserves(w, run[0]);
      StepAnswers(w, run[0]);
      RunAnswers(Step(w, run[0]), run[1..]);
    }
  }

  /** In every run from the start, a reply on its way, and a reply delivered, is addressed to the client that asked. */
  lemma RepliesAddressed(run: seq<Action>)
    requires Runs(START, run)
    ensures forall m | m in After(START, run).fromServer ::
              && m.p.dstIp == m.client.srcIp && m.p.dstPort == m.client.srcPort && m.p.key == m.client.key
              && m.p.seq_ == m.client.seq_ && m.p.latency == m.client.latency
              && (m.p.op == if m.client.op == Write then WriteReply
                            else if m.client.op == Fetch then FetchReply else ReadReply)
    ensures forall i | 0 <= i < |After(START, run).direct| ::
              var d := After(START, run).direct[i];
              && d.p.dstIp == d.client.srcIp && d.p.dstPort == d.client.srcPort && d.p.key == d.client.key
              && d.p.seq_ == d.client.seq_ && d.p.latency == d.client.latency
  {
    hide After;
    RunConserves(START, run);
    RunAnswers(START, run);
  }

  /** The switch hands a reply to its client as it is, whether or not a copy of it goes into orbit. */
  lemma ReplyPasses(ks: KeyState, p: Packet)
    requires IsReply(p.op)
    ensures var (ks', fate) := PassCached(ks, p, false);
            && fate == (if p.op == ReadReply then Forwarded(p) else Cloned(p))
            && ks' == (if p.op == ReadReply then ks else KeyState(true, ks.queue))
  {
  }

  // ---- reads are current at some moment between request and reply ----

  /** The version of a reply was the server's version at some moment after the request passed. */
  ghost predicate Timely(d: Delivery) {
    d.born <= d.p.value <= d.current
  }

  ghost predicate VersionsOk(w: World) {
    && (forall m | m in w.toServer :: m.born <= w.store)
    && (forall m | m in w.fromServer :: m.p.op == ReadReply ==> m.born <= m.p.value <= w.store)
    && (forall i | 0 <= i < |w.direct| :: w.direct[i].p.op == ReadReply ==> Timely(w.direct[i]))
    && (forall i | 0 <= i < |w.admitted| :: w.admitted[i].born <= w.store)
  }

  /** Replies forwarded from the server are timely in every run, whatever the surroundings do. */
  lemma {:induction false} RunTimely(w: World, run: seq<Action>)
    requires Runs(w, run) && Conserved(w) && VersionsOk(w)
    ensures VersionsOk(After(w, run))
    decreases |run|
  {
    if run != [] {
      StepConserves(w, run[0]);
      SoundMessages(w);
      StepVersions(w, run[0]);
      RunTimely(Step(w, run[0]), run[1..]);
    }
  }

  // ---- coherence: what the switch needs from its surroundings ----

  ghost predicate NoUpdates(ms: multiset<Message>) {
    forall m | m in ms :: !IsUpdate(m.p.op)
  }

  ghost predicate OneUpdate(ms: multiset<Message>) {
    exists m | m in ms :: IsUpdate(m.p.op) && NoUpdates(ms - multiset{m})
  }

  /**
   * One update of the key at a time: a write or fetch starts only when none is in flight, and a
   * fetch or a seed only for a key that is not being served; a seed carries the server's version.
   */
  ghost predicate OneAtATime(w: World, a: Action) {
    match a
    case Arrive(p) => IsUpdate(p.op) ==>
      NoUpdates(w.toServer) && NoUpdates(w.fromServer) && (p.op == Fetch ==> !w.ks.valid && w.orbit == multiset{})
    case Seed(p) =>
      NoUpdates(w.toServer) && NoUpdates(w.fromServer) && !w.ks.valid && w.orbit == multiset{} && p.value == w.store
    case _ => true
  }

  /** The cache packets of the key have all passed before the update's reply does. */
  ghost predicate Drained(w: World, a: Action) {
    a.Return? && IsUpdate(a.m.p.op) ==> w.orbit == multiset{}
  }

  /** A valid key has exactly one packet in orbit, and it carries the server's version. */
  ghost predicate Coherent(w: World) {
    w.ks.valid ==> exists c :: w.orbit == multiset{c} && c.value == w.store
  }

  /** At most one update is in flight; its reply carries the server's version; old packets are older. */
  ghost predicate UpdatesOk(w: World) {
    && (NoUpdates(w.fromServer) || (OneUpdate(w.fromServer) && NoUpdates(w.toServer)))
    && (NoUpdates(w.toServer) || OneUpdate(w.toServer))
    && (w.ks.valid ==> NoUpdates(w.toServer) && NoUpdates(w.fromServer))
    && (forall m | m in w.fromServer && IsUpdate(m.p.op) :: m.p.value == w.store)
    && (forall c | c in w.orbit :: c.value <= w.store)
    && (forall m, c | m in w.fromServer && m.p.op == WriteReply && c in w.orbit :: c.value < w.store)
  }

  /** Every answer given from orbit carried the version the server had at that moment. */
  ghost predicate ServedCurrent(w: World) {
    forall i | 0 <= i < |w.served| :: Timely(w.served[i]) && w.served[i].p.value == w.served[i].current
  }

  ghost predicate Sound(w: World) {
    Conserved(w) && VersionsOk(w) && UpdatesOk(w) && Coherent(w) && ServedCurrent(w)
  }

  lemma ServerVersions(w: World, m: Message)
    requires m in w.toServer && VersionsOk(w)
    ensures VersionsOk(StepAtServer(w, m))
  {
  }

  lemma ReplyVersions(w: World, m: Message)
    requires IsReply(m.p.op) && VersionsOk(w) && (m.p.op == ReadReply ==> m.born <= m.p.value <= w.store)
    ensures VersionsOk(StepReply(w, m))
  {
  }

  lemma ArriveVersions(w: World, p: Packet)
    requires IsRequest(p.op) && VersionsOk(w)
    ensures VersionsOk(StepArrive(w, p))
  {
  }

  lemma CircleVersions(w: World, c: Packet)
    requires VersionsOk(w)
    ensures VersionsOk(StepCircle(w, c))
  {
  }

  lemma TakenVersions(w: World, m: Message)
    requires m in w.fromServer && VersionsOk(w)
    ensures VersionsOk(w.(fromServer := w.fromServer - multiset{m}))
    ensures m.p.op == ReadReply ==> m.born <= m.p.value <= w.store
  {
  }

  lemma StepVersions(w: World, a: Action)
    requires Enabled(w, a) && MessagesOk(w) && VersionsOk(w)
    ensures VersionsOk(Step(w, a))
  {
    hide VersionsOk;
    match a
    case Arrive(p) => ArriveVersions(w, p);
    case AtServer(m) => ServerVersions(w, m);
    case Return(m) =>
      TakenVersions(w, m);
      ReplyVersions(w.(fromServer := w.fromServer - multiset{m}), m);
    case Seed(p) => ReplyVersions(w, Message(p, p, w.store));
    case Circle(c) => CircleVersions(w, c);
  }

  lemma TheUpdate(ms: multiset<Message>, m: Message)
    requires OneUpdate(ms) && m in ms && IsUpdate(m.p.op)
    ensures NoUpdates(ms - multiset{m})
  {
    var m0 :| m0 in ms && IsUpdate(m0.p.op) && NoUpdates(ms - multiset{m0});
    assert m != m0 ==> m in ms - multiset{m0};
  }

  lemma AddUpdate(ms: multiset<Message>, m: Message)
    requires NoUpdates(ms)
    ensures if IsUpdate(m.p.op) then OneUpdate(ms + multiset{m}) else NoUpdates(ms + multiset{m})
  {
    assert ms + multiset{m} - multiset{m} == ms;
    assert m in ms + multiset{m};
  }

  lemma AddOther(ms: multiset<Message>, m: Message)
    requires OneUpdate(ms) && !IsUpdate(m.p.op)
    ensures OneUpdate(ms + multiset{m})
  {
    var m0 :| m0 in ms && IsUpdate(m0.p.op) && NoUpdates(ms - multiset{m0});
    assert ms + multiset{m} - multiset{m0} == ms - multiset{m0} + multiset{m};
    assert m0 in ms + multiset{m};
  }

  lemma TakeOther(ms: multiset<Message>, m: Message)
    requires OneUpdate(ms) && m in ms && !IsUpdate(m.p.op)
    ensures OneUpdate(ms - multiset{m})
  {
    var m0 :| m0 in ms && IsUpdate(m0.p.op) && NoUpdates(ms - multiset{m0});
    assert ms - multiset{m} - multiset{m0} == ms - multiset{m0} - multiset{m};
    assert m0 in ms - multiset{m};
  }

  lemma ArriveUpdate(w: World, p: Packet)
    requires p.op == Write || p.op == Fetch
    requires UpdatesOk(w) && OneAtATime(w, Arrive(p))
    ensures UpdatesOk(StepArrive(w, p)) && Coherent(StepArrive(w, p))
  {
    hide OneUpdate, NoUpdates;
    var (ks, fate) := PassCached(w.ks, p, false);
    AddUpdate(w.toServer, Message(fate.p, p, w.store));
  }

  lemma ArriveOther(w: World, p: Packet)
    requires p.op == Read || p.op == Correction
    requires UpdatesOk(w) && Coherent(w)
    ensures UpdatesOk(StepArrive(w, p)) && Coherent(StepArrive(w, p))
  {
    hide OneUpdate, NoUpdates;
    var (ks, fate) := PassCached(w.ks, p, false);
    if fate.Forwarded? {
      if NoUpdates(w.toServer) {
        AddUpdate(w.toServer, Message(fate.p, p, w.store));
      } else {
        AddOther(w.toServer, Message(fate.p, p, w.store));
      }
    }
  }

  /** The server answers an update: it was the only one, and its reply is now the only one. */
  lemma ServerUpdate(w: World, m: Message)
    requires m in w.toServer && UpdatesOk(w) && Coherent(w) && IsUpdate(m.p.op) && MessagesOk(w)
    ensures UpdatesOk(StepAtServer(w, m)) && Coherent(StepAtServer(w, m))
  {
    hide OneUpdate, NoUpdates;
    UpdateAtServer(w, m);
    TheUpdate(w.toServer, m);
    AddUpdate(w.fromServer, m.(p := ServerReply(m.p, w.store)));
  }

  lemma UpdateAtServer(w: World, m: Message)
    requires UpdatesOk(w) && m in w.toServer && IsUpdate(m.p.op)
    ensures OneUpdate(w.toServer) && NoUpdates(w.fromServer) && !w.ks.valid
    ensures forall n | n in w.fromServer :: !IsUpdate(n.p.op)
  {
  }

  lemma FewerUpdates(ms: multiset<Message>, m: Message)
    ensures NoUpdates(ms) ==> NoUpdates(ms - multiset{m})
  {
  }

  lemma ServerOther(w: World, m: Message)
    requires m in w.toServer && UpdatesOk(w) && Coherent(w) && !IsUpdate(m.p.op) && MessagesOk(w)
    ensures UpdatesOk(StepAtServer(w, m)) && Coherent(StepAtServer(w, m))
  {
    hide OneUpdate, NoUpdates;
    FewerUpdates(w.toServer, m);
    var reply := m.(p := ServerReply(m.p, w.store));
    if !NoUpdates(w.toServer) {
      TakeOther(w.toServer, m);
    }
    if NoUpdates(w.fromServer) {
      AddUpdate(w.fromServer, reply);
    } else {
      AddOther(w.fromServer, reply);
    }
  }

  lemma UpdateReturns(w: World, m: Message)
    requires m.p.op == WriteReply || m.p.op == FetchReply
    ensures Step(w, Return(m)) == w.(ks := w.ks.(valid := true), fromServer := w.fromServer - multiset{m},
                                     orbit := w.orbit + multiset{m.p}, accepted := w.accepted + 1)
  {
  }

  lemma ReadReturns(w: World, m: Message)
    requires m.p.op == ReadReply
    ensures Step(w, Return(m)) == w.(fromServer := w.fromServer - multiset{m},
                                     direct := w.direct + [Delivery(m.p, m.client, m.born, w.store)])
  {
  }

  lemma ReturnUpdate(w: World, m: Message)
    requires m in w.fromServer && UpdatesOk(w) && IsUpdate(m.p.op) && IsReply(m.p.op) && w.orbit == multiset{}
    ensures UpdatesOk(Step(w, Return(m))) && Coherent(Step(w, Return(m)))
  {
    hide OneUpdate, Step;
    assert OneUpdate(w.fromServer) && NoUpdates(w.toServer);
    UpdateReturns(w, m);
    TheUpdate(w.fromServer, m);
    assert Step(w, Return(m)).orbit == multiset{m.p};
  }

  lemma ReturnOther(w: World, m: Message)
    requires m in w.fromServer && UpdatesOk(w) && Coherent(w) && m.p.op == ReadReply
    ensures UpdatesOk(Step(w, Return(m))) && Coherent(Step(w, Return(m)))
  {
    hide OneUpdate, NoUpdates, Step;
    ReadReturns(w, m);
    FewerUpdates(w.fromServer, m);
    assert forall n | n in w.fromServer - multiset{m} :: n in w.fromServer;
    if !NoUpdates(w.fromServer) {
      TakeOther(w.fromServer, m);
    }
  }

  lemma SeedSound(w: World, p: Packet)
    requires Enabled(w, Seed(p)) && UpdatesOk(w) && OneAtATime(w, Seed(p))
    ensures UpdatesOk(Step(w, Seed(p))) && Coherent(Step(w, Seed(p)))
  {
    hide OneUpdate;
    var w' := Step(w, Seed(p));
    assert w' == w.(ks := w.ks.(valid := true), orbit := w.orbit + multiset{p}, accepted := w.accepted + 1);
    assert w'.orbit == multiset{p};
  }

  lemma ValidCircle(w: World, c: Packet)
    requires c in w.orbit && w.ks.valid && Coherent(w)
    ensures c.value == w.store
    ensures var w' := StepCircle(w, c);
            && (exists q :: w'.orbit == multiset{q} && q.value == w.store)
            && w'.ks.valid && w'.store == w.store && w'.toServer == w.toServer && w'.fromServer == w.fromServer
            && (w'.served == w.served || (w.ks.queue != [] && w'.served == w.served + [w'.served[|w.served|]]
                                          && w'.served[|w.served|].p.value == w'.served[|w.served|].current == w.store))
  {
    var c0 :| w.orbit == multiset{c0} && c0.value == w.store;
    assert c == c0 && w.orbit - multiset{c} == multiset{};
    var (ks, fate) := PassCached(w.ks, c, true);
    assert StepCircle(w, c).orbit == multiset{fate.p} && fate.p.value == w.store;
  }

  lemma InvalidCircle(w: World, c: Packet)
    requires !w.ks.valid
    ensures StepCircle(w, c) == w.(orbit := w.orbit - multiset{c}, discarded := w.discarded + 1)
  {
  }

  lemma CircleSound(w: World, c: Packet)
    requires c in w.orbit && UpdatesOk(w) && Coherent(w)
    ensures UpdatesOk(StepCircle(w, c)) && Coherent(StepCircle(w, c))
  {
    hide StepCircle, OneUpdate, NoUpdates;
    if w.ks.valid {
      ValidCircle(w, c);
      NoneToOverwrite(w.fromServer);
    } else {
      InvalidCircle(w, c);
    }
  }

  lemma NoneToOverwrite(ms: multiset<Message>)
    ensures NoUpdates(ms) ==> forall m | m in ms :: !IsUpdate(m.p.op)
  {
  }

  lemma NextAsked(w: World)
    requires FifoOk(w) && VersionsOk(w) && w.ks.queue != []
    ensures |w.served| < |w.admitted| && w.admitted[|w.served|].born <= w.store
  {
  }

  lemma CircleServes(w: World, c: Packet)
    requires c in w.orbit && FifoOk(w) && VersionsOk(w) && Coherent(w) && ServedCurrent(w)
    ensures ServedCurrent(StepCircle(w, c))
  {
    hide Coherent, FifoOk, VersionsOk;
    if w.ks.valid {
      ValidCircle(w, c);
      if w.ks.queue != [] {
        NextAsked(w);
      }
    }
  }

  lemma ServedElsewhere(w: World, a: Action)
    ensures !a.Circle? ==> Step(w, a).served == w.served
  {
  }

  lemma StepSound(w: World, a: Action)
    requires Enabled(w, a) && Sound(w) && OneAtATime(w, a) && Drained(w, a)
    ensures Sound(Step(w, a))
  {
    hide Conserved, VersionsOk, UpdatesOk, Coherent, StepArrive, StepAtServer, StepReply, StepCircle;
    StepConserves(w, a);
    SoundMessages(w);
    StepVersions(w, a);
    ServedElsewhere(w, a);
    match a
    case Arrive(p) => if IsUpdate(p.op) { ArriveUpdate(w, p); } else { ArriveOther(w, p); }
    case AtServer(m) => if IsUpdate(m.p.op) { ServerUpdate(w, m); } else { ServerOther(w, m); }
    case Return(m) => if IsUpdate(m.p.op) { ReturnUpdate(w, m); } else { ReturnOther(w, m); }
    case Seed(p) => SeedSound(w, p);
    case Circle(c) =>
      CircleSound(w, c);
      CircleServes(w, c);
  }

  lemma SoundMessages(w: World)
    requires Conserved(w)
    ensures MessagesOk(w) && FifoOk(w)
  {
  }

  /** The surroundings keep both rules throughout the run. */
  ghost predicate Disciplined(w: World, run: seq<Action>)
    decreases |run|
  {
    run == [] || (OneAtATime(w, run[0]) && Drained(w, run[0]) && Disciplined(Step(w, run[0]), run[1..]))
  }

  /**
   * Conditional coherence over all runs: a valid key has exactly one packet in orbit, with the
   * server's version, and every answer served from orbit was current when it was given.
   */
  lemma {:induction false} RunSound(w: World, run: seq<Action>)
    requires Runs(w, run) && Disciplined(w, run) && Sound(w)
    ensures Sound(After(w, run))
    decreases |run|
  {
    if run != [] {
      StepSound(w, run[0]);
      RunSound(Step(w, run[0]), run[1..]);
    }
  }

  lemma StartSound()
    ensures Sound(START)
  {
  }

  // ---- both rules are needed ----

  lemma Prepend(w: World, a: Action, rest: seq<Action>)
    requires Enabled(w, a) && Runs(Step(w, a), rest)
    ensures Runs(w, [a] + rest) && After(w, [a] + rest) == After(Step(w, a), rest)
    ensures OneAtATime(w, a) && Drained(w, a) && Disciplined(Step(w, a), rest) ==> Disciplined(w, [a] + rest)
    ensures Drained(w, a) && AlwaysDrained(Step(w, a), rest) ==> AlwaysDrained(w, [a] + rest)
  {
    assert ([a] + rest)[1..] == rest;
  }

  ghost predicate AlwaysDrained(w: World, run: seq<Action>)
    decreases |run|
  {
    run == [] || (Drained(w, run[0]) && AlwaysDrained(Step(w, run[0]), run[1..]))
  }

  lemma WriteArrives(w: World, p: Packet)
    requires p.op == Write
    ensures Step(w, Arrive(p)) == w.(ks := w.ks.(valid := false),
                                     toServer := w.toServer + multiset{Message(p.(flag := FETCHING), p, w.store)})
  {
  }

  lemma WriteServed(w: World, m: Message)
    requires m.p.op == Write
    ensures Step(w, AtServer(m)) == w.(toServer := w.toServer - multiset{m}, store := w.store + 1,
                                       fromServer := w.fromServer + multiset{m.(p := ServerReply(m.p, w.store))})
  {
  }

  lemma ReadWaits(w: World, p: Packet)
    requires p.op == Read && w.ks.valid && w.ks.queue == []
    ensures Step(w, Arrive(p)) == w.(ks := w.ks.(queue := [RequestOf(p)]), arrived := w.arrived + 1,
                                     admitted := w.admitted + [Admission(p, w.store)])
  {
    assert [] + [RequestOf(p)] == [RequestOf(p)];
  }

  lemma CacheServes(w: World, c: Packet)
    requires w.ks.valid && w.ks.queue != []
    ensures var w' := Step(w, Circle(c));
            |w'.served| == |w.served| + 1 && w'.store == w.store
            && w'.served[|w.served|].p.value == c.value && w'.served[|w.served|].current == w.store
  {
  }

  /**
   * Without draining the promise breaks: once the reply has passed before an old cache packet c,
   * the next pass of c answers a read with a version the server has already replaced.
   */
  lemma OldPacketServesStale(w: World, m: Message, c: Packet, r: Packet) returns (run: seq<Action>)
    requires UpdatesOk(w) && m in w.fromServer && m.p.op == WriteReply && c in w.orbit && r.op == Read
    ensures Runs(w, run) && run != [] && run[0] == Return(m) && Disciplined(Step(w, Return(m)), run[1..])
    ensures var w' := After(w, run);
            |w'.served| == |w.served| + 1 && w'.served[|w.served|].p.value < w'.served[|w.served|].current == w.store
  {
    assert c.value < w.store;
    hide Step, UpdatesOk;
    UpdateReturns(w, m);
    var w1 := Step(w, Return(m));
    var last := [Circle(c)];
    if w1.ks.queue == [] {
      ReadWaits(w1, r);
      var w2 := Step(w1, Arrive(r));
      CacheServes(w2, c);
      Prepend(w2, Circle(c), []);
      assert [Circle(c)] + [] == last;
      Prepend(w1, Arrive(r), last);
      run := [Return(m)] + ([Arrive(r)] + last);
      Prepend(w, Return(m), [Arrive(r)] + last);
    } else {
      CacheServes(w1, c);
      Prepend(w1, Circle(c), []);
      assert [Circle(c)] + [] == last;
      run := [Return(m)] + last;
      Prepend(w, Return(m), last);
    }
  }

  /** While the key is invalid every pass discards a packet: the orbit of an updated key drains. */
  lemma {:induction false} InvalidDrains(w: World) returns (run: seq<Action>)
    requires !w.ks.valid
    ensures Runs(w, run) && |run| == |w.orbit| && forall i | 0 <= i < |run| :: run[i].Circle?
    ensures After(w, run) == w.(orbit := multiset{}, discarded := w.discarded + |w.orbit|)
    decreases |w.orbit|
  {
    if w.orbit == multiset{} {
      run := [];
    } else {
      var c :| c in w.orbit;
      var rest := InvalidDrains(Step(w, Circle(c)));
      Prepend(w, Circle(c), rest);
      run := [Circle(c)] + rest;
    }
  }

  function Plain(op: Op, seq_: nat): Packet {
    Packet(op, 0, 0, seq_, 0, 0, 0, 0, 0, 0, 0)
  }

  /** A disciplined run from the start to the moment a write reply can overtake the seed packet. */
  lemma OvertakingRun() returns (w: World, m: Message, c: Packet, run: seq<Action>)
    ensures Runs(START, run) && After(START, run) == w && Disciplined(START, run)
    ensures Sound(w) && m in w.fromServer && m.p.op == WriteReply && c in w.orbit
  {
    c := Plain(WriteReply, 0);
    var p := Plain(Write, 1);
    var q := Message(p.(flag := FETCHING), p, 0);
    m := q.(p := ServerReply(q.p, 0));
    var w1 := START.(ks := KeyState(true, []), orbit := multiset{c}, accepted := 1);
    assert Step(START, Seed(c)) == w1 && OneAtATime(START, Seed(c));
    WriteArrives(w1, p);
    var w2 := Step(w1, Arrive(p));
    assert OneAtATime(w1, Arrive(p));
    hide Step;
    WriteServed(w2, q);
    w := Step(w2, AtServer(q));
    assert q in w2.toServer && m in w.fromServer && c in w.orbit;
    Prepend(w2, AtServer(q), []);
    run := [AtServer(q)] + [];
    Prepend(w1, Arrive(p), run);
    run := [Arrive(p)] + run;
    Prepend(START, Seed(c), run);
    run := [Seed(c)] + run;
    StartSound();
    RunSound(START, run);
  }

  /** Two writes in flight break the promise too, however well the orbit is drained. */
  lemma OverlappingWritesRun() returns (w: World, run: seq<Action>)
    ensures Runs(START, run) && After(START, run) == w && AlwaysDrained(START, run)
    ensures |w.served| == 1 && w.served[0].p.value < w.served[0].current
  {
    hide Step;
    var p1, p2, r := Plain(Write, 1), Plain(Write, 2), Plain(Read, 3);
    var q1, q2 := Message(p1.(flag := FETCHING), p1, 0), Message(p2.(flag := FETCHING), p2, 0);
    var m1 := q1.(p := ServerReply(q1.p, 0));
    WriteArrives(START, p1);
    var w1 := Step(START, Arrive(p1));
    WriteArrives(w1, p2);
    var w2 := Step(w1, Arrive(p2));
    WriteServed(w2, q1);
    var w3 := Step(w2, AtServer(q1));
    WriteServed(w3, q2);
    var w4 := Step(w3, AtServer(q2));
    UpdateReturns(w4, m1);
    var w5 := Step(w4, Return(m1));
    ReadWaits(w5, r);
    var w6 := Step(w5, Arrive(r));
    CacheServes(w6, m1.p);
    w := Step(w6, Circle(m1.p));
    Prepend(w6, Circle(m1.p), []);
    run := [Circle(m1.p)] + [];
    Prepend(w5, Arrive(r), run);
    run := [Arrive(r)] + run;
    assert w4.orbit == multiset{} && m1 in w4.fromServer;
    Prepend(w4, Return(m1), run);
    run := [Return(m1)] + run;
    Prepend(w3, AtServer(q2), run);
    run := [AtServer(q2)] + run;
    Prepend(w2, AtServer(q1), run);
    run := [AtServer(q1)] + run;
    Prepend(w1, Arrive(p2), run);
    run := [Arrive(p2)] + run;
    Prepend(START, Arrive(p1), run);
    run := [Arrive(p1)] + run;
  }
}
