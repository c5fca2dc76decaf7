/**
 * Exactly when reads of a key stay current: for every state of the protocol, with any number of
 * overlapping updates, the condition under which no run that starts no further update can answer
 * a read from orbit with a version the server has already replaced.
 */
module OrbitFreshness {
  import opened SwitchSpec
  import opened OrbitProtocol

  /** The action brings a new update of the key into the system. */
  predicate StartsUpdate(a: Action) {
    a.Seed? || (a.Arrive? && IsUpdate(a.p.op))
  }

  ghost predicate Quiet(run: seq<Action>) {
    forall i | 0 <= i < |run| :: !StartsUpdate(run[i])
  }

  /** Every answer served from orbit after the first n carried the version of its moment. */
  ghost predicate CurrentFrom(w: World, n: nat) {
    forall i | n <= i < |w.served| :: w.served[i].p.value == w.served[i].current
  }

  /** Whatever happens, short of a new update, reads are answered with the current version. */
  ghost predicate StaysCurrent(w: World) {
    forall run | Runs(w, run) && Quiet(run) :: CurrentFrom(After(w, run), |w.served|)
  }

  ghost predicate HasWrite(ms: multiset<Message>) {
    exists m | m in ms :: m.p.op == Write
  }

  ghost predicate AllCurrent(w: World) {
    && (forall c | c in w.orbit :: c.value == w.store)
    && (forall m | m in w.fromServer && IsUpdate(m.p.op) :: m.p.value == w.store)
  }

  /**
   * A write on its way to the server must be the only update in flight, and the orbit empty.  With no
   * such write, every packet in orbit and every reply in flight must carry the server's version,
   * unless the key is invalid and nothing in flight can make it valid.
   */
  ghost predicate Settled(w: World) {
    if HasWrite(w.toServer) then w.orbit == multiset{} && OneUpdate(w.toServer) && NoUpdates(w.fromServer)
    else w.ks.valid || !NoUpdates(w.toServer) || !NoUpdates(w.fromServer) ==> AllCurrent(w)
  }

  /** No packet carries a version that the server has not reached. */
  ghost predicate Bounded(w: World) {
    && (forall c | c in w.orbit :: c.value <= w.store)
    && (forall m | m in w.fromServer && IsUpdate(m.p.op) :: m.p.value <= w.store)
  }

  // ---- settled states stay settled ----

  lemma ArriveSettled(w: World, p: Packet)
    requires IsRequest(p.op) && !IsUpdate(p.op) && Settled(w)
    ensures Settled(StepArrive(w, p)) && StepArrive(w, p).served == w.served
  {
    hide OneUpdate, NoUpdates, AllCurrent;
    var (ks, fate) := PassCached(w.ks, p, false);
    assert ks.valid == w.ks.valid;
    if fate.Forwarded? {
      OtherAdded(w.toServer, Message(fate.p, p, w.store));
      SameCurrent(w, StepArrive(w, p));
    } else {
      SameCurrent(w, StepArrive(w, p));
    }
  }

  lemma SameCurrent(w: World, w': World)
    requires w'.orbit == w.orbit && w'.fromServer == w.fromServer && w'.store == w.store
    ensures AllCurrent(w') <==> AllCurrent(w)
  {
  }

  /** A message that is no update does not count. */
  lemma OtherAdded(ms: multiset<Message>, m: Message)
    requires !IsUpdate(m.p.op)
    ensures HasWrite(ms + multiset{m}) <==> HasWrite(ms)
    ensures NoUpdates(ms + multiset{m}) <==> NoUpdates(ms)
    ensures OneUpdate(ms) ==> OneUpdate(ms + multiset{m})
  {
    if OneUpdate(ms) {
      AddOther(ms, m);
    }
    hide OneUpdate;
    forall n ensures n in ms + multiset{m} <==> n in ms || n == m {
    }
  }

  lemma OtherTaken(ms: multiset<Message>, m: Message)
    requires !IsUpdate(m.p.op) && m in ms
    ensures HasWrite(ms - multiset{m}) <==> HasWrite(ms)
    ensures NoUpdates(ms - multiset{m}) <==> NoUpdates(ms)
    ensures OneUpdate(ms) ==> OneUpdate(ms - multiset{m})
  {
    if OneUpdate(ms) {
      TakeOther(ms, m);
    }
    hide OneUpdate;
    forall n | n != m ensures n in ms - multiset{m} <==> n in ms {
    }
  }

  /** With one update on its way to the server there is no second one. */
  lemma OnlyOne(ms: multiset<Message>, m: Message, n: Message)
    requires OneUpdate(ms) && m in ms && IsUpdate(m.p.op)
    requires n in ms - multiset{m}
    ensures !IsUpdate(n.p.op)
  {
    TheUpdate(ms, m);
  }

  lemma WriteServedSettled(w: World, m: Message)
    requires m in w.toServer && m.p.op == Write && Settled(w)
    ensures Settled(StepAtServer(w, m))
  {
    var w' := StepAtServer(w, m);
    TheUpdate(w.toServer, m);
    assert !HasWrite(w'.toServer);
    forall n | n in w'.fromServer && IsUpdate(n.p.op) ensures n.p.value == w'.store {
      assert n == m.(p := ServerReply(m.p, w.store)) || n in w.fromServer;
    }
  }

  lemma FetchServedSettled(w: World, m: Message)
    requires m in w.toServer && m.p.op == Fetch && Settled(w)
    ensures Settled(StepAtServer(w, m))
  {
    var w' := StepAtServer(w, m);
    if n :| n in w.toServer && n.p.op == Write {
      OnlyOne(w.toServer, n, m);
    }
    forall n | n in w'.fromServer && IsUpdate(n.p.op) ensures n.p.value == w'.store {
      assert n == m.(p := ServerReply(m.p, w.store)) || n in w.fromServer;
    }
  }

  lemma OtherServedSettled(w: World, m: Message)
    requires m in w.toServer && IsRequest(m.p.op) && !IsUpdate(m.p.op) && Settled(w)
    ensures Settled(StepAtServer(w, m))
  {
    hide OneUpdate, NoUpdates, HasWrite;
    var w', reply := StepAtServer(w, m), m.(p := ServerReply(m.p, w.store));
    OtherTaken(w.toServer, m);
    OtherAdded(w.fromServer, reply);
    forall n | n in w'.fromServer && IsUpdate(n.p.op) ensures n in w.fromServer {
      assert n == reply || n in w.fromServer;
    }
  }

  lemma ReturnSettled(w: World, m: Message)
    requires m in w.fromServer && IsReply(m.p.op) && Settled(w)
    ensures var w' := Step(w, Return(m)); Settled(w') && w'.served == w.served
  {
    hide OneUpdate, Step;
    var w' := Step(w, Return(m));
    if IsUpdate(m.p.op) {
      UpdateReturns(w, m);
      assert AllCurrent(w);
      hide NoUpdates;
      forall n | n in w'.fromServer ensures n in w.fromServer {
      }
    } else {
      ReadReturns(w, m);
      OtherTaken(w.fromServer, m);
      hide NoUpdates;
      forall n | n in w'.fromServer ensures n in w.fromServer {
      }
    }
  }

  lemma CircleSettled(w: World, c: Packet)
    requires c in w.orbit && Settled(w) && FifoOk(w)
    ensures Settled(StepCircle(w, c)) && CurrentFrom(StepCircle(w, c), |w.served|)
  {
    hide OneUpdate, NoUpdates;
    assert !HasWrite(w.toServer);
    var w' := StepCircle(w, c);
    var (ks, fate) := PassCached(w.ks, c, true);
    forall d | d in w'.orbit ensures d in w.orbit || (w.ks.valid && d.value == c.value) {
      if w.ks.valid {
        assert w'.orbit == w.orbit - multiset{c} + multiset{fate.p};
      }
    }
  }

  lemma StepSettled(w: World, a: Action)
    requires Enabled(w, a) && !StartsUpdate(a) && Conserved(w) && Settled(w)
    ensures Settled(Step(w, a)) && w.served <= Step(w, a).served && CurrentFrom(Step(w, a), |w.served|)
  {
    hide Settled, StepArrive, StepAtServer, StepReply, StepCircle;
    StepHistory(w, a);
    SoundMessages(w);
    match a
    case Arrive(p) => ArriveSettled(w, p);
    case AtServer(m) =>
      ServedElsewhere(w, a);
      if m.p.op == Write { WriteServedSettled(w, m); }
      else if m.p.op == Fetch { FetchServedSettled(w, m); }
      else { OtherServedSettled(w, m); }
    case Return(m) => ReturnSettled(w, m);
    case Circle(c) => CircleSettled(w, c);
  }

  lemma {:induction false} RunSettled(w: World, run: seq<Action>, n: nat)
    requires Runs(w, run) && Quiet(run) && Conserved(w) && Settled(w) && n <= |w.served| && CurrentFrom(w, n)
    ensures CurrentFrom(After(w, run), n)
    decreases |run|
  {
    hide Settled, Conserved, Step, Enabled, StartsUpdate;
    if run != [] {
      var w' := Step(w, run[0]);
      assert !StartsUpdate(run[0]);
      StepConserves(w, run[0]);
      StepSettled(w, run[0]);
      forall i | n <= i < |w'.served| ensures w'.served[i].p.value == w'.served[i].current {
        assert i < |w.served| ==> w'.served[i] == w.served[i];
      }
      RunSettled(w', run[1..], n);
    }
  }

  // ---- all other states have a run to a stale answer ----

  /** A run without new updates ends with an answer that is not current. */
  ghost predicate GoesStale(w: World, run: seq<Action>) {
    Runs(w, run) && Quiet(run) && !CurrentFrom(After(w, run), |w.served|)
  }

  lemma StaleLater(w: World, a: Action, rest: seq<Action>) returns (run: seq<Action>)
    requires Enabled(w, a) && !StartsUpdate(a) && GoesStale(Step(w, a), rest) && |Step(w, a).served| >= |w.served|
    ensures GoesStale(w, run)
  {
    hide Step;
    run := [a] + rest;
    Prepend(w, a, rest);
  }

  /** An old packet in the orbit of a valid key answers the next read. */
  lemma OrbitGoesStale(w: World, c: Packet) returns (run: seq<Action>)
    requires w.ks.valid && c in w.orbit && c.value != w.store
    ensures GoesStale(w, run)
  {
    hide Step;
    var r := Plain(Read, 0);
    if w.ks.queue == [] {
      ReadWaits(w, r);
      var w1 := Step(w, Arrive(r));
      CacheServes(w1, c);
      Prepend(w1, Circle(c), []);
      run := StaleLater(w, Arrive(r), [Circle(c)] + []);
    } else {
      CacheServes(w, c);
      Prepend(w, Circle(c), []);
      run := [Circle(c)] + [];
    }
  }

  /** An old reply in flight becomes an old packet of a valid key. */
  lemma ReplyGoesStale(w: World, m: Message) returns (run: seq<Action>)
    requires m in w.fromServer && IsReply(m.p.op) && IsUpdate(m.p.op) && m.p.value != w.store
    ensures GoesStale(w, run)
  {
    hide Step;
    UpdateReturns(w, m);
    run := OrbitGoesStale(Step(w, Return(m)), m.p);
    run := StaleLater(w, Return(m), run);
  }

  /** An old packet in orbit is revived by any update's reply. */
  lemma RevivedGoesStale(w: World, c: Packet, m: Message) returns (run: seq<Action>)
    requires c in w.orbit && c.value != w.store && m in w.fromServer && IsReply(m.p.op) && IsUpdate(m.p.op)
    ensures GoesStale(w, run)
  {
    hide Step;
    UpdateReturns(w, m);
    run := OrbitGoesStale(Step(w, Return(m)), c);
    run := StaleLater(w, Return(m), run);
  }

  /** The server's answer to an update: the version it carries is the server's. */
  lemma UpdateServed(w: World, m: Message)
    requires m in w.toServer && (m.p.op == Write || m.p.op == Fetch)
    ensures var w', reply := Step(w, AtServer(m)), m.(p := ServerReply(m.p, w.store));
            && w'.orbit == w.orbit && w'.ks == w.ks && w'.served == w.served
            && w'.store == (if m.p.op == Write then w.store + 1 else w.store)
            && w'.toServer == w.toServer - multiset{m} && w'.fromServer == w.fromServer + multiset{reply}
            && reply in w'.fromServer && IsReply(reply.p.op) && IsUpdate(reply.p.op) && reply.p.value == w'.store
  {
  }

  /** A write on its way makes whatever is in orbit old, and then brings it back. */
  lemma WriteOverOrbit(w: World, m: Message, c: Packet) returns (run: seq<Action>)
    requires m in w.toServer && m.p.op == Write && c in w.orbit && c.value <= w.store
    ensures GoesStale(w, run)
  {
    hide Step;
    UpdateServed(w, m);
    run := RevivedGoesStale(Step(w, AtServer(m)), c, m.(p := ServerReply(m.p, w.store)));
    run := StaleLater(w, AtServer(m), run);
  }

  /** A write on its way makes a reply in flight old. */
  lemma WriteOverReply(w: World, m: Message, n: Message) returns (run: seq<Action>)
    requires m in w.toServer && m.p.op == Write
    requires n in w.fromServer && IsReply(n.p.op) && IsUpdate(n.p.op) && n.p.value <= w.store
    ensures GoesStale(w, run)
  {
    hide Step;
    UpdateServed(w, m);
    run := ReplyGoesStale(Step(w, AtServer(m)), n);
    run := StaleLater(w, AtServer(m), run);
  }

  /** A write that follows another update to the server makes the reply to that one old. */
  lemma WriteOverUpdate(w: World, m: Message, n: Message) returns (run: seq<Action>)
    requires m in w.toServer && m.p.op == Write && n in w.toServer - multiset{m} && (n.p.op == Write || n.p.op == Fetch)
    ensures GoesStale(w, run)
  {
    hide Step;
    UpdateServed(w, n);
    assert m in w.toServer - multiset{n};
    run := WriteOverReply(Step(w, AtServer(n)), m, n.(p := ServerReply(n.p, w.store)));
    run := StaleLater(w, AtServer(n), run);
  }

  lemma SecondUpdate(ms: multiset<Message>, m: Message) returns (n: Message)
    requires m in ms && IsUpdate(m.p.op) && !OneUpdate(ms)
    ensures n in ms - multiset{m} && n in ms && IsUpdate(n.p.op)
  {
    n :| n in ms - multiset{m} && IsUpdate(n.p.op);
  }

  lemma WritingUnsettled(w: World) returns (run: seq<Action>)
    requires MessagesOk(w) && Bounded(w) && HasWrite(w.toServer) && !Settled(w)
    ensures GoesStale(w, run)
  {
    hide GoesStale, OneUpdate;
    var m :| m in w.toServer && m.p.op == Write;
    if w.orbit != multiset{} {
      var c :| c in w.orbit;
      run := WriteOverOrbit(w, m, c);
    } else if !NoUpdates(w.fromServer) {
      var n :| n in w.fromServer && IsUpdate(n.p.op);
      run := WriteOverReply(w, m, n);
    } else {
      var n := SecondUpdate(w.toServer, m);
      run := WriteOverUpdate(w, m, n);
    }
  }

  lemma WaitingUnsettled(w: World) returns (run: seq<Action>)
    requires MessagesOk(w) && !HasWrite(w.toServer) && !Settled(w)
    ensures GoesStale(w, run)
  {
    hide GoesStale, Step;
    if m :| m in w.fromServer && IsUpdate(m.p.op) && m.p.value != w.store {
      run := ReplyGoesStale(w, m);
    } else {
      var c :| c in w.orbit && c.value != w.store;
      if w.ks.valid {
        run := OrbitGoesStale(w, c);
      } else if m :| m in w.fromServer && IsUpdate(m.p.op) {
        run := RevivedGoesStale(w, c, m);
      } else {
        assert NoUpdates(w.fromServer);
        var m :| m in w.toServer && IsUpdate(m.p.op);
        UpdateServed(w, m);
        run := RevivedGoesStale(Step(w, AtServer(m)), c, m.(p := ServerReply(m.p, w.store)));
        run := StaleLater(w, AtServer(m), run);
      }
    }
  }

  /**
   * The exact condition, for every state and every number of overlapping updates: reads stay current
   * until the next update if and only if the state is settled.
   */
  lemma StaysCurrentIffSettled(w: World)
    requires Conserved(w) && Bounded(w)
    ensures StaysCurrent(w) <==> Settled(w)
  {
    hide Settled, Bounded, Step;
    SoundMessages(w);
    if Settled(w) {
      forall run | Runs(w, run) && Quiet(run) ensures CurrentFrom(After(w, run), |w.served|) {
        RunSettled(w, run, |w.served|);
      }
    } else if HasWrite(w.toServer) {
      var run := WritingUnsettled(w);
    } else {
      var run := WaitingUnsettled(w);
    }
  }

  // ---- every run is in the scope of that condition ----

  /** The preloader does not seed a version that the server has not reached. */
  ghost predicate HonestSeeds(w: World, run: seq<Action>)
    decreases |run|
  {
    run == [] || ((run[0].Seed? ==> run[0].p.value <= w.store) && HonestSeeds(Step(w, run[0]), run[1..]))
  }

  lemma ServerBounded(w: World, m: Message)
    requires m in w.toServer && IsRequest(m.p.op) && Bounded(w)
    ensures Bounded(StepAtServer(w, m))
  {
    var w', reply := StepAtServer(w, m), m.(p := ServerReply(m.p, w.store));
    assert forall n | n in w'.fromServer :: n in w.fromServer || n == reply;
  }

  lemma ReplyBounded(w: World, m: Message)
    requires IsReply(m.p.op) && (IsUpdate(m.p.op) ==> m.p.value <= w.store) && Bounded(w)
    ensures Bounded(StepReply(w, m))
  {
    var w' := StepReply(w, m);
    if IsUpdate(m.p.op) {
      assert w'.orbit == w.orbit + multiset{m.p};
      assert forall c | c in w'.orbit :: c in w.orbit || c == m.p;
    }
  }

  /** A pass of a packet changes nothing in flight, and its successor in orbit carries its version. */
  lemma CircleKeeps(w: World, c: Packet) returns (q: Packet)
    ensures var w' := StepCircle(w, c);
            && w'.fromServer == w.fromServer && w'.toServer == w.toServer && w'.store == w.store && w'.ks.valid == w.ks.valid
            && w'.orbit == w.orbit - multiset{c} + (if w.ks.valid then multiset{q} else multiset{}) && q.value == c.value
  {
    var (ks, fate) := PassCached(w.ks, c, true);
    q := if w.ks.valid then fate.p else c;
  }

  lemma CircleBounded(w: World, c: Packet)
    requires c in w.orbit && Bounded(w)
    ensures Bounded(StepCircle(w, c))
  {
    hide StepCircle;
    var q := CircleKeeps(w, c);
    assert forall d | d in StepCircle(w, c).orbit :: d in w.orbit || d == q;
  }

  lemma StepBounded(w: World, a: Action)
    requires Enabled(w, a) && MessagesOk(w) && Bounded(w) && (a.Seed? ==> a.p.value <= w.store)
    ensures Bounded(Step(w, a))
  {
    hide StepAtServer, StepReply, StepCircle;
    match a
    case Arrive(p) =>
    case AtServer(m) => ServerBounded(w, m);
    case Return(m) =>
      assert forall n | n in w.fromServer - multiset{m} :: n in w.fromServer;
      ReplyBounded(w.(fromServer := w.fromServer - multiset{m}), m);
    case Seed(p) => ReplyBounded(w, Message(p, p, w.store));
    case Circle(c) => CircleBounded(w, c);
  }

  lemma {:induction false} RunBounded(w: World, run: seq<Action>)
    requires Runs(w, run) && HonestSeeds(w, run) && Conserved(w) && Bounded(w)
    ensures Conserved(After(w, run)) && Bounded(After(w, run))
    decreases |run|
  {
    hide Conserved, Bounded, Step;
    if run != [] {
      SoundMessages(w);
      StepConserves(w, run[0]);
      StepBounded(w, run[0]);
      RunBounded(Step(w, run[0]), run[1..]);
    }
  }

  /** After any run from the start, with writes, fetches and seeds in any order, the condition decides. */
  lemma RunStaysCurrentIff(run: seq<Action>)
    requires Runs(START, run) && HonestSeeds(START, run)
    ensures StaysCurrent(After(START, run)) <==> Settled(After(START, run))
  {
    hide StaysCurrent, Settled, After;
    RunBounded(START, run);
    StaysCurrentIffSettled(After(START, run));
  }

  // ---- which of these states runs with overlapping writes can reach ----

  /** Seeds come as in the rule for one update at a time, there are no fetches, and writes come at any time. */
  ghost predicate WritesOverlap(w: World, a: Action) {
    && (a.Arrive? ==> a.p.op != Fetch)
    && (a.Seed? ==> OneAtATime(w, a))
  }

  ghost predicate RunsOverlapping(w: World, run: seq<Action>)
    decreases |run|
  {
    run == [] || (WritesOverlap(w, run[0]) && RunsOverlapping(Step(w, run[0]), run[1..]))
  }

  ghost predicate OnlyWrites(w: World) {
    && (forall m | m in w.toServer :: m.p.op != Fetch)
    && (forall m | m in w.fromServer :: m.p.op != FetchReply)
  }

  /** No two updates in flight, and no reply and packet in orbit, carry the same version. */
  ghost predicate DistinctVersions(w: World) {
    && (forall m | m in w.fromServer && IsUpdate(m.p.op) :: w.fromServer[m] == 1)
    && (forall m, n | m in w.fromServer && n in w.fromServer && IsUpdate(m.p.op) && IsUpdate(n.p.op) && m != n ::
          m.p.value != n.p.value)
    && (forall m, c | m in w.fromServer && IsUpdate(m.p.op) && c in w.orbit :: m.p.value != c.value)
  }

  ghost predicate CurrentReply(w: World) {
    exists m | m in w.fromServer :: IsUpdate(m.p.op) && m.p.value == w.store
  }

  ghost predicate CurrentOrbit(w: World) {
    w.ks.valid && exists c | c in w.orbit :: c.value == w.store
  }

  /** Where the server's version is: nowhere else to be found, in a write to come, in a reply, or in orbit. */
  ghost predicate LatestSomewhere(w: World) {
    NoUpdates(w.fromServer) || HasWrite(w.toServer) || CurrentReply(w) || CurrentOrbit(w)
  }

  ghost predicate VersionsApart(w: World) {
    Bounded(w) && OnlyWrites(w) && DistinctVersions(w)
  }

  ghost predicate Versioned(w: World) {
    VersionsApart(w) && LatestSomewhere(w)
  }

  /** The packet carries a version that is in orbit already. */
  ghost predicate OldVersion(w: World, c: Packet) {
    exists d | d in w.orbit :: d.value == c.value
  }

  /** Nothing new in flight: the versions stay apart. */
  lemma ApartKept(w: World, w': World)
    requires VersionsApart(w) && OnlyWrites(w') && w'.store == w.store
    requires forall m: Message | IsUpdate(m.p.op) :: w'.fromServer[m] <= w.fromServer[m]
    requires forall c | c in w'.orbit :: OldVersion(w, c)
    ensures VersionsApart(w')
  {
    forall m | m in w'.fromServer && IsUpdate(m.p.op) ensures m in w.fromServer && w'.fromServer[m] == 1 {
      assert w'.fromServer[m] > 0;
    }
    forall c | c in w'.orbit ensures c.value <= w.store {
      var d :| d in w.orbit && d.value == c.value;
    }
    forall m, c | m in w'.fromServer && IsUpdate(m.p.op) && c in w'.orbit ensures m.p.value != c.value {
      var d :| d in w.orbit && d.value == c.value;
    }
  }

  lemma ArriveVersioned(w: World, p: Packet)
    requires IsRequest(p.op) && p.op != Fetch && Versioned(w)
    ensures Versioned(StepArrive(w, p))
  {
    hide NoUpdates, HasWrite, Bounded, DistinctVersions;
    var w' := StepArrive(w, p);
    var (ks, fate) := PassCached(w.ks, p, false);
    assert w'.orbit == w.orbit && w'.fromServer == w.fromServer && w'.store == w.store;
    assert w'.ks.valid == (w.ks.valid && p.op != Write);
    if fate.Forwarded? {
      var m := Message(fate.p, p, w.store);
      assert w'.toServer == w.toServer + multiset{m} && m.p.op == p.op;
      ForwardKept(w, w', m);
    } else {
      assert w'.toServer == w.toServer && p.op != Write;
    }
    ApartKept(w, w');
  }

  lemma ForwardKept(w: World, w': World, m: Message)
    requires OnlyWrites(w) && m.p.op != Fetch && w'.toServer == w.toServer + multiset{m} && w'.fromServer == w.fromServer
    ensures OnlyWrites(w') && (HasWrite(w.toServer) || m.p.op == Write ==> HasWrite(w'.toServer))
  {
    assert forall n | n in w'.toServer :: n in w.toServer || n == m;
    assert m in w'.toServer;
    assert forall n | n in w.toServer :: n in w'.toServer;
  }

  lemma WriteServedApart(w: World, m: Message, w': World, reply: Message)
    requires m.p.op == Write && reply.p.op == WriteReply && reply.p.value == w.store + 1 && VersionsApart(w)
    requires w' == w.(toServer := w.toServer - multiset{m}, store := w.store + 1, fromServer := w.fromServer + multiset{reply})
    ensures VersionsApart(w')
  {
    hide Bounded, DistinctVersions;
    NewReplyBounded(w, reply, w');
    NewReplyDistinct(w, reply, w');
    assert forall n | n in w'.fromServer :: n in w.fromServer || n == reply;
    assert forall n | n in w'.toServer :: n in w.toServer;
  }

  lemma NewReplyBounded(w: World, m: Message, w': World)
    requires Bounded(w) && m.p.op == WriteReply && m.p.value == w.store + 1 == w'.store
    requires w'.fromServer == w.fromServer + multiset{m} && w'.orbit == w.orbit
    ensures Bounded(w') && m !in w.fromServer
  {
    assert forall n | n in w'.fromServer :: n in w.fromServer || n == m;
  }

  lemma NewReplyDistinct(w: World, m: Message, w': World)
    requires Bounded(w) && DistinctVersions(w) && m !in w.fromServer && m.p.value == w.store + 1
    requires w'.fromServer == w.fromServer + multiset{m} && w'.orbit == w.orbit
    ensures DistinctVersions(w')
  {
    NewReply(w.fromServer, m);
  }

  lemma NewReply(ms: multiset<Message>, m: Message)
    requires m !in ms
    ensures forall n | n in ms + multiset{m} ::
              if n == m then (ms + multiset{m})[n] == 1 else n in ms && (ms + multiset{m})[n] == ms[n]
    ensures m in ms + multiset{m}
  {
  }

  /** The version of a new write reply is greater than all others. */
  lemma WriteServedVersioned(w: World, m: Message)
    requires m in w.toServer && m.p.op == Write && Versioned(w)
    ensures Versioned(StepAtServer(w, m))
  {
    hide VersionsApart, NoUpdates, HasWrite;
    var w', reply := StepAtServer(w, m), m.(p := ServerReply(m.p, w.store));
    WriteServed(w, m);
    WriteServedApart(w, m, w', reply);
    assert reply in w'.fromServer && IsUpdate(reply.p.op) && reply.p.value == w'.store;
  }

  lemma OtherServedApart(w: World, m: Message)
    requires m in w.toServer && IsRequest(m.p.op) && !IsUpdate(m.p.op) && VersionsApart(w)
    ensures VersionsApart(StepAtServer(w, m))
  {
    hide Bounded, DistinctVersions;
    var w', reply := StepAtServer(w, m), m.(p := ServerReply(m.p, w.store));
    assert w' == w.(toServer := w.toServer - multiset{m}, fromServer := w.fromServer + multiset{reply});
    assert forall n | n in w'.fromServer :: n in w.fromServer || n == reply;
    assert forall n | n in w'.toServer :: n in w.toServer;
    forall n: Message | IsUpdate(n.p.op) ensures w'.fromServer[n] <= w.fromServer[n] {
      assert n != reply;
    }
    ApartKept(w, w');
  }

  lemma OtherServedVersioned(w: World, m: Message)
    requires m in w.toServer && IsRequest(m.p.op) && !IsUpdate(m.p.op) && Versioned(w)
    ensures Versioned(StepAtServer(w, m))
  {
    hide VersionsApart, NoUpdates, HasWrite;
    OtherServedApart(w, m);
    var w', reply := StepAtServer(w, m), m.(p := ServerReply(m.p, w.store));
    OtherTaken(w.toServer, m);
    OtherAdded(w.fromServer, reply);
    if CurrentReply(w) {
      var n :| n in w.fromServer && IsUpdate(n.p.op) && n.p.value == w.store;
      assert n in w'.fromServer;
    }
  }

  lemma UpdateReturnsApart(w: World, m: Message, w': World)
    requires m in w.fromServer && IsReply(m.p.op) && IsUpdate(m.p.op) && VersionsApart(w)
    requires w' == w.(ks := w.ks.(valid := true), fromServer := w.fromServer - multiset{m},
                      orbit := w.orbit + multiset{m.p}, accepted := w.accepted + 1)
    ensures VersionsApart(w')
  {
    assert w.fromServer[m] == 1;
    Taken(w.fromServer, m);
    assert forall c | c in w'.orbit :: c in w.orbit || c == m.p;
  }

  lemma Taken(ms: multiset<Message>, m: Message)
    requires ms[m] == 1
    ensures forall n | n in ms - multiset{m} :: n != m && n in ms && (ms - multiset{m})[n] == ms[n]
    ensures forall n | n in ms && n != m :: n in ms - multiset{m}
  {
  }

  lemma UpdateReturnsLatest(w: World, m: Message, w': World)
    requires m in w.fromServer && IsReply(m.p.op) && IsUpdate(m.p.op) && LatestSomewhere(w) && w.fromServer[m] == 1
    requires w' == w.(ks := w.ks.(valid := true), fromServer := w.fromServer - multiset{m},
                      orbit := w.orbit + multiset{m.p}, accepted := w.accepted + 1)
    ensures LatestSomewhere(w')
  {
    hide HasWrite;
    Taken(w.fromServer, m);
    assert !NoUpdates(w.fromServer);
    if CurrentReply(w) {
      var n :| n in w.fromServer && IsUpdate(n.p.op) && n.p.value == w.store;
      if n == m {
        assert m.p in w'.orbit;
      } else {
        assert n in w'.fromServer;
      }
    } else if CurrentOrbit(w) {
      var c :| c in w.orbit && c.value == w.store;
      assert c in w'.orbit;
    }
  }

  lemma OneCopy(w: World, m: Message)
    requires VersionsApart(w) && m in w.fromServer && IsUpdate(m.p.op)
    ensures w.fromServer[m] == 1
  {
  }

  /** A reply takes its version into orbit. */
  lemma UpdateReturnsVersioned(w: World, m: Message)
    requires m in w.fromServer && IsReply(m.p.op) && IsUpdate(m.p.op) && Versioned(w)
    ensures Versioned(Step(w, Return(m)))
  {
    hide Step, VersionsApart, LatestSomewhere;
    UpdateReturns(w, m);
    OneCopy(w, m);
    UpdateReturnsApart(w, m, Step(w, Return(m)));
    UpdateReturnsLatest(w, m, Step(w, Return(m)));
  }

  lemma ReadReturnsApart(w: World, m: Message, w': World)
    requires VersionsApart(w)
    requires w' == w.(fromServer := w.fromServer - multiset{m}, direct := w.direct + [Delivery(m.p, m.client, m.born, w.store)])
    ensures VersionsApart(w')
  {
    hide Bounded, DistinctVersions;
    assert forall n | n in w'.fromServer :: n in w.fromServer;
    ApartKept(w, w');
  }

  lemma ReadReturnsVersioned(w: World, m: Message)
    requires m in w.fromServer && m.p.op == ReadReply && Versioned(w)
    ensures Versioned(Step(w, Return(m)))
  {
    hide Step, HasWrite, NoUpdates, VersionsApart;
    ReadReturns(w, m);
    OtherTaken(w.fromServer, m);
    var w' := Step(w, Return(m));
    ReadReturnsApart(w, m, w');
    if CurrentReply(w) {
      var n :| n in w.fromServer && IsUpdate(n.p.op) && n.p.value == w.store;
      assert n in w'.fromServer;
    }
  }

  lemma CircleVersioned(w: World, c: Packet)
    requires c in w.orbit && Versioned(w)
    ensures Versioned(StepCircle(w, c))
  {
    hide NoUpdates, HasWrite, Bounded, DistinctVersions, StepCircle;
    var w' := StepCircle(w, c);
    var q := CircleKeeps(w, c);
    forall d | d in w'.orbit ensures OldVersion(w, d) {
      assert d in w.orbit || d == q;
    }
    ApartKept(w, w');
    if w.ks.valid {
      assert q in w'.orbit;
      assert forall d | d in w.orbit && d != c :: d in w'.orbit;
    }
  }

  lemma SeedVersioned(w: World, p: Packet)
    requires Enabled(w, Seed(p)) && OneAtATime(w, Seed(p)) && Versioned(w)
    ensures Versioned(Step(w, Seed(p)))
  {
    var w' := Step(w, Seed(p));
    assert w' == w.(ks := w.ks.(valid := true), orbit := w.orbit + multiset{p}, accepted := w.accepted + 1);
    assert forall c | c in w'.orbit :: c == p;
  }

  lemma StepVersioned(w: World, a: Action)
    requires Enabled(w, a) && MessagesOk(w) && WritesOverlap(w, a) && Versioned(w)
    ensures Versioned(Step(w, a))
  {
    hide Versioned, StepArrive, StepAtServer, StepReply, StepCircle;
    match a
    case Arrive(p) => ArriveVersioned(w, p);
    case AtServer(m) =>
      VersionedParts(w);
      if m.p.op == Write { WriteServedVersioned(w, m); } else { OtherServedVersioned(w, m); }
    case Return(m) => if IsUpdate(m.p.op) { UpdateReturnsVersioned(w, m); } else { ReadReturnsVersioned(w, m); }
    case Seed(p) => SeedVersioned(w, p);
    case Circle(c) => CircleVersioned(w, c);
  }

  lemma VersionedParts(w: World)
    requires Versioned(w)
    ensures OnlyWrites(w) && Bounded(w) && DistinctVersions(w) && LatestSomewhere(w)
  {
  }

  /** Every run in which writes overlap at will keeps the versions apart. */
  lemma {:induction false} RunVersioned(w: World, run: seq<Action>)
    requires Runs(w, run) && RunsOverlapping(w, run) && Conserved(w) && Versioned(w)
    ensures Conserved(After(w, run)) && Versioned(After(w, run))
    decreases |run|
  {
    hide Versioned, Conserved, Step, WritesOverlap;
    if run != [] {
      SoundMessages(w);
      StepConserves(w, run[0]);
      StepVersioned(w, run[0]);
      RunVersioned(Step(w, run[0]), run[1..]);
    }
  }

  lemma StartVersioned()
    ensures Conserved(START) && Versioned(START)
  {
  }

  /**
   * The write reply that makes a key valid again keeps reads current if and only if no old packet is in
   * orbit and no other update is in flight: what the surroundings have to wait for, however writes overlap.
   */
  lemma ReplyCurrentIffAlone(w: World, m: Message)
    requires Conserved(w) && Versioned(w) && m in w.fromServer && m.p.op == WriteReply
    ensures StaysCurrent(Step(w, Return(m))) <==>
            w.orbit == multiset{} && NoUpdates(w.toServer) && NoUpdates(w.fromServer - multiset{m})
  {
    hide *;
    VersionedParts(w);
    ReplyReturned(w, m);
    SoundMessages(w);
    UpdateReturns(w, m);
    StaysCurrentIffSettled(Step(w, Return(m)));
    ReplySettledIffAlone(w, m, Step(w, Return(m)));
  }

  lemma ReplyReturned(w: World, m: Message)
    requires Conserved(w) && Bounded(w) && m in w.fromServer && (m.p.op == WriteReply || m.p.op == FetchReply)
    ensures Conserved(Step(w, Return(m))) && Bounded(Step(w, Return(m)))
  {
    hide Step, Conserved;
    StepConserves(w, Return(m));
    UpdateReturns(w, m);
    var w' := Step(w, Return(m));
    assert forall c | c in w'.orbit :: c in w.orbit || c == m.p;
    assert forall n | n in w'.fromServer :: n in w.fromServer;
  }

  lemma ReplySettledIffAlone(w: World, m: Message, w': World)
    requires OnlyWrites(w) && DistinctVersions(w) && LatestSomewhere(w) && MessagesOk(w)
    requires m in w.fromServer && m.p.op == WriteReply
    requires w' == w.(ks := w.ks.(valid := true), fromServer := w.fromServer - multiset{m},
                      orbit := w.orbit + multiset{m.p}, accepted := w.accepted + 1)
    ensures Settled(w') <==> w.orbit == multiset{} && NoUpdates(w.toServer) && NoUpdates(w.fromServer - multiset{m})
  {
    hide OneUpdate;
    Taken(w.fromServer, m);
    assert m.p in w'.orbit && w'.orbit != multiset{};
    assert NoUpdates(w.toServer) <==> !HasWrite(w.toServer);
    if AllCurrent(w') {
      AloneWhenCurrent(w, m, w');
    }
    if w.orbit == multiset{} && NoUpdates(w.toServer) && NoUpdates(w'.fromServer) {
      CurrentWhenAlone(w, m, w');
    }
  }

  lemma AloneWhenCurrent(w: World, m: Message, w': World)
    requires DistinctVersions(w) && AllCurrent(w') && m in w.fromServer && m.p.op == WriteReply
    requires w'.fromServer == w.fromServer - multiset{m} && w'.orbit == w.orbit + multiset{m.p} && w'.store == w.store
    ensures w.orbit == multiset{} && NoUpdates(w'.fromServer)
  {
    Taken(w.fromServer, m);
    assert m.p in w'.orbit;
    assert forall c | c in w.orbit :: c in w'.orbit && c.value == m.p.value;
  }

  lemma CurrentWhenAlone(w: World, m: Message, w': World)
    requires LatestSomewhere(w) && w.orbit == multiset{} && NoUpdates(w.toServer) && m in w.fromServer
    requires m.p.op == WriteReply
    requires w'.fromServer == w.fromServer - multiset{m} && w'.orbit == w.orbit + multiset{m.p} && w'.store == w.store
    requires NoUpdates(w'.fromServer)
    ensures AllCurrent(w')
  {
    var n :| n in w.fromServer && IsUpdate(n.p.op) && n.p.value == w.store;
    assert n == m || n in w'.fromServer;
  }

  /**
   * With one update at a time: its reply keeps reads current if and only if no packet in orbit carries
   * another version, for a write reply if and only if the orbit is empty; and one packet is left if and
   * only if the orbit is empty.
   */
  lemma ReplyCoherentIffDrained(w: World, m: Message)
    requires Sound(w) && m in w.fromServer && IsUpdate(m.p.op)
    ensures StaysCurrent(Step(w, Return(m))) <==> forall c | c in w.orbit :: c.value == w.store
    ensures m.p.op == WriteReply ==> (StaysCurrent(Step(w, Return(m))) <==> w.orbit == multiset{})
    ensures Coherent(Step(w, Return(m))) <==> w.orbit == multiset{}
  {
    hide StaysCurrent, Conserved, Step, VersionsOk, ServedCurrent, OneUpdate, Settled;
    var w' := Step(w, Return(m));
    SoundMessages(w);
    assert Bounded(w);
    ReplyReturned(w, m);
    UpdateReturns(w, m);
    StaysCurrentIffSettled(w');
    LoneReplySettled(w, m, w');
    assert w'.ks.valid && |w'.orbit| == |w.orbit| + 1;
  }

  lemma LoneReplySettled(w: World, m: Message, w': World)
    requires UpdatesOk(w) && m in w.fromServer && IsUpdate(m.p.op) && IsReply(m.p.op)
    requires w' == w.(ks := w.ks.(valid := true), fromServer := w.fromServer - multiset{m},
                      orbit := w.orbit + multiset{m.p}, accepted := w.accepted + 1)
    ensures Settled(w') <==> forall c | c in w.orbit :: c.value == w.store
    ensures m.p.op == WriteReply ==> (Settled(w') <==> w.orbit == multiset{})
    ensures w.orbit == multiset{} ==> Coherent(w')
  {
    hide OneUpdate;
    assert NoUpdates(w.toServer);
    TheUpdate(w.fromServer, m);
    assert forall c | c in w'.orbit :: c in w.orbit || c == m.p;
    assert forall c | c in w.orbit :: c in w'.orbit;
    if w.orbit == multiset{} {
      assert w'.orbit == multiset{m.p};
    }
  }
}
