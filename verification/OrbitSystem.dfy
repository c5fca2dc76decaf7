/**
 * All cached keys together, over the one set of registers of the switch.  The packets in flight are
 * those of the single keys; every pass reads and writes the shared registers.
 */
module OrbitSystem {
  import opened SwitchSpec
  import opened RequestTable
  import opened OrbitProtocol

  /** The registers, the surroundings of every cached key, and the packets of other keys that left the switch. */
  datatype System = System(regs: Registers, worlds: map<nat, World>, foreign: seq<Packet>)

  datatype Tagged = Tagged(key: nat, action: Action)

  /** A new packet names its key; the others are in flight for theirs. */
  predicate Named(t: Tagged) {
    match t.action
    case Arrive(p) => p.key == t.key
    case Seed(p) => p.key == t.key
    case _ => true
  }

  /** Packets of a key that is not cached only come from outside. */
  predicate SystemEnabled(sys: System, t: Tagged) {
    && Named(t)
    && if t.key in sys.worlds then Enabled(sys.worlds[t.key], t.action)
       else (t.action.Arrive? && IsRequest(t.action.p.op)) || (t.action.Seed? && t.action.p.op == WriteReply)
  }

  /** Whether the action is a pass through the switch, and of which packet. */
  function Passing(a: Action): (Packet, bool)
    requires !a.AtServer?
  {
    match a
    case Arrive(p) => (p, false)
    case Return(m) => (m.p, false)
    case Seed(p) => (p, false)
    case Circle(c) => (c, true)
  }

  /** What a pass does to the surroundings of its key. */
  function Effect(w: World, a: Action, ks: KeyState, fate: Fate): World
    requires !a.AtServer?
  {
    match a
    case Arrive(p) => EffectArrive(w, p, ks, fate)
    case Return(m) => EffectReply(w.(fromServer := w.fromServer - multiset{m}), m, ks, fate)
    case Seed(p) => EffectReply(w, Message(p, p, w.store), ks, fate)
    case Circle(c) => EffectCircle(w, c, ks, fate)
  }

  ghost function SystemStep(sys: System, lookup: map<nat, nat>, t: Tagged): System
    requires RegistersOk(sys.regs) && Indexes(lookup) && sys.worlds.Keys == lookup.Keys
  {
    if t.action.AtServer? then
      if t.key in sys.worlds then sys.(worlds := sys.worlds[t.key := Step(sys.worlds[t.key], t.action)]) else sys
    else
      var (p, fromOrbit) := Passing(t.action);
      var (regs, fate) := PassRegisters(sys.regs, lookup, p, fromOrbit);
      PassRegistersView(sys.regs, lookup, p, fromOrbit);
      if t.key !in sys.worlds then
        sys.(regs := regs, foreign := if fate.Forwarded? then sys.foreign + [fate.p] else sys.foreign)
      else
        sys.(regs := regs,
             worlds := sys.worlds[t.key := Effect(sys.worlds[t.key], t.action, View(regs, lookup[t.key]), fate)])
  }

  /** Every packet in flight for a key carries that key. */
  ghost predicate OwnPackets(w: World, key: nat) {
    && (forall c | c in w.orbit :: c.key == key)
    && (forall m | m in w.toServer :: m.p.key == key)
    && (forall m | m in w.fromServer :: m.p.key == key)
  }

  /** The registers hold, index by index, what the single worlds say. */
  ghost predicate Linked(sys: System, lookup: map<nat, nat>) {
    && RegistersOk(sys.regs) && Indexes(lookup) && sys.worlds.Keys == lookup.Keys
    && (forall key | key in lookup :: View(sys.regs, lookup[key]) == sys.worlds[key].ks)
    && (forall key | key in lookup :: OwnPackets(sys.worlds[key], key))
  }

  lemma AnswerKeepsKey(ks: KeyState, p: Packet, fromOrbit: bool)
    ensures var fate := PassCached(ks, p, fromOrbit).1; fate.Dropped? || fate.p.key == p.key
  {
  }

  lemma ArriveOwn(w: World, p: Packet, key: nat)
    requires p.key == key && OwnPackets(w, key)
    ensures OwnPackets(StepArrive(w, p), key)
  {
    var w', fate := StepArrive(w, p), PassCached(w.ks, p, false).1;
    AnswerKeepsKey(w.ks, p, false);
    hide PassCached;
    assert w'.orbit == w.orbit && w'.fromServer == w.fromServer;
    if fate.Forwarded? {
      assert w'.toServer == w.toServer + multiset{Message(fate.p, p, w.store)};
      assert forall m | m in w'.toServer :: m in w.toServer || m == Message(fate.p, p, w.store);
    }
  }

  lemma ServerOwn(w: World, m: Message, key: nat)
    requires m in w.toServer && OwnPackets(w, key)
    ensures OwnPackets(StepAtServer(w, m), key)
  {
    var w', reply := StepAtServer(w, m), m.(p := ServerReply(m.p, w.store));
    assert reply.p.key == key;
    hide ServerReply;
    assert forall n | n in w'.fromServer :: n in w.fromServer || n == reply;
    assert forall n | n in w'.toServer :: n in w.toServer;
  }

  lemma ReplyOwn(w: World, m: Message, key: nat)
    requires m.p.key == key && OwnPackets(w, key)
    ensures OwnPackets(StepReply(w, m), key)
  {
    var w', fate := StepReply(w, m), PassCached(w.ks, m.p, false).1;
    AnswerKeepsKey(w.ks, m.p, false);
    hide PassCached;
    if fate.Cloned? {
      assert w'.orbit == w.orbit + multiset{fate.p};
      assert forall c | c in w'.orbit :: c in w.orbit || c == fate.p;
    }
  }

  lemma CircleOwn(w: World, c: Packet, key: nat)
    requires c in w.orbit && OwnPackets(w, key)
    ensures OwnPackets(StepCircle(w, c), key)
  {
    var w', fate := StepCircle(w, c), PassCached(w.ks, c, true).1;
    AnswerKeepsKey(w.ks, c, true);
    hide PassCached;
    assert forall d | d in w'.orbit :: d in w.orbit || (!fate.Dropped? && d == fate.p);
  }

  lemma TakenOwn(w: World, m: Message, key: nat)
    requires m in w.fromServer && OwnPackets(w, key)
    ensures m.p.key == key && OwnPackets(w.(fromServer := w.fromServer - multiset{m}), key)
  {
    assert forall n | n in w.fromServer - multiset{m} :: n in w.fromServer;
  }

  lemma StepOwn(w: World, a: Action, key: nat)
    requires Enabled(w, a) && Named(Tagged(key, a)) && OwnPackets(w, key)
    ensures OwnPackets(Step(w, a), key)
  {
    hide OwnPackets, StepArrive, StepAtServer, StepReply, StepCircle;
    match a
    case Arrive(p) => ArriveOwn(w, p, key);
    case AtServer(m) => ServerOwn(w, m, key);
    case Return(m) =>
      TakenOwn(w, m, key);
      ReplyOwn(w.(fromServer := w.fromServer - multiset{m}), m, key);
    case Seed(p) => ReplyOwn(w, Message(p, p, w.store), key);
    case Circle(c) => CircleOwn(w, c, key);
  }

  /** The packet of an enabled pass carries the key of its tag. */
  lemma PassingKey(w: World, t: Tagged)
    requires !t.action.AtServer? && Named(t) && Enabled(w, t.action) && OwnPackets(w, t.key)
    ensures Passing(t.action).0.key == t.key
  {
  }

  /** With the key's own queue and flag, the effect of a pass is the step of that key. */
  lemma EffectIsStep(w: World, a: Action)
    requires !a.AtServer?
    ensures var (p, fromOrbit) := Passing(a);
            var (ks, fate) := PassCached(w.ks, p, fromOrbit);
            Effect(w, a, ks, fate) == Step(w, a)
  {
  }

  /** A pass over the shared registers is a step of its own key, and of no other. */
  lemma SystemStepLinked(sys: System, lookup: map<nat, nat>, t: Tagged)
    requires Linked(sys, lookup) && SystemEnabled(sys, t)
    ensures var sys' := SystemStep(sys, lookup, t);
            && Linked(sys', lookup)
            && sys'.worlds == (if t.key in lookup then sys.worlds[t.key := Step(sys.worlds[t.key], t.action)]
                               else sys.worlds)
            && (t.key in lookup ==> sys'.foreign == sys.foreign)
            && (t.key !in lookup ==> sys'.regs == sys.regs && sys'.foreign == sys.foreign + [t.action.p])
  {
    hide RegistersOk, View, PassRegisters, Step, Effect, OwnPackets, Enabled, Passing;
    if t.key in lookup {
      var w := sys.worlds[t.key];
      StepOwn(w, t.action, t.key);
      if t.action.AtServer? {
        ServerKeepsState(w, t.action);
      } else {
        PassingKey(w, t);
        EffectIsStep(w, t.action);
        EffectState(w, t.action);
        PassRegistersView(sys.regs, lookup, Passing(t.action).0, Passing(t.action).1);
      }
    } else {
      OutsideKey(t);
      PassRegistersView(sys.regs, lookup, Passing(t.action).0, Passing(t.action).1);
    }
  }

  lemma ServerKeepsState(w: World, a: Action)
    requires a.AtServer?
    ensures Step(w, a).ks == w.ks
  {
  }

  lemma EffectState(w: World, a: Action)
    requires !a.AtServer?
    ensures Step(w, a).ks == PassCached(w.ks, Passing(a).0, Passing(a).1).0
  {
  }

  lemma OutsideKey(t: Tagged)
    requires Named(t) && (t.action.Arrive? || t.action.Seed?)
    ensures Passing(t.action) == (t.action.p, false) && t.action.p.key == t.key
  {
  }

  ghost predicate SystemRuns(sys: System, lookup: map<nat, nat>, run: seq<Tagged>)
    requires Linked(sys, lookup)
    decreases |run|
  {
    run == [] || (
      && SystemEnabled(sys, run[0])
      && (SystemStepLinked(sys, lookup, run[0]); SystemRuns(SystemStep(sys, lookup, run[0]), lookup, run[1..])))
  }

  ghost function SystemAfter(sys: System, lookup: map<nat, nat>, run: seq<Tagged>): System
    requires Linked(sys, lookup) && SystemRuns(sys, lookup, run)
    decreases |run|
  {
    if run == [] then sys
    else
      SystemStepLinked(sys, lookup, run[0]);
      SystemAfter(SystemStep(sys, lookup, run[0]), lookup, run[1..])
  }

  function Project(run: seq<Tagged>, key: nat): seq<Action> {
    if run == [] then []
    else (if run[0].key == key then [run[0].action] else []) + Project(run[1..], key)
  }

  /**
   * Every interleaving of passes over the shared registers is, key by key, a run of that key alone, and
   * at its end the registers of the key hold that run's queue and flag.
   */
  lemma {:induction false} SystemProjects(sys: System, lookup: map<nat, nat>, run: seq<Tagged>, key: nat)
    requires Linked(sys, lookup) && SystemRuns(sys, lookup, run) && key in lookup
    ensures var sys' := SystemAfter(sys, lookup, run);
            && Linked(sys', lookup)
            && Runs(sys.worlds[key], Project(run, key))
            && sys'.worlds[key] == After(sys.worlds[key], Project(run, key))
            && View(sys'.regs, lookup[key]) == After(sys.worlds[key], Project(run, key)).ks
    decreases |run|
  {
    hide Step, SystemStep, RegistersOk, View, Enabled, OwnPackets;
    if run != [] {
      var w, sys' := sys.worlds[key], SystemStep(sys, lookup, run[0]);
      SystemStepLinked(sys, lookup, run[0]);
      SystemProjects(sys', lookup, run[1..], key);
      if run[0].key == key {
        Prepend(w, run[0].action, Project(run[1..], key));
      } else {
        assert Project(run, key) == Project(run[1..], key);
      }
    }
  }

  /** The registers as the controller clears them. */
  ghost predicate Cleared(regs: Registers, lookup: map<nat, nat>) {
    && RegistersOk(regs) && Indexes(lookup)
    && forall key | key in lookup :: View(regs, lookup[key]) == KeyState(false, [])
  }

  ghost function SystemStart(regs: Registers, lookup: map<nat, nat>): System {
    System(regs, map key | key in lookup :: START, [])
  }

  lemma StartLinked(regs: Registers, lookup: map<nat, nat>)
    requires Cleared(regs, lookup)
    ensures Linked(SystemStart(regs, lookup), lookup)
  {
    hide RegistersOk, View;
  }

  lemma {:induction false} SystemLinked(sys: System, lookup: map<nat, nat>, run: seq<Tagged>)
    requires Linked(sys, lookup) && SystemRuns(sys, lookup, run)
    ensures Linked(SystemAfter(sys, lookup, run), lookup)
    decreases |run|
  {
    hide SystemStep, RegistersOk, View, OwnPackets, Step;
    if run != [] {
      SystemStepLinked(sys, lookup, run[0]);
      SystemLinked(SystemStep(sys, lookup, run[0]), lookup, run[1..]);
    }
  }

  /**
   * From cleared registers on, in every interleaving over all keys: no read is lost or answered out of
   * turn, and no packet appears in or vanishes from orbit unaccounted.
   */
  lemma SystemConserves(regs: Registers, lookup: map<nat, nat>, run: seq<Tagged>)
    requires Cleared(regs, lookup)
    requires (StartLinked(regs, lookup); SystemRuns(SystemStart(regs, lookup), lookup, run))
    ensures Linked(SystemStart(regs, lookup), lookup)
    ensures var sys' := SystemAfter(SystemStart(regs, lookup), lookup, run);
            Linked(sys', lookup) && forall key | key in lookup :: Conserved(sys'.worlds[key])
  {
    hide RegistersOk, View, SystemRuns, SystemAfter, OwnPackets;
    StartLinked(regs, lookup);
    var sys := SystemStart(regs, lookup);
    SystemLinked(sys, lookup, run);
    forall key | key in lookup ensures Conserved(SystemAfter(sys, lookup, run).worlds[key]) {
      SystemProjects(sys, lookup, run, key);
      RunConserves(START, Project(run, key));
    }
  }

  /** From cleared registers on, every key that keeps the rules is coherent, whatever the other keys do. */
  lemma SystemSound(regs: Registers, lookup: map<nat, nat>, run: seq<Tagged>, key: nat)
    requires Cleared(regs, lookup) && key in lookup && Disciplined(START, Project(run, key))
    requires (StartLinked(regs, lookup); SystemRuns(SystemStart(regs, lookup), lookup, run))
    ensures Linked(SystemStart(regs, lookup), lookup)
    ensures var sys' := SystemAfter(SystemStart(regs, lookup), lookup, run);
            && Linked(sys', lookup) && Sound(sys'.worlds[key])
            && (View(sys'.regs, lookup[key]).valid ==>
                  exists c :: sys'.worlds[key].orbit == multiset{c} && c.value == sys'.worlds[key].store)
  {
    hide RegistersOk, View, SystemRuns, SystemAfter, OwnPackets;
    StartLinked(regs, lookup);
    SystemProjects(SystemStart(regs, lookup), lookup, run, key);
    hide Conserved, VersionsOk, UpdatesOk, ServedCurrent;
    StartSound();
    RunSound(START, Project(run, key));
  }

  /** The packets of keys that are not cached, in the order they come in. */
  function Foreign(run: seq<Tagged>, lookup: map<nat, nat>): seq<Packet> {
    if run == [] then []
    else
      var rest := Foreign(run[1..], lookup);
      if run[0].key !in lookup && (run[0].action.Arrive? || run[0].action.Seed?) then [run[0].action.p] + rest else rest
  }

  /** The switch passes the packets of all other keys on, as they are and in their order, and no more than these. */
  lemma {:induction false} SystemForwards(sys: System, lookup: map<nat, nat>, run: seq<Tagged>)
    requires Linked(sys, lookup) && SystemRuns(sys, lookup, run)
    ensures SystemAfter(sys, lookup, run).foreign == sys.foreign + Foreign(run, lookup)
    decreases |run|
  {
    hide SystemStep, RegistersOk, View, OwnPackets, Step;
    if run != [] {
      SystemStepLinked(sys, lookup, run[0]);
      SystemForwards(SystemStep(sys, lookup, run[0]), lookup, run[1..]);
    }
  }
}
