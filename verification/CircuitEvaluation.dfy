/** All parties evaluate a circuit together. */
module CircuitEvaluation {
  // Every delivery order gives the values of sequential evaluation.

  import opened Options
  import opened WireOps
  import opened Graphs
  import opened Collapsing
  import opened GateEvaluation

  /** One party's evaluation of one gate. */
  datatype Id = Id(party: Party, gate: Gate)

  /** A loopback message that has not been handled yet. */
  datatype Flight = Flight(party: Party, to: InAddr, value: int)

  /** receiving holds the evaluations whose batch of incoming resharings is still running. */
  datatype System = System(instances: map<Id, Instance>, flying: multiset<Flight>, receiving: set<Id>)

  ghost predicate IsId(s: Setting, id: Id) {
    id.gate in s.quorum && id.party in s.quorum[id.gate].members
  }

  ghost predicate Receives(s: Setting, id: Id)
    requires WF(s.g) && s.quorum.Keys == s.g.gates
  {
    IsId(s, id) && Awaited(s, id.party, id.gate, Arity(id.gate.kind)) != {}
  }

  /** Every party has started its evaluations. */
  ghost predicate Init(s: Setting, sys: System)
    requires ValidSetting(s)
  {
    && (forall id :: id in sys.instances <==> IsId(s, id))
    && (forall id :: id in sys.instances ==> sys.instances[id] == StartInstance(s, id.party, id.gate))
    && sys.flying == multiset{}
    && (forall id :: id in sys.receiving <==> Receives(s, id))
  }

  // ----- steps -----

  /** The party of id handles a message for the gate of id and sends loopbacks. */
  datatype Step = Step(id: Id, message: Message, sent: seq<Sent>)

  function Values(inputs: seq<Option<int>>): (x: seq<int>)
    ensures |x| == |inputs|
  {
    seq(|inputs|, i requires 0 <= i < |inputs| => if inputs[i].Some? then inputs[i].value else 0)
  }

  ghost function GateOutputs(t: Gate, x: seq<int>): (y: seq<int>)
    requires WellFormedKind(t.kind) && |x| == Arity(t.kind)
    ensures |y| == Arity(t.kind) && forall j :: 0 <= j < |y| ==> y[j] == Output(t.kind, x, j)
  {
    seq(Arity(t.kind), j requires 0 <= j < Arity(t.kind) => Output(t.kind, x, j))
  }

  ghost predicate AtStage(sys: System, id: Id, stage: nat) {
    id in sys.instances && sys.instances[id].stage >= stage
  }

  /** The evaluation protocol of a quorum ends when all its members run it; it computes the gate on
      the secrets that a member put in. */
  ghost predicate Evaluated(s: Setting, sys: System, t: Gate, outputs: seq<int>)
    requires ValidSetting(s) && t in s.g.gates
  {
    && (forall q :: q in s.quorum[t].members ==> AtStage(sys, Id(q, t), 1))
    && (exists q :: q in s.quorum[t].members && EvaluatedFrom(sys, Id(q, t), outputs))
  }

  ghost predicate EvaluatedFrom(sys: System, id: Id, outputs: seq<int>)
    requires WellFormedKind(id.gate.kind)
  {
    && id in sys.instances && |sys.instances[id].inputs| == Arity(id.gate.kind)
    && outputs == GateOutputs(id.gate, Values(sys.instances[id].inputs))
  }

  /** A resharing ends when all members of the source quorum have started it; it delivers the secret. */
  ghost predicate Delivered(s: Setting, sys: System, b: InAddr, value: int)
    requires ValidSetting(s)
  {
    && b in s.g.bwd && SourceGate(s, b) in s.quorum
    && (forall q :: q in s.quorum[SourceGate(s, b)].members ==> HasStarted(sys, Id(q, SourceGate(s, b)), b))
    && (exists q :: q in s.quorum[SourceGate(s, b)].members && SharedFrom(sys, Id(q, SourceGate(s, b)), b, value))
  }

  ghost predicate HasStarted(sys: System, id: Id, b: InAddr) {
    id in sys.instances && b in sys.instances[id].started
  }

  ghost predicate SharedFrom(sys: System, id: Id, b: InAddr, value: int) {
    HasStarted(sys, id, b) && sys.instances[id].started[b] == value
  }

  ghost predicate AllDelivered(s: Setting, sys: System, to: set<InAddr>, shares: map<InAddr, int>)
    requires ValidSetting(s)
  {
    forall b :: b in to ==> b in shares && Delivered(s, sys, b, shares[b])
  }

  function AwaitedPorts(s: Setting, id: Id): (r: set<InAddr>)
    requires WF(s.g) && s.quorum.Keys == s.g.gates
    ensures forall i :: i in Awaited(s, id.party, id.gate, Arity(id.gate.kind)) ==> InAddr(id.gate, i) in r
  {
    set i | i in Awaited(s, id.party, id.gate, Arity(id.gate.kind)) :: InAddr(id.gate, i)
  }

  /** A message can arrive: any loopback on its way, or the end of a batch of sub-protocols. */
  ghost predicate CanArrive(s: Setting, sys: System, id: Id, m: Message)
    requires ValidSetting(s)
  {
    match m
    case CircuitLoopback(port, value) => Flight(id.party, InAddr(id.gate, port), value) in sys.flying
    case EvaluationCompleted(outputs) =>
      id in sys.instances && id.gate in s.g.gates && sys.instances[id].stage == 1 && Evaluated(s, sys, id.gate, outputs)
    case SharesCompleted(shares) =>
      if id in sys.receiving then AllDelivered(s, sys, AwaitedPorts(s, id), shares)
      else
        id in sys.instances && sys.instances[id].stage == 2 && !sys.instances[id].completed &&
        sys.instances[id].started != map[] && AllDelivered(s, sys, sys.instances[id].started.Keys, shares)
  }

  function Flights(p: Party, sent: seq<Sent>): (r: seq<Flight>)
    ensures |r| == |sent| && forall i :: 0 <= i < |r| ==> r[i] == Flight(p, sent[i].to, sent[i].value)
  {
    seq(|sent|, i requires 0 <= i < |sent| => Flight(p, sent[i].to, sent[i].value))
  }

  function Arrived(id: Id, m: Message): multiset<Flight> {
    if m.CircuitLoopback? then multiset{Flight(id.party, InAddr(id.gate, m.port), m.value)} else multiset{}
  }

  function After(s: Setting, sys: System, st: Step): System
    requires ValidSetting(s) && st.id in sys.instances
    requires Expects(s, st.id.party, st.id.gate, sys.instances[st.id], st.message)
  {
    System(
      sys.instances[st.id := Handle(s, st.id.party, st.id.gate, sys.instances[st.id], st.message)],
      sys.flying - Arrived(st.id, st.message) + multiset(Flights(st.id.party, st.sent)),
      if st.message.SharesCompleted? then sys.receiving - {st.id} else sys.receiving)
  }

  /** The protocol does not fail on the message. */
  ghost predicate Accepts(s: Setting, sys: System, id: Id, m: Message)
    requires ValidSetting(s)
  {
    id in sys.instances && Expects(s, id.party, id.gate, sys.instances[id], m)
  }

  ghost predicate Next(s: Setting, sys: System, st: Step, sys': System)
    requires ValidSetting(s)
  {
    && CanArrive(s, sys, st.id, st.message) && Accepts(s, sys, st.id, st.message)
    && Sends(s, st.id.party, st.id.gate, sys.instances[st.id], st.message, st.sent)
    && sys' == After(s, sys, st)
  }

  // ----- the invariant -----

  /** v and w are the sequential evaluation on the circuit inputs. */
  ghost predicate IsEvaluation(s: Setting, v: Ins, w: Outs) {
    Consistent(s.g, v, w) && forall b :: b in s.circuitInputs ==> v(b) == s.circuitInputs[b]
  }

  function GateResults(t: Gate, w: Outs): (r: seq<int>)
    ensures |r| == Arity(t.kind) && forall j :: 0 <= j < |r| ==> r[j] == w(OutAddr(t, j))
  {
    seq(Arity(t.kind), j requires 0 <= j < Arity(t.kind) => w(OutAddr(t, j)))
  }

  ghost predicate InstanceOk(s: Setting, id: Id, x: Instance, v: Ins, w: Outs) {
    && |x.inputs| == Arity(id.gate.kind) && x.received == Filled(x.inputs)
    && x.stage <= 2 && (x.stage == 0 <==> Filled(x.inputs) < |x.inputs|)
    && (forall i :: 0 <= i < |x.inputs| && x.inputs[i].Some? ==> x.inputs[i].value == v(InAddr(id.gate, i)))
    && StageOk(s, id, x, w)
  }

  ghost predicate StageOk(s: Setting, id: Id, x: Instance, w: Outs) {
    if x.stage == 2 then
      && x.outputs == GateResults(id.gate, w)
      && x.result == CircuitOutputs(s, id.gate, GateResults(id.gate, w), Arity(id.gate.kind))
      && x.started == Reshared(s, id.gate, GateResults(id.gate, w), Arity(id.gate.kind))
      && (x.started == map[] ==> x.completed)
    else x.result == map[] && !x.completed && x.started == map[]
  }

  /** The source of b, at the same party, has looped b's value back. */
  ghost predicate HasSent(s: Setting, sys: System, p: Party, b: InAddr)
    requires b in s.g.bwd
  {
    var id := Id(p, SourceGate(s, b));
    id in sys.instances &&
    if Direct(s, id.gate, s.g.bwd[b].port) then sys.instances[id].stage == 2 else sys.instances[id].completed
  }

  /** The input of p that b is, so far, and the message on its way to it: exactly one value reaches
      every port, through exactly one route. */
  ghost predicate PortOk(s: Setting, sys: System, id: Id, i: nat, v: Ins)
    requires WF(s.g) && s.quorum.Keys == s.g.gates
    requires id in sys.instances && i < |sys.instances[id].inputs|
  {
    var b := InAddr(id.gate, i);
    var input := sys.instances[id].inputs[i];
    var waiting := sys.flying[Flight(id.party, b, v(b))];
    if b !in s.g.bwd then input == Some(v(b)) && waiting == 0
    else if ByReshare(s, id.party, b) then input == (if id in sys.receiving then None else Some(v(b))) && waiting == 0
    else if HasSent(s, sys, id.party, b) then (input == None && waiting == 1) || (input == Some(v(b)) && waiting == 0)
    else input == None && waiting == 0
  }

  ghost predicate FlightOk(s: Setting, f: Flight, v: Ins) {
    f.to in s.g.bwd && f.value == v(f.to) && IsId(s, Id(f.party, f.to.gate))
  }

  ghost predicate Inv(s: Setting, sys: System, v: Ins, w: Outs) {
    && ValidSetting(s)
    && (forall id :: id in sys.instances <==> IsId(s, id))
    && (forall id :: id in sys.receiving ==> Receives(s, id))
    && (forall id :: id in sys.instances ==> InstanceOk(s, id, sys.instances[id], v, w))
    && (forall id, i: nat :: id in sys.instances && i < Arity(id.gate.kind) ==> PortOk(s, sys, id, i, v))
    && (forall f :: f in sys.flying ==> FlightOk(s, f, v))
  }

  lemma InitOk(s: Setting, sys: System, v: Ins, w: Outs)
    requires ValidSetting(s) && Init(s, sys) && IsEvaluation(s, v, w)
    ensures Inv(s, sys, v, w)
  {
    forall id | id in sys.instances
      ensures InstanceOk(s, id, sys.instances[id], v, w)
    {
      InitInstance(s, sys, v, w, id);
    }
    forall id, i: nat | id in sys.instances && i < Arity(id.gate.kind) ensures PortOk(s, sys, id, i, v) {
      InitPort(s, sys, v, w, id, i);
    }
  }

  lemma InitInstance(s: Setting, sys: System, v: Ins, w: Outs, id: Id)
    requires ValidSetting(s) && Init(s, sys) && IsEvaluation(s, v, w) && id in sys.instances
    ensures InstanceOk(s, id, sys.instances[id], v, w)
  {
    assert sys.instances[id] == StartInstance(s, id.party, id.gate);
    assert forall b :: b in s.circuitInputs ==> v(b) == s.circuitInputs[b];
    hide *;
    StartedOk(s, id, v, w);
  }

  lemma StartedOk(s: Setting, id: Id, v: Ins, w: Outs)
    requires ValidSetting(s) && forall b :: b in s.circuitInputs ==> v(b) == s.circuitInputs[b]
    ensures InstanceOk(s, id, StartInstance(s, id.party, id.gate), v, w)
  {
    hide WF, ValidSetting, Filled, Resharing, CircuitOutputs, Awaited;
    assert WF(s.g) && s.quorum.Keys == s.g.gates by { SettingFacts(s); }
    var ports := Awaited(s, id.party, id.gate, Arity(id.gate.kind));
    if ports != {} {
      var i :| i in ports;
      assert StartInput(s, InAddr(id.gate, i)) == None;
    }
  }

  lemma SettingFacts(s: Setting)
    requires ValidSetting(s)
    ensures WF(s.g) && s.quorum.Keys == s.g.gates && s.circuitInputs.Keys == s.g.ins
  {
    hide WF;
  }

  lemma InitPort(s: Setting, sys: System, v: Ins, w: Outs, id: Id, i: nat)
    requires ValidSetting(s) && Init(s, sys) && IsEvaluation(s, v, w) && id in sys.instances && i < Arity(id.gate.kind)
    ensures |sys.instances[id].inputs| == Arity(id.gate.kind) && PortOk(s, sys, id, i, v)
  {
    hide WF, Consistent, Filled, Resharing, CircuitOutputs;
    var b := InAddr(id.gate, i);
    StartPort(s, id.gate, i);
    assert sys.instances[id].inputs[i] == StartInput(s, b);
    if b in s.g.bwd {
      if ByReshare(s, id.party, b) {
        assert i in Awaited(s, id.party, id.gate, Arity(id.gate.kind));
      } else {
        NotSentYet(s, sys, id.party, b);
      }
    }
  }

  lemma NotSentYet(s: Setting, sys: System, p: Party, b: InAddr)
    requires ValidSetting(s) && Init(s, sys) && b in s.g.bwd
    ensures !HasSent(s, sys, p, b)
  {
    hide WF, ValidSetting, Awaited, Filled, StartInputs;
    SettingFacts(s);
    var id := Id(p, SourceGate(s, b));
    assert id in sys.instances ==> sys.instances[id] == StartInstance(s, p, id.gate);
  }

  // ----- what the invariant says about one instance, one port, one message -----

  lemma InstanceAt(s: Setting, sys: System, v: Ins, w: Outs, id: Id)
    requires Inv(s, sys, v, w) && id in sys.instances
    ensures InstanceOk(s, id, sys.instances[id], v, w) && IsId(s, id) && id.gate in s.g.gates
    ensures |sys.instances[id].inputs| == Arity(id.gate.kind)
  {
    hide WF, PortOk, StageOk;
    SettingFacts(s);
  }

  lemma PortAt(s: Setting, sys: System, v: Ins, w: Outs, id: Id, i: nat)
    requires Inv(s, sys, v, w) && id in sys.instances && i < Arity(id.gate.kind)
    ensures WF(s.g) && s.quorum.Keys == s.g.gates && |sys.instances[id].inputs| == Arity(id.gate.kind)
    ensures PortOk(s, sys, id, i, v)
  {
    hide WF, PortOk, StageOk;
    SettingFacts(s);
    InstanceAt(s, sys, v, w, id);
  }

  lemma InvParts(s: Setting, sys: System, v: Ins, w: Outs)
    requires Inv(s, sys, v, w)
    ensures ValidSetting(s) && WF(s.g) && s.quorum.Keys == s.g.gates
  {
    hide WF, PortOk, InstanceOk, FlightOk;
    SettingFacts(s);
  }

  lemma FlightAt(s: Setting, sys: System, v: Ins, w: Outs, f: Flight)
    requires Inv(s, sys, v, w) && f in sys.flying
    ensures FlightOk(s, f, v) && Id(f.party, f.to.gate) in sys.instances && f.to.port < Arity(f.to.gate.kind)
  {
    hide WF, PortOk, InstanceOk;
    SettingFacts(s);
    assert HasIn(s.g, f.to) by { ConnectedInput(s.g, f.to); }
  }

  lemma ConnectedInput(g: Graph, b: InAddr)
    requires WF(g) && b in g.bwd
    ensures HasIn(g, b) && HasOut(g, g.bwd[b]) && g.bwd[b] in g.fwd && g.fwd[g.bwd[b]] == b
  {
    hide WellFormedKind;
  }

  /** A loopback on its way goes to an empty port of an evaluation that is still collecting. */
  lemma FlightPort(s: Setting, sys: System, v: Ins, w: Outs, f: Flight)
    requires Inv(s, sys, v, w) && f in sys.flying
    ensures var id := Id(f.party, f.to.gate);
      id in sys.instances && f.to.port < |sys.instances[id].inputs| && f.value == v(f.to) &&
      sys.instances[id].inputs[f.to.port] == None && sys.instances[id].stage == 0 && sys.flying[f] == 1
  {
    hide WF, StageOk, Resharing, CircuitOutputs, Inv;
    FlightAt(s, sys, v, w, f);
    var id := Id(f.party, f.to.gate);
    PortAt(s, sys, v, w, id, f.to.port);
    InstanceAt(s, sys, v, w, id);
    assert f.to == InAddr(id.gate, f.to.port);
    assert f == Flight(id.party, f.to, v(f.to));
  }

  /** A receiving evaluation is still collecting, and its reshared ports are empty. */
  lemma ReceivingStage(s: Setting, sys: System, v: Ins, w: Outs, id: Id)
    requires Inv(s, sys, v, w) && id in sys.receiving
    ensures id in sys.instances && |sys.instances[id].inputs| == Arity(id.gate.kind) && sys.instances[id].stage == 0
    ensures ValidSetting(s) && WF(s.g) && s.quorum.Keys == s.g.gates
    ensures forall i :: i in Awaited(s, id.party, id.gate, Arity(id.gate.kind)) ==>
      i < Arity(id.gate.kind) && sys.instances[id].inputs[i] == None
  {
    InvParts(s, sys, v, w);
    assert Receives(s, id) && id in sys.instances;
    hide WF, Inv, StageOk, ValidSetting, IsId;
    InstanceAt(s, sys, v, w, id);
    forall i | i in Awaited(s, id.party, id.gate, Arity(id.gate.kind))
      ensures i < Arity(id.gate.kind) && sys.instances[id].inputs[i] == None
    {
      PortAt(s, sys, v, w, id, i);
    }
  }

  /** No assertion of the protocol fails in a reachable state. */
  lemma Accepted(s: Setting, sys: System, v: Ins, w: Outs, id: Id, m: Message)
    requires Inv(s, sys, v, w) && ValidSetting(s) && CanArrive(s, sys, id, m)
    ensures Accepts(s, sys, id, m)
  {
    hide WF, Inv, Resharing, ValidSetting, Filled, StageOk, LoopbacksNeeded;
    InvParts(s, sys, v, w);
    match m
    case CircuitLoopback(port, value) =>
      FlightPort(s, sys, v, w, Flight(id.party, InAddr(id.gate, port), value));
      InstanceAt(s, sys, v, w, id);
    case EvaluationCompleted(outputs) =>
      InstanceAt(s, sys, v, w, id);
    case SharesCompleted(shares) =>
      if id in sys.receiving {
        ReceivingStage(s, sys, v, w, id);
      } else {
        InstanceAt(s, sys, v, w, id);
        StartedWhenSending(s, id, sys.instances[id], v, w);
        LoopbacksAreReshared(s, id.party, id.gate);
      }
  }

  lemma StartedWhenSending(s: Setting, id: Id, x: Instance, v: Ins, w: Outs)
    requires InstanceOk(s, id, x, v, w) && x.stage == 2
    ensures x.started.Keys == Resharing(s, id.gate, Arity(id.gate.kind))
  {
    hide Filled, Resharing, CircuitOutputs;
  }

  lemma LoopbacksAreReshared(s: Setting, p: Party, t: Gate)
    ensures LoopbacksNeeded(s, p, t, Arity(t.kind)) <= Resharing(s, t, Arity(t.kind))
  {
    hide Target, TargetQuorum;
    var k := Arity(t.kind);
    forall b | b in LoopbacksNeeded(s, p, t, k) ensures b in Resharing(s, t, k) {
      var j: nat :| j < k && Later(s, p, t, j) && Target(s, t, j) == b;
      assert Reshares(s, t, j);
    }
  }

  // ----- the values that arrive are the sequential ones -----

  lemma EvaluatedRight(s: Setting, sys: System, v: Ins, w: Outs, t: Gate, outputs: seq<int>)
    requires Inv(s, sys, v, w) && ValidSetting(s) && IsEvaluation(s, v, w) && t in s.g.gates && Evaluated(s, sys, t, outputs)
    ensures outputs == GateResults(t, w)
  {
    hide WF, Inv, Consistent, ValidSetting, StageOk, GateOutputs, IsEvaluation;
    KindFits(s, t);
    var q :| q in s.quorum[t].members && EvaluatedFrom(sys, Id(q, t), outputs);
    assert AtStage(sys, Id(q, t), 1);
    hide Evaluated;
    InstanceAt(s, sys, v, w, Id(q, t));
    ComputedRight(s, v, w, Id(q, t), sys.instances[Id(q, t)]);
  }

  lemma KindFits(s: Setting, t: Gate)
    requires ValidSetting(s) && t in s.g.gates
    ensures WellFormedKind(t.kind) && t in s.quorum
  {
  }

  lemma ComputedRight(s: Setting, v: Ins, w: Outs, id: Id, x: Instance)
    requires InstanceOk(s, id, x, v, w) && x.stage >= 1 && id.gate in s.g.gates && IsEvaluation(s, v, w)
    ensures WellFormedKind(id.gate.kind) && |x.inputs| == Arity(id.gate.kind)
    ensures GateOutputs(id.gate, Values(x.inputs)) == GateResults(id.gate, w)
  {
    hide StageOk, WellFormedKind;
    assert GateHolds(id.gate, v, w);
    assert Values(x.inputs) == GateInputs(id.gate, v);
  }

  lemma DeliveredRight(s: Setting, sys: System, v: Ins, w: Outs, b: InAddr, value: int)
    requires Inv(s, sys, v, w) && ValidSetting(s) && IsEvaluation(s, v, w) && Delivered(s, sys, b, value)
    ensures b in s.g.bwd && value == v(b)
  {
    var q :| q in s.quorum[SourceGate(s, b)].members && SharedFrom(sys, Id(q, SourceGate(s, b)), b, value);
    var id := Id(q, SourceGate(s, b));
    assert HasStarted(sys, id, b) && v(b) == w(s.g.bwd[b]);
    hide WF, Inv, Consistent, ValidSetting, Delivered, Filled, CircuitOutputs, Resharing;
    InstanceAt(s, sys, v, w, id);
    assert sys.instances[id].started != map[];
    ShareIs(s, sys, v, w, id, b);
  }

  /** What a member puts into a resharing is the value of its output. */
  lemma ShareIs(s: Setting, sys: System, v: Ins, w: Outs, id: Id, b: InAddr)
    requires Inv(s, sys, v, w) && IsEvaluation(s, v, w) && HasStarted(sys, id, b)
    requires b in s.g.bwd && SourceGate(s, b) == id.gate
    ensures sys.instances[id].stage == 2 && sys.instances[id].started[b] == v(b)
  {
    hide WF, Inv, IsEvaluation, Filled, CircuitOutputs, Resharing;
    InstanceAt(s, sys, v, w, id);
    EvaluationAt(s, v, w, b);
    InvParts(s, sys, v, w);
    SourceLeads(s, b);
    assert sys.instances[id].started != map[];
  }

  /** The message brings sequential values, and is what the evaluation waits for. */
  ghost predicate Right(s: Setting, sys: System, v: Ins, w: Outs, id: Id, m: Message)
    requires ValidSetting(s)
  {
    && WF(s.g) && s.quorum.Keys == s.g.gates && IsId(s, id) && Accepts(s, sys, id, m)
    && var x := sys.instances[id];
    match m
    case CircuitLoopback(port, value) =>
      InAddr(id.gate, port) in s.g.bwd && value == v(InAddr(id.gate, port)) && x.inputs[port] == None
    case EvaluationCompleted(outputs) => outputs == GateResults(id.gate, w) && id !in sys.receiving
    case SharesCompleted(shares) =>
      if x.stage == 0 then
        id in sys.receiving &&
        forall i :: i in Awaited(s, id.party, id.gate, Arity(id.gate.kind)) ==>
          x.inputs[i] == None && shares[InAddr(id.gate, i)] == v(InAddr(id.gate, i))
      else
        id !in sys.receiving && !x.completed &&
        forall b :: b in LoopbacksNeeded(s, id.party, id.gate, Arity(id.gate.kind)) ==> shares[b] == v(b)
  }

  lemma ArrivesRight(s: Setting, sys: System, v: Ins, w: Outs, id: Id, m: Message)
    requires Inv(s, sys, v, w) && ValidSetting(s) && IsEvaluation(s, v, w) && CanArrive(s, sys, id, m)
    ensures Right(s, sys, v, w, id, m)
  {
    hide WF, Inv, Resharing, ValidSetting, Filled, StageOk, LoopbacksNeeded, Delivered, Consistent, Evaluated, IsEvaluation;
    InvParts(s, sys, v, w);
    Accepted(s, sys, v, w, id, m);
    InstanceAt(s, sys, v, w, id);
    match m
    case CircuitLoopback(port, value) =>
      var f := Flight(id.party, InAddr(id.gate, port), value);
      FlightPort(s, sys, v, w, f);
      FlightAt(s, sys, v, w, f);
    case EvaluationCompleted(outputs) =>
      EvaluatedRight(s, sys, v, w, id.gate, outputs);
      if id in sys.receiving { ReceivingStage(s, sys, v, w, id); }
    case SharesCompleted(shares) =>
      if id in sys.receiving {
        ReceivingStage(s, sys, v, w, id);
        SharesRight(s, sys, v, w, AwaitedPorts(s, id), shares);
      } else {
        SharesRight(s, sys, v, w, sys.instances[id].started.Keys, shares);
        StartedWhenSending(s, id, sys.instances[id], v, w);
        LoopbacksAreReshared(s, id.party, id.gate);
      }
  }

  lemma SharesRight(s: Setting, sys: System, v: Ins, w: Outs, to: set<InAddr>, shares: map<InAddr, int>)
    requires Inv(s, sys, v, w) && ValidSetting(s) && IsEvaluation(s, v, w) && AllDelivered(s, sys, to, shares)
    ensures forall b :: b in to ==> b in shares && shares[b] == v(b)
  {
    hide WF, Inv, ValidSetting, Delivered, IsEvaluation;
    forall b | b in to ensures b in shares && shares[b] == v(b) {
      assert Delivered(s, sys, b, shares[b]);
      DeliveredRight(s, sys, v, w, b, shares[b]);
    }
  }

  // ----- the evaluation that handles the message -----

  lemma FilledLast(inputs: seq<Option<int>>)
    requires inputs != []
    ensures var k := |inputs| - 1; Filled(inputs) == Filled(inputs[..k]) + (if inputs[k].Some? then 1 else 0)
  {
  }

  lemma {:induction false} FilledUpdate(inputs: seq<Option<int>>, i: nat, value: int)
    requires i < |inputs| && inputs[i] == None
    ensures Filled(inputs[i := Some(value)]) == Filled(inputs) + 1
  {
    hide Filled;
    var k := |inputs| - 1;
    var next := inputs[i := Some(value)];
    FilledLast(inputs);
    FilledLast(next);
    if i < k {
      FilledUpdate(inputs[..k], i, value);
      assert next[..k] == inputs[..k][i := Some(value)];
    } else {
      assert next[..k] == inputs[..k];
    }
  }

  lemma {:induction false} FilledPorts(t: Gate, inputs: seq<Option<int>>, ports: set<nat>, shares: map<InAddr, int>)
    requires forall i :: i in ports ==> InAddr(t, i) in shares && i < |inputs| && inputs[i] == None
    ensures Filled(FillPorts(t, inputs, ports, shares)) == Filled(inputs) + |ports|
    decreases |ports|
  {
    hide Filled;
    if ports == {} {
      assert FillPorts(t, inputs, ports, shares) == inputs;
    } else {
      var i :| i in ports;
      var rest := ports - {i};
      var before := FillPorts(t, inputs, rest, shares);
      FilledPorts(t, inputs, rest, shares);
      FilledUpdate(before, i, shares[InAddr(t, i)]);
      assert FillPorts(t, inputs, ports, shares) == before[i := Some(shares[InAddr(t, i)])];
    }
  }

  /** Filling empty ports with the right values keeps the instance in order. */
  lemma CollectedOk(s: Setting, id: Id, x: Instance, inputs: seq<Option<int>>, received: nat, v: Ins, w: Outs)
    requires InstanceOk(s, id, x, v, w) && x.stage == 0 && |inputs| == |x.inputs| && received == Filled(inputs)
    requires forall i :: 0 <= i < |inputs| && inputs[i].Some? ==> inputs[i].value == v(InAddr(id.gate, i))
    ensures InstanceOk(s, id, Collected(x, inputs, received), v, w)
  {
  }

  lemma HandledOk(s: Setting, sys: System, v: Ins, w: Outs, id: Id, m: Message)
    requires ValidSetting(s) && Right(s, sys, v, w, id, m) && InstanceOk(s, id, sys.instances[id], v, w)
    ensures InstanceOk(s, id, Handle(s, id.party, id.gate, sys.instances[id], m), v, w)
  {
    hide WF, ValidSetting, Filled, Resharing, Reshared, LoopbacksNeeded, CircuitOutputs, Awaited, InstanceOk;
    var x := sys.instances[id];
    StageIs(s, id, x, v, w);
    match m
    case CircuitLoopback(port, value) =>
      FilledUpdate(x.inputs, port, value);
      CollectedOk(s, id, x, x.inputs[port := Some(value)], x.received + 1, v, w);
    case EvaluationCompleted(outputs) =>
      ResharedKeys(s, id.gate, outputs, Arity(id.gate.kind));
      SendingOk(s, id, x, v, w, Handle(s, id.party, id.gate, x, m));
    case SharesCompleted(shares) =>
      if x.stage == 0 {
        var ports := Awaited(s, id.party, id.gate, Arity(id.gate.kind));
        FilledPorts(id.gate, x.inputs, ports, shares);
        CollectedOk(s, id, x, FillPorts(id.gate, x.inputs, ports, shares), x.received + |ports|, v, w);
      } else {
        CompletedOk(s, id, x, v, w);
      }
  }

  lemma StageIs(s: Setting, id: Id, x: Instance, v: Ins, w: Outs)
    requires InstanceOk(s, id, x, v, w)
    ensures x.received == Filled(x.inputs) && x.stage <= 2
    ensures forall i :: 0 <= i < |x.inputs| && x.inputs[i].Some? ==> x.inputs[i].value == v(InAddr(id.gate, i))
    ensures x.stage < 2 ==> x.result == map[] && !x.completed && x.started == map[]
  {
    hide Filled, Reshared, CircuitOutputs;
  }

  /** The evaluation has ended: the results are there and the resharings have started. */
  lemma SendingOk(s: Setting, id: Id, x: Instance, v: Ins, w: Outs, y: Instance)
    requires InstanceOk(s, id, x, v, w) && x.stage == 1
    requires y == x.(stage := 2, outputs := GateResults(id.gate, w), result := y.result, completed := y.completed, started := y.started)
    requires y.result == map[] + CircuitOutputs(s, id.gate, GateResults(id.gate, w), Arity(id.gate.kind))
    requires y.started == map[] + Reshared(s, id.gate, GateResults(id.gate, w), Arity(id.gate.kind))
    requires y.started == map[] ==> y.completed
    ensures InstanceOk(s, id, y, v, w)
  {
    hide Filled, Reshared, CircuitOutputs, GateResults;
  }

  lemma CompletedOk(s: Setting, id: Id, x: Instance, v: Ins, w: Outs)
    requires InstanceOk(s, id, x, v, w) && x.stage == 2
    ensures InstanceOk(s, id, x.(completed := true), v, w)
  {
    hide Filled, Reshared, CircuitOutputs;
  }

  // ----- the messages sent -----

  /** Handling m makes the evaluation loop b's value back to its own party. */
  ghost predicate SendsTo(s: Setting, id: Id, x: Instance, m: Message, b: InAddr) {
    && b in s.g.bwd && SourceGate(s, b) == id.gate
    && match m
       case CircuitLoopback(_, _) => false
       case EvaluationCompleted(_) => Direct(s, id.gate, s.g.bwd[b].port)
       case SharesCompleted(_) => x.stage != 0 && Later(s, id.party, id.gate, s.g.bwd[b].port)
  }

  /** The source of a connected input leads to it. */
  lemma SourceLeads(s: Setting, b: InAddr)
    requires WF(s.g) && b in s.g.bwd
    ensures var t, j := SourceGate(s, b), s.g.bwd[b].port;
      t in s.g.gates && j < Arity(t.kind) && Leaves(s, t, j) && Target(s, t, j) == b && s.g.bwd[b] == OutAddr(t, j)
  {
    ConnectedInput(s.g, b);
    hide WF;
  }

  lemma TargetSource(s: Setting, t: Gate, j: nat)
    requires WF(s.g) && Leaves(s, t, j)
    ensures Target(s, t, j) in s.g.bwd && s.g.bwd[Target(s, t, j)] == OutAddr(t, j)
  {
  }

  lemma FlightsAppend(p: Party, sent: seq<Sent>, e: Sent)
    ensures multiset(Flights(p, sent + [e])) == multiset(Flights(p, sent)) + multiset{Flight(p, e.to, e.value)}
  {
    assert Flights(p, sent + [e]) == Flights(p, sent) + [Flight(p, e.to, e.value)];
  }

  /** SendShareStage loops each direct output back once, with its value. */
  lemma {:induction false} SentNowCount(s: Setting, p: Party, t: Gate, outputs: seq<int>, k: nat, f: Flight)
    requires WF(s.g) && k <= Arity(t.kind) == |outputs|
    ensures multiset(Flights(p, SentNow(s, t, outputs, k)))[f] ==
      if f.party == p && f.to in s.g.bwd && NowAt(s, t, outputs, k, f) then 1 else 0
  {
    hide WF, SentNow, Direct;
    if k == 0 {
      NothingSent(s, p, t, outputs);
    } else {
      SentNowCount(s, p, t, outputs, k - 1, f);
      SentNowNext(s, t, outputs, k - 1);
      if Direct(s, t, k - 1) {
        DirectLeaves(s, t, k - 1);
        TargetSource(s, t, k - 1);
        FlightsAppend(p, SentNow(s, t, outputs, k - 1), Sent(Target(s, t, k - 1), outputs[k - 1]));
      }
      if f.to in s.g.bwd { SourceLeads(s, f.to); }
    }
  }

  lemma NothingSent(s: Setting, p: Party, t: Gate, outputs: seq<int>)
    requires Arity(t.kind) == |outputs|
    ensures Flights(p, SentNow(s, t, outputs, 0)) == []
  {
  }

  ghost predicate NowAt(s: Setting, t: Gate, outputs: seq<int>, k: nat, f: Flight)
    requires f.to in s.g.bwd && k <= |outputs|
  {
    var a := s.g.bwd[f.to];
    a.gate == t && a.port < k && Direct(s, t, a.port) && f.value == outputs[a.port]
  }

  lemma SentNowNext(s: Setting, t: Gate, outputs: seq<int>, i: nat)
    requires i < Arity(t.kind) == |outputs|
    ensures Direct(s, t, i) ==> Leaves(s, t, i)
    ensures SentNow(s, t, outputs, i + 1) ==
      if Direct(s, t, i) then SentNow(s, t, outputs, i) + [Sent(Target(s, t, i), outputs[i])] else SentNow(s, t, outputs, i)
  {
  }

  lemma DirectLeaves(s: Setting, t: Gate, j: nat)
    requires Direct(s, t, j)
    ensures Leaves(s, t, j)
  {
  }

  /** A list with distinct targets sends one message to each. */
  lemma {:induction false} DistinctCount(p: Party, sent: seq<Sent>, f: Flight)
    requires forall i, j :: 0 <= i < j < |sent| ==> sent[i].to != sent[j].to
    ensures multiset(Flights(p, sent))[f] == if f.party == p && Sent(f.to, f.value) in sent then 1 else 0
    decreases |sent|
  {
    if sent == [] {
      assert Flights(p, sent) == [];
    } else {
      var init, e := sent[..|sent| - 1], sent[|sent| - 1];
      assert sent == init + [e];
      DistinctCount(p, init, f);
      FlightsAppend(p, init, e);
      forall d | d in init ensures d.to != e.to {
        var i :| 0 <= i < |init| && init[i] == d;
        assert sent[i] == d;
      }
    }
  }

  /** How many copies of a flight the step adds. */
  lemma SentCount(s: Setting, sys: System, v: Ins, w: Outs, st: Step, f: Flight)
    requires ValidSetting(s) && IsEvaluation(s, v, w) && Right(s, sys, v, w, st.id, st.message)
    requires Sends(s, st.id.party, st.id.gate, sys.instances[st.id], st.message, st.sent)
    ensures multiset(Flights(st.id.party, st.sent))[f] ==
      if f.party == st.id.party && SendsTo(s, st.id, sys.instances[st.id], st.message, f.to) && f.value == v(f.to) then 1 else 0
  {
    hide WF, ValidSetting, SentNow, Direct, Later, LoopbacksNeeded, Awaited, Resharing, Filled, IsEvaluation;
    var p, t, x := st.id.party, st.id.gate, sys.instances[st.id];
    assert Flights(p, []) == [];
    if f.to in s.g.bwd { EvaluationAt(s, v, w, f.to); }
    match st.message
    case CircuitLoopback(_, _) =>
    case EvaluationCompleted(outputs) =>
      SentNowCount(s, p, t, outputs, Arity(t.kind), f);
      if f.to in s.g.bwd { SourceLeads(s, f.to); }
    case SharesCompleted(shares) =>
      if x.stage != 0 {
        DistinctCount(p, st.sent, f);
        NeededIff(s, p, t, f.to);
      }
  }

  lemma EvaluationAt(s: Setting, v: Ins, w: Outs, b: InAddr)
    requires IsEvaluation(s, v, w) && b in s.g.bwd
    ensures v(b) == w(s.g.bwd[b])
  {
  }

  lemma NeededIff(s: Setting, p: Party, t: Gate, b: InAddr)
    requires WF(s.g)
    ensures b in LoopbacksNeeded(s, p, t, Arity(t.kind)) <==>
      b in s.g.bwd && SourceGate(s, b) == t && Later(s, p, t, s.g.bwd[b].port)
  {
    hide WF, Target, TargetQuorum;
    var k := Arity(t.kind);
    if b in LoopbacksNeeded(s, p, t, k) {
      var j: nat :| j < k && Later(s, p, t, j) && Target(s, t, j) == b;
      TargetSource(s, t, j);
    }
    if b in s.g.bwd && SourceGate(s, b) == t && Later(s, p, t, s.g.bwd[b].port) {
      SourceLeads(s, b);
    }
  }

  // ----- every port after the step -----

  lemma HandledInput(s: Setting, id: Id, x: Instance, m: Message, i: nat)
    requires WF(s.g) && s.quorum.Keys == s.g.gates && Expects(s, id.party, id.gate, x, m) && i < |x.inputs|
    ensures var y := Handle(s, id.party, id.gate, x, m);
      |y.inputs| == |x.inputs| &&
      y.inputs[i] ==
        match m
        case CircuitLoopback(port, value) => if i == port then Some(value) else x.inputs[i]
        case EvaluationCompleted(_) => x.inputs[i]
        case SharesCompleted(shares) =>
          if x.stage == 0 && i in Awaited(s, id.party, id.gate, Arity(id.gate.kind)) then Some(shares[InAddr(id.gate, i)])
          else x.inputs[i]
  {
    hide WF, Awaited, LoopbacksNeeded, Resharing, CircuitOutputs;
  }

  lemma FlyingAfter(s: Setting, sys: System, v: Ins, w: Outs, st: Step, sys': System, f: Flight)
    requires ValidSetting(s) && IsEvaluation(s, v, w) && Right(s, sys, v, w, st.id, st.message) && Next(s, sys, st, sys')
    ensures sys'.flying[f] ==
      sys.flying[f] - Arrived(st.id, st.message)[f] +
      (if f.party == st.id.party && SendsTo(s, st.id, sys.instances[st.id], st.message, f.to) && f.value == v(f.to) then 1 else 0)
  {
    hide WF, ValidSetting, Right, Sends, Expects, Handle, IsEvaluation, SendsTo;
    SentCount(s, sys, v, w, st, f);
  }

  /** Exactly the loopbacks that the step sends count as newly sent. */
  lemma SentChange(s: Setting, sys: System, v: Ins, w: Outs, st: Step, sys': System, p: Party, b: InAddr)
    requires ValidSetting(s) && Right(s, sys, v, w, st.id, st.message) && Next(s, sys, st, sys')
    requires InstanceOk(s, st.id, sys.instances[st.id], v, w)
    requires b in s.g.bwd && p in s.quorum[SourceGate(s, b)].members && IsId(s, Id(p, b.gate))
    requires Id(p, SourceGate(s, b)) in sys.instances
    ensures var sends := p == st.id.party && SendsTo(s, st.id, sys.instances[st.id], st.message, b);
      (HasSent(s, sys', p, b) <==> HasSent(s, sys, p, b) || sends) && (sends ==> !HasSent(s, sys, p, b))
  {
    hide WF, ValidSetting, Sends, Resharing, CircuitOutputs, LoopbacksNeeded, Awaited, Filled, CanArrive;
    assert WF(s.g) by { SettingFacts(s); }
    SourceLeads(s, b);
    if SourceGate(s, b) == st.id.gate && p == st.id.party {
      var x := sys.instances[st.id];
      var j := s.g.bwd[b].port;
      assert Id(p, SourceGate(s, b)) == st.id;
      assert Direct(s, st.id.gate, j) || Later(s, p, st.id.gate, j);
      if Later(s, p, st.id.gate, j) { ResharingNonempty(s, st.id.gate, j); }
    }
  }

  lemma ResharingNonempty(s: Setting, t: Gate, j: nat)
    requires Reshares(s, t, j)
    ensures Resharing(s, t, Arity(t.kind)) != {}
  {
    hide TargetQuorum;
    assert Target(s, t, j) in Resharing(s, t, Arity(t.kind));
  }

  lemma PortAfter(s: Setting, sys: System, v: Ins, w: Outs, st: Step, sys': System, id: Id, i: nat)
    requires Inv(s, sys, v, w) && ValidSetting(s) && IsEvaluation(s, v, w) && Right(s, sys, v, w, st.id, st.message)
    requires Next(s, sys, st, sys') && id in sys.instances && i < Arity(id.gate.kind)
    ensures WF(s.g) && s.quorum.Keys == s.g.gates && id in sys'.instances && i < |sys'.instances[id].inputs|
    ensures PortOk(s, sys', id, i, v)
  {
    hide WF, Inv, ValidSetting, Right, Sends, HasSent, InstanceOk, IsEvaluation, SendsTo, Handle, CanArrive, Expects, ByReshare;
    InstanceAt(s, sys, v, w, st.id);
    PortAt(s, sys, v, w, id, i);
    InputAfter(s, sys, v, w, st, sys', id, i);
    var b := InAddr(id.gate, i);
    var f := Flight(id.party, b, v(b));
    FlyingAfter(s, sys, v, w, st, sys', f);
    ArrivedAt(s, sys, v, w, st, id, i);
    if b in s.g.bwd && ByReshare(s, id.party, b) {
      NoSendToReshared(s, st.id, sys.instances[st.id], st.message, id.party, b);
    } else if b in s.g.bwd {
      LoopPort(s, sys, v, w, id, b);
      SentChange(s, sys, v, w, st, sys', id.party, b);
    } else {
      NoSendElsewhere(s, st.id, sys.instances[st.id], st.message, b);
    }
  }

  lemma NoSendElsewhere(s: Setting, id: Id, x: Instance, m: Message, b: InAddr)
    requires b !in s.g.bwd
    ensures !SendsTo(s, id, x, m, b)
  {
  }

  lemma NoSendToReshared(s: Setting, id: Id, x: Instance, m: Message, p: Party, b: InAddr)
    requires WF(s.g) && s.quorum.Keys == s.g.gates && ByReshare(s, p, b) && IsId(s, id)
    ensures !(p == id.party && SendsTo(s, id, x, m, b))
  {
    hide WF, Direct, Later;
  }

  lemma LoopPort(s: Setting, sys: System, v: Ins, w: Outs, id: Id, b: InAddr)
    requires Inv(s, sys, v, w) && WF(s.g) && s.quorum.Keys == s.g.gates
    requires id in sys.instances && b in s.g.bwd && b.gate == id.gate && !ByReshare(s, id.party, b)
    ensures SourceGate(s, b) in s.quorum && id.party in s.quorum[SourceGate(s, b)].members
    ensures Id(id.party, SourceGate(s, b)) in sys.instances && IsId(s, Id(id.party, b.gate))
  {
    hide WF, PortOk, InstanceOk, FlightOk;
    SourceLeads(s, b);
  }

  /** The input of a port after the step. */
  ghost predicate TakesLoopback(st: Step, id: Id, i: nat) {
    st.id == id && st.message.CircuitLoopback? && st.message.port == i
  }

  ghost predicate TakesShares(s: Setting, sys: System, st: Step, id: Id, i: nat)
    requires WF(s.g) && s.quorum.Keys == s.g.gates
  {
    st.id == id && st.message.SharesCompleted? && id in sys.receiving && ByReshare(s, id.party, InAddr(id.gate, i))
  }

  lemma InputAfter(s: Setting, sys: System, v: Ins, w: Outs, st: Step, sys': System, id: Id, i: nat)
    requires ValidSetting(s) && Right(s, sys, v, w, st.id, st.message) && Next(s, sys, st, sys')
    requires WF(s.g) && s.quorum.Keys == s.g.gates
    requires id in sys.instances && i < Arity(id.gate.kind) == |sys.instances[id].inputs|
    ensures id in sys'.instances && |sys'.instances[id].inputs| == |sys.instances[id].inputs|
    ensures sys'.instances[id].inputs[i] ==
      if TakesLoopback(st, id, i) || TakesShares(s, sys, st, id, i) then Some(v(InAddr(id.gate, i)))
      else sys.instances[id].inputs[i]
    ensures st.id != id ==> (id in sys'.receiving <==> id in sys.receiving)
    ensures st.id == id ==> (id in sys'.receiving <==> id in sys.receiving && !st.message.SharesCompleted?)
    ensures TakesLoopback(st, id, i) ==> InAddr(id.gate, i) in s.g.bwd && sys.instances[id].inputs[i] == None
  {
    hide WF, ValidSetting, Sends, CanArrive, LoopbacksNeeded, Handle;
    if st.id == id {
      HandledInput(s, id, sys.instances[id], st.message, i);
    }
  }

  /** Which flight arrives. */
  lemma ArrivedAt(s: Setting, sys: System, v: Ins, w: Outs, st: Step, id: Id, i: nat)
    requires ValidSetting(s) && Right(s, sys, v, w, st.id, st.message) && CanArrive(s, sys, st.id, st.message)
    ensures var f := Flight(id.party, InAddr(id.gate, i), v(InAddr(id.gate, i)));
      Arrived(st.id, st.message)[f] == (if TakesLoopback(st, id, i) then 1 else 0) &&
      (TakesLoopback(st, id, i) ==> sys.flying[f] >= 1)
  {
    hide WF, ValidSetting, LoopbacksNeeded, Awaited, AllDelivered, Evaluated;
  }

  lemma FlightAfter(s: Setting, sys: System, v: Ins, w: Outs, st: Step, sys': System, f: Flight)
    requires Inv(s, sys, v, w) && ValidSetting(s) && IsEvaluation(s, v, w) && Right(s, sys, v, w, st.id, st.message)
    requires Next(s, sys, st, sys') && f in sys'.flying
    ensures FlightOk(s, f, v)
  {
    hide WF, Inv, ValidSetting, Right, Sends, IsEvaluation, SendsTo, Handle, CanArrive, Expects, FlightOk;
    assert WF(s.g) && s.quorum.Keys == s.g.gates by { InvParts(s, sys, v, w); }
    FlyingAfter(s, sys, v, w, st, sys', f);
    InstanceAt(s, sys, v, w, st.id);
    if f in sys.flying {
      FlightAt(s, sys, v, w, f);
    } else {
      SentFlightOk(s, st.id, sys.instances[st.id], st.message, f, v);
    }
  }

  lemma SentFlightOk(s: Setting, id: Id, x: Instance, m: Message, f: Flight, v: Ins)
    requires WF(s.g) && s.quorum.Keys == s.g.gates && IsIdOf(s, id, f.party) && SendsTo(s, id, x, m, f.to) && f.value == v(f.to)
    ensures FlightOk(s, f, v)
  {
    hide WF;
    SourceLeads(s, f.to);
    ConnectedInput(s.g, f.to);
  }

  ghost predicate IsIdOf(s: Setting, id: Id, p: Party) {
    IsId(s, id) && id.party == p
  }

  lemma InputCount(s: Setting, id: Id, x: Instance, v: Ins, w: Outs)
    requires InstanceOk(s, id, x, v, w)
    ensures |x.inputs| == Arity(id.gate.kind)
  {
  }

  /** Every step keeps the invariant. */
  lemma NextOk(s: Setting, sys: System, v: Ins, w: Outs, st: Step, sys': System)
    requires Inv(s, sys, v, w) && ValidSetting(s) && IsEvaluation(s, v, w) && Next(s, sys, st, sys')
    ensures Inv(s, sys', v, w)
  {
    hide WF, ValidSetting, Right, Sends, IsEvaluation, SendsTo, Handle, CanArrive, Expects, FlightOk, InstanceOk, PortOk;
    SettingFacts(s);
    ArrivesRight(s, sys, v, w, st.id, st.message);
    forall id | id in sys'.instances
      ensures InstanceOk(s, id, sys'.instances[id], v, w) && |sys'.instances[id].inputs| == Arity(id.gate.kind)
    {
      if id == st.id { HandledOk(s, sys, v, w, id, st.message); }
      InputCount(s, id, sys'.instances[id], v, w);
    }
    forall id, i: nat | id in sys'.instances && i < Arity(id.gate.kind) ensures PortOk(s, sys', id, i, v) {
      PortAfter(s, sys, v, w, st, sys', id, i);
    }
    forall f | f in sys'.flying ensures FlightOk(s, f, v) {
      FlightAfter(s, sys, v, w, st, sys', f);
    }
  }

  // ----- whole runs -----

  ghost predicate IsRun(s: Setting, states: seq<System>, steps: seq<Step>)
    requires ValidSetting(s)
  {
    && |states| == |steps| + 1 && Init(s, states[0])
    && forall k, next :: 0 <= k < |steps| && next == k + 1 ==> Next(s, states[k], steps[k], states[next])
  }

  lemma {:induction false} RunOk(s: Setting, states: seq<System>, steps: seq<Step>, v: Ins, w: Outs, k: nat)
    requires ValidSetting(s) && IsRun(s, states, steps) && IsEvaluation(s, v, w) && k < |states|
    ensures Inv(s, states[k], v, w)
  {
    hide ValidSetting, Init, Next, Inv, IsEvaluation;
    if k == 0 {
      InitOk(s, states[0], v, w);
    } else {
      RunOk(s, states, steps, v, w, k - 1);
      assert Next(s, states[k - 1], steps[k - 1], states[k]);
      NextOk(s, states[k - 1], v, w, steps[k - 1], states[k]);
    }
  }

  /** What is still to be done for one gate at one party. */
  function Weight(x: Instance): int {
    (|x.inputs| - Filled(x.inputs)) + (2 - x.stage) + (if x.completed then 0 else 1)
  }

  ghost function Total(m: map<Id, Instance>, ids: set<Id>): int
    requires ids <= m.Keys
  {
    if ids == {} then 0
    else
      var id :| id in ids;
      Weight(m[id]) + Total(m, ids - {id})
  }

  lemma {:induction false} TotalSplit(m: map<Id, Instance>, ids: set<Id>, id: Id)
    requires id in ids && ids <= m.Keys
    ensures Total(m, ids) == Weight(m[id]) + Total(m, ids - {id})
    decreases |ids|
  {
    hide Weight;
    var pick :| pick in ids && Total(m, ids) == Weight(m[pick]) + Total(m, ids - {pick});
    if pick != id {
      TotalSplit(m, ids - {pick}, id);
      TotalSplit(m, ids - {id}, pick);
      assert ids - {pick} - {id} == ids - {id} - {pick};
    }
  }

  lemma {:induction false} TotalSame(m: map<Id, Instance>, m': map<Id, Instance>, ids: set<Id>)
    requires ids <= m.Keys && ids <= m'.Keys && forall id :: id in ids ==> m[id] == m'[id]
    ensures Total(m, ids) == Total(m', ids)
    decreases |ids|
  {
    hide Weight;
    if ids != {} {
      var id :| id in ids;
      TotalSplit(m, ids, id);
      TotalSplit(m', ids, id);
      TotalSame(m, m', ids - {id});
    }
  }

  /** Every step does some of the work. */
  lemma NextProgress(s: Setting, sys: System, v: Ins, w: Outs, st: Step, sys': System)
    requires Inv(s, sys, v, w) && ValidSetting(s) && IsEvaluation(s, v, w) && Next(s, sys, st, sys')
    ensures sys'.instances.Keys == sys.instances.Keys
    ensures Total(sys'.instances, sys'.instances.Keys) < Total(sys.instances, sys.instances.Keys)
  {
    hide WF, ValidSetting, Right, Sends, IsEvaluation, SendsTo, Handle, CanArrive, Expects, Inv, Total, Weight;
    ArrivesRight(s, sys, v, w, st.id, st.message);
    HandledLess(s, sys, v, w, st.id, st.message);
    var ids := sys.instances.Keys;
    assert sys'.instances.Keys == ids;
    TotalSplit(sys.instances, ids, st.id);
    TotalSplit(sys'.instances, ids, st.id);
    TotalSame(sys.instances, sys'.instances, ids - {st.id});
  }

  lemma HandledLess(s: Setting, sys: System, v: Ins, w: Outs, id: Id, m: Message)
    requires Inv(s, sys, v, w) && ValidSetting(s) && Right(s, sys, v, w, id, m)
    ensures Weight(Handle(s, id.party, id.gate, sys.instances[id], m)) < Weight(sys.instances[id])
  {
    hide WF, ValidSetting, Filled, Resharing, LoopbacksNeeded, CircuitOutputs, Awaited, Inv, StageOk;
    InstanceAt(s, sys, v, w, id);
    var x := sys.instances[id];
    match m
    case CircuitLoopback(port, value) =>
      FilledUpdate(x.inputs, port, value);
    case EvaluationCompleted(outputs) =>
    case SharesCompleted(shares) =>
      if x.stage == 0 {
        var ports := Awaited(s, id.party, id.gate, Arity(id.gate.kind));
        FilledPorts(id.gate, x.inputs, ports, shares);
        ReceivingAwaits(s, sys, v, w, id);
      } else {
        SecondStage(s, sys, v, w, id, m);
      }
  }

  lemma ReceivingAwaits(s: Setting, sys: System, v: Ins, w: Outs, id: Id)
    requires Inv(s, sys, v, w) && id in sys.receiving && WF(s.g) && s.quorum.Keys == s.g.gates
    ensures Awaited(s, id.party, id.gate, Arity(id.gate.kind)) != {}
  {
    hide WF, PortOk, InstanceOk, FlightOk, Awaited;
    assert Receives(s, id);
  }

  lemma SecondStage(s: Setting, sys: System, v: Ins, w: Outs, id: Id, m: Message)
    requires ValidSetting(s) && Right(s, sys, v, w, id, m) && m.SharesCompleted? && sys.instances[id].stage != 0
    ensures !sys.instances[id].completed && sys.instances[id].stage == 2
  {
    hide WF, ValidSetting, LoopbacksNeeded, Awaited;
  }

  lemma {:induction false} TotalNatural(m: map<Id, Instance>, ids: set<Id>)
    requires ids <= m.Keys && forall id :: id in ids ==> m[id].stage <= 2
    ensures Total(m, ids) >= 0
    decreases |ids|
  {
    if ids != {} {
      var id :| id in ids;
      TotalSplit(m, ids, id);
      TotalNatural(m, ids - {id});
    }
  }

  // ----- some step can be taken until everything is done -----

  ghost predicate AllCompleted(sys: System) {
    forall id :: id in sys.instances ==> sys.instances[id].completed
  }

  ghost predicate Done(sys: System, t: Gate) {
    forall id :: id in sys.instances && id.gate == t ==> sys.instances[id].completed
  }

  /** A gate that is not done, all of whose sources are. */
  lemma {:induction false} FirstUndone(s: Setting, sys: System, v: Ins, w: Outs, rank: Gate -> nat, t: Gate) returns (u: Gate)
    requires ValidSetting(s) && Ranked(s.g, rank) && !Done(sys, t)
    ensures !Done(sys, u)
    ensures forall b :: b in s.g.bwd && b.gate == u ==> Done(sys, SourceGate(s, b))
    decreases rank(t)
  {
    hide WF, Done;
    if b :| b in s.g.bwd && b.gate == t && !Done(sys, SourceGate(s, b)) {
      u := FirstUndone(s, sys, v, w, rank, SourceGate(s, b));
    } else {
      u := t;
    }
  }

  lemma DoneStage(s: Setting, sys: System, v: Ins, w: Outs, q: Party, t: Gate)
    requires Inv(s, sys, v, w) && Done(sys, t) && t in s.quorum && q in s.quorum[t].members
    ensures Id(q, t) in sys.instances && sys.instances[Id(q, t)].completed && sys.instances[Id(q, t)].stage == 2
    ensures sys.instances[Id(q, t)].outputs == GateResults(t, w)
  {
    hide WF, PortOk, FlightOk, Resharing, CircuitOutputs, Filled;
    assert IsId(s, Id(q, t));
    InstanceAt(s, sys, v, w, Id(q, t));
  }

  /** The connection to b leads from one quorum to another. */
  ghost predicate Crosses(s: Setting, b: InAddr)
    requires b in s.g.bwd
  {
    SourceGate(s, b) in s.quorum && b.gate in s.quorum && s.quorum[SourceGate(s, b)] != s.quorum[b.gate]
  }

  /** A member that is sending has started the resharings of exactly the outputs to other quorums. */
  lemma CrossingStarted(s: Setting, sys: System, v: Ins, w: Outs, id: Id, b: InAddr)
    requires Inv(s, sys, v, w) && id in sys.instances && sys.instances[id].stage == 2
    requires b in s.g.bwd && SourceGate(s, b) == id.gate
    ensures b in sys.instances[id].started <==> Crosses(s, b)
  {
    hide Inv, WF, CircuitOutputs, Filled;
    InvParts(s, sys, v, w);
    InstanceAt(s, sys, v, w, id);
    SourceLeads(s, b);
    var t, k := id.gate, Arity(id.gate.kind);
    if b in Resharing(s, t, k) {
      var j: nat :| j < k && Reshares(s, t, j) && Target(s, t, j) == b;
      TargetSource(s, t, j);
      TargetPort(s, t, j);
    }
    TargetPort(s, t, s.g.bwd[b].port);
  }

  /** When its source gate is done, a resharing delivers its value. */
  lemma DeliveredWhenDone(s: Setting, sys: System, v: Ins, w: Outs, b: InAddr)
    requires Inv(s, sys, v, w) && ValidSetting(s) && IsEvaluation(s, v, w)
    requires b in s.g.bwd && Done(sys, SourceGate(s, b)) && Crosses(s, b)
    ensures Delivered(s, sys, b, v(b))
  {
    hide WF, Inv, Done, IsEvaluation, ValidSetting, Crosses;
    SettingFacts(s);
    SourceLeads(s, b);
    EvaluationAt(s, v, w, b);
    var t := SourceGate(s, b);
    forall q | q in s.quorum[t].members ensures HasStarted(sys, Id(q, t), b) {
      DoneStage(s, sys, v, w, q, t);
      CrossingStarted(s, sys, v, w, Id(q, t), b);
    }
    var q := SomeMember(s, t);
    DoneStage(s, sys, v, w, q, t);
    ShareIs(s, sys, v, w, Id(q, t), b);
  }

  lemma SomeMember(s: Setting, t: Gate) returns (q: Party)
    requires ValidSetting(s) && t in s.g.gates
    ensures t in s.quorum && q in s.quorum[t].members
  {
    hide WF;
    q :| q in s.quorum[t].members;
  }

  /** With every source done and no loopback on its way, only reshared ports can be empty. */
  lemma EmptyPortReceives(s: Setting, sys: System, v: Ins, w: Outs, id: Id)
    requires Inv(s, sys, v, w) && ValidSetting(s) && id in sys.instances && sys.instances[id].stage == 0
    requires sys.flying == multiset{}
    requires forall b :: b in s.g.bwd && b.gate == id.gate ==> Done(sys, SourceGate(s, b))
    ensures id in sys.receiving
  {
    hide WF, Inv, Done, ValidSetting, StageOk;
    SettingFacts(s);
    InstanceAt(s, sys, v, w, id);
    var x := sys.instances[id];
    var i :| 0 <= i < |x.inputs| && x.inputs[i].None?;
    PortAt(s, sys, v, w, id, i);
    var b := InAddr(id.gate, i);
    if b in s.g.bwd && !ByReshare(s, id.party, b) {
      LoopPort(s, sys, v, w, id, b);
      DoneStage(s, sys, v, w, id.party, SourceGate(s, b));
    }
  }

  /** In every reachable state that is not final, some message can arrive. */
  lemma SomethingArrives(s: Setting, sys: System, v: Ins, w: Outs) returns (id: Id, m: Message)
    requires Inv(s, sys, v, w) && ValidSetting(s) && IsEvaluation(s, v, w) && Acyclic(s.g)
    requires !AllCompleted(sys)
    ensures CanArrive(s, sys, id, m)
  {
    if sys.flying != multiset{} {
      hide *;
      id, m := LoopbackArrives(s, sys, v, w);
    } else {
      var rank: Gate -> nat :| Ranked(s.g, rank);
      var undone: Id :| undone in sys.instances && !sys.instances[undone].completed;
      assert !Done(sys, undone.gate);
      hide *;
      var t := FirstUndone(s, sys, v, w, rank, undone.gate);
      id, m := BatchArrives(s, sys, v, w, t);
    }
  }

  lemma LoopbackArrives(s: Setting, sys: System, v: Ins, w: Outs) returns (id: Id, m: Message)
    requires Inv(s, sys, v, w) && ValidSetting(s) && sys.flying != multiset{}
    ensures CanArrive(s, sys, id, m)
  {
    hide WF, Inv, ValidSetting, FlightOk;
    var f :| f in sys.flying;
    id, m := Id(f.party, f.to.gate), CircuitLoopback(f.to.port, f.value);
    assert f == Flight(id.party, InAddr(id.gate, m.port), m.value);
  }

  lemma BatchArrives(s: Setting, sys: System, v: Ins, w: Outs, t: Gate) returns (id: Id, m: Message)
    requires Inv(s, sys, v, w) && ValidSetting(s) && IsEvaluation(s, v, w) && sys.flying == multiset{}
    requires !Done(sys, t) && forall b :: b in s.g.bwd && b.gate == t ==> Done(sys, SourceGate(s, b))
    ensures CanArrive(s, sys, id, m)
  {
    hide *;
    var some := UndoneId(sys, t);
    if q: Party :| Id(q, t) in sys.instances && sys.instances[Id(q, t)].stage == 0 {
      id := Id(q, t);
      EmptyPortReceives(s, sys, v, w, id);
      m := ReceivedShares(s, sys, v, w, id);
    } else if q: Party :| Id(q, t) in sys.instances && sys.instances[Id(q, t)].stage == 1 {
      id := Id(q, t);
      m := EvaluationEnds(s, sys, v, w, id);
    } else {
      id := some;
      assert id == Id(id.party, t);
      m := ResharingEnds(s, sys, v, w, id);
    }
  }

  lemma UndoneId(sys: System, t: Gate) returns (id: Id)
    requires !Done(sys, t)
    ensures id in sys.instances && id.gate == t && !sys.instances[id].completed
  {
    id :| id in sys.instances && id.gate == t && !sys.instances[id].completed;
  }

  lemma AwaitedCrosses(s: Setting, sys: System, v: Ins, w: Outs, id: Id, b: InAddr)
    requires Inv(s, sys, v, w) && id in sys.receiving && WF(s.g) && s.quorum.Keys == s.g.gates && b in AwaitedPorts(s, id)
    ensures b in s.g.bwd && b.gate == id.gate && Crosses(s, b)
  {
    hide WF, Inv;
    ReceivingStage(s, sys, v, w, id);
    InstanceAt(s, sys, v, w, id);
    var i :| i in Awaited(s, id.party, id.gate, Arity(id.gate.kind)) && InAddr(id.gate, i) == b;
    assert ByReshare(s, id.party, b);
  }

  lemma ReceivedShares(s: Setting, sys: System, v: Ins, w: Outs, id: Id) returns (m: Message)
    requires Inv(s, sys, v, w) && ValidSetting(s) && IsEvaluation(s, v, w) && id in sys.receiving
    requires forall b :: b in s.g.bwd && b.gate == id.gate ==> Done(sys, SourceGate(s, b))
    ensures CanArrive(s, sys, id, m)
  {
    hide WF, Inv, ValidSetting, IsEvaluation, Done, Delivered;
    InvParts(s, sys, v, w);
    var to := AwaitedPorts(s, id);
    m := SharesCompleted(map b | b in to :: v(b));
    forall b | b in to ensures b in m.shares && Delivered(s, sys, b, m.shares[b]) {
      AwaitedCrosses(s, sys, v, w, id, b);
      DeliveredWhenDone(s, sys, v, w, b);
    }
  }

  lemma EvaluationEnds(s: Setting, sys: System, v: Ins, w: Outs, id: Id) returns (m: Message)
    requires Inv(s, sys, v, w) && ValidSetting(s) && id in sys.instances && sys.instances[id].stage == 1
    requires forall q: Party :: Id(q, id.gate) in sys.instances ==> sys.instances[Id(q, id.gate)].stage >= 1
    ensures CanArrive(s, sys, id, m)
  {
    hide WF, Inv, ValidSetting, StageOk, Filled, GateOutputs, Values;
    InstanceAt(s, sys, v, w, id);
    assert WellFormedKind(id.gate.kind) by { KindFits(s, id.gate); }
    var outputs := GateOutputs(id.gate, Values(sys.instances[id].inputs));
    m := EvaluationCompleted(outputs);
    forall q | q in s.quorum[id.gate].members ensures AtStage(sys, Id(q, id.gate), 1) {
      MemberRuns(s, sys, v, w, Id(q, id.gate));
    }
    assert EvaluatedFrom(sys, Id(id.party, id.gate), outputs);
  }

  lemma MemberRuns(s: Setting, sys: System, v: Ins, w: Outs, id: Id)
    requires Inv(s, sys, v, w) && IsId(s, id)
    ensures id in sys.instances
  {
    hide WF, PortOk, InstanceOk, FlightOk;
  }

  lemma ResharingEnds(s: Setting, sys: System, v: Ins, w: Outs, id: Id) returns (m: Message)
    requires Inv(s, sys, v, w) && ValidSetting(s) && IsEvaluation(s, v, w)
    requires id in sys.instances && !sys.instances[id].completed
    requires forall q: Party :: Id(q, id.gate) in sys.instances ==> sys.instances[Id(q, id.gate)].stage >= 2
    ensures CanArrive(s, sys, id, m)
  {
    hide WF, Inv, ValidSetting, IsEvaluation, Delivered, Resharing, Filled, CircuitOutputs;
    InvParts(s, sys, v, w);
    InstanceAt(s, sys, v, w, id);
    assert id == Id(id.party, id.gate);
    if id in sys.receiving { ReceivingStage(s, sys, v, w, id); }
    var to := sys.instances[id].started.Keys;
    assert sys.instances[id].started != map[];
    m := SharesCompleted(map b | b in to :: v(b));
    forall b | b in to ensures b in m.shares && Delivered(s, sys, b, m.shares[b]) {
      ResharedByQuorum(s, sys, v, w, id, b);
    }
  }

  lemma ResharedByQuorum(s: Setting, sys: System, v: Ins, w: Outs, id: Id, b: InAddr)
    requires Inv(s, sys, v, w) && ValidSetting(s) && IsEvaluation(s, v, w) && id in sys.instances
    requires b in Resharing(s, id.gate, Arity(id.gate.kind))
    requires forall q: Party :: Id(q, id.gate) in sys.instances ==> sys.instances[Id(q, id.gate)].stage >= 2
    ensures Delivered(s, sys, b, v(b))
  {
    hide WF, Inv, ValidSetting, IsEvaluation, Filled, CircuitOutputs, Target, TargetQuorum;
    SettingFacts(s);
    InstanceAt(s, sys, v, w, id);
    var t := id.gate;
    var j: nat :| j < Arity(t.kind) && Reshares(s, t, j) && Target(s, t, j) == b;
    TargetSource(s, t, j);
    EvaluationAt(s, v, w, b);
    forall q | q in s.quorum[t].members ensures HasStarted(sys, Id(q, t), b) {
      MemberRuns(s, sys, v, w, Id(q, t));
      InstanceAt(s, sys, v, w, Id(q, t));
    }
    assert id == Id(id.party, t);
    ShareIs(s, sys, v, w, id, b);
  }

  // ----- the sequential evaluation -----

  /** Value of an input port: what its source computes, or the circuit input. */
  ghost function InValue(s: Setting, rank: Gate -> nat, b: InAddr): int
    requires WF(s.g) && Ranked(s.g, rank)
    decreases rank(b.gate), 0
  {
    if b in s.g.bwd then
      ConnectedInput(s.g, b);
      OutValue(s, rank, s.g.bwd[b])
    else if b in s.circuitInputs then s.circuitInputs[b] else 0
  }

  ghost function OutValue(s: Setting, rank: Gate -> nat, a: OutAddr): int
    requires WF(s.g) && Ranked(s.g, rank) && HasOut(s.g, a)
    decreases rank(a.gate), 1
  {
    var x := seq(Arity(a.gate.kind), i requires 0 <= i < Arity(a.gate.kind) => InValue(s, rank, InAddr(a.gate, i)));
    Output(a.gate.kind, x, a.port)
  }

  ghost function SequentialIns(s: Setting, rank: Gate -> nat): Ins
    requires WF(s.g) && Ranked(s.g, rank)
  {
    b => InValue(s, rank, b)
  }

  ghost function SequentialOuts(s: Setting, rank: Gate -> nat): Outs
    requires WF(s.g) && Ranked(s.g, rank)
  {
    a => if HasOut(s.g, a) then OutValue(s, rank, a) else 0
  }

  /** Evaluating the gates in a topological order gives an evaluation of the circuit. */
  lemma SequentialEvaluation(s: Setting, rank: Gate -> nat)
    requires ValidSetting(s) && Ranked(s.g, rank)
    ensures IsEvaluation(s, SequentialIns(s, rank), SequentialOuts(s, rank))
  {
    SettingFacts(s);
    hide ValidSetting, WF, Ranked;
    var v, w := SequentialIns(s, rank), SequentialOuts(s, rank);
    forall b | b in s.circuitInputs ensures v(b) == s.circuitInputs[b] {
      UnconnectedInput(s.g, b);
    }
    forall b | b in s.g.bwd ensures v(b) == w(s.g.bwd[b]) {
      ConnectedInput(s.g, b);
    }
    forall t | t in s.g.gates ensures GateHolds(t, v, w) {
      SequentialGate(s, rank, t);
    }
  }

  lemma UnconnectedInput(g: Graph, b: InAddr)
    requires WF(g) && b in g.ins
    ensures b !in g.bwd
  {
  }

  lemma SequentialGate(s: Setting, rank: Gate -> nat, t: Gate)
    requires ValidSetting(s) && WF(s.g) && Ranked(s.g, rank) && t in s.g.gates
    ensures GateHolds(t, SequentialIns(s, rank), SequentialOuts(s, rank))
  {
    KindFits(s, t);
    hide ValidSetting, WF, Ranked, WellFormedKind, InValue;
    var v, w := SequentialIns(s, rank), SequentialOuts(s, rank);
    forall j | 0 <= j < Arity(t.kind) ensures w(OutAddr(t, j)) == Output(t.kind, GateInputs(t, v), j) {
      var a := OutAddr(t, j);
      var x := seq(Arity(t.kind), i requires 0 <= i < Arity(t.kind) => InValue(s, rank, InAddr(t, i)));
      assert x == GateInputs(t, v);
      assert OutValue(s, rank, a) == Output(t.kind, x, j);
    }
  }

  // ----- the theorems -----

  /** In every run, in whatever order messages arrive: a message that can arrive is accepted, a gate
      is only evaluated with all its inputs there, and these are the sequential ones; a gate that
      has been evaluated has the sequential outputs, and is done for good. */
  lemma EveryRunIsSequential(s: Setting, states: seq<System>, steps: seq<Step>, rank: Gate -> nat, k: nat, id: Id)
    requires ValidSetting(s) && IsRun(s, states, steps) && Ranked(s.g, rank) && k < |states| && id in states[k].instances
    ensures forall m :: CanArrive(s, states[k], id, m) ==> Accepts(s, states[k], id, m)
    ensures var x := states[k].instances[id];
      |x.inputs| == Arity(id.gate.kind) && x.stage <= 2 &&
      (x.stage >= 1 ==> forall i :: 0 <= i < |x.inputs| ==>
        x.inputs[i] == Some(SequentialIns(s, rank)(InAddr(id.gate, i)))) &&
      (x.stage == 2 ==> x.outputs == GateResults(id.gate, SequentialOuts(s, rank)))
  {
    var v, w := SequentialIns(s, rank), SequentialOuts(s, rank);
    hide ValidSetting, IsRun, Ranked, WF, Inv, IsEvaluation, CanArrive, Accepts, Resharing, CircuitOutputs, SequentialIns, SequentialOuts;
    SequentialEvaluation(s, rank);
    RunOk(s, states, steps, v, w, k);
    forall m | CanArrive(s, states[k], id, m) ensures Accepts(s, states[k], id, m) {
      Accepted(s, states[k], v, w, id, m);
    }
    InstanceAt(s, states[k], v, w, id);
  }

  lemma HandleStage(s: Setting, id: Id, x: Instance, m: Message)
    requires WF(s.g) && s.quorum.Keys == s.g.gates && Expects(s, id.party, id.gate, x, m) && x.stage <= 2
    ensures Handle(s, id.party, id.gate, x, m).stage >= x.stage
  {
    hide WF, Awaited, LoopbacksNeeded, Resharing, CircuitOutputs, FillPorts;
  }

  lemma {:induction false} StageStays(s: Setting, states: seq<System>, steps: seq<Step>, rank: Gate -> nat, k: nat, l: nat, id: Id)
    requires ValidSetting(s) && IsRun(s, states, steps) && Ranked(s.g, rank) && k <= l < |states|
    requires id in states[k].instances
    ensures id in states[l].instances && states[l].instances[id].stage >= states[k].instances[id].stage
    decreases l
  {
    hide ValidSetting, WF, Ranked, Init, Sends, CanArrive, Handle, Expects, SequentialIns, SequentialOuts, Inv, IsEvaluation;
    assert WF(s.g) && s.quorum.Keys == s.g.gates by { SettingFacts(s); }
    if k < l {
      StageStays(s, states, steps, rank, k, l - 1, id);
      assert Next(s, states[l - 1], steps[l - 1], states[l]);
      var st := steps[l - 1];
      if st.id == id {
        var v, w := SequentialIns(s, rank), SequentialOuts(s, rank);
        SequentialEvaluation(s, rank);
        RunOk(s, states, steps, v, w, l - 1);
        StagesBounded(s, states[l - 1], v, w);
        HandleStage(s, id, states[l - 1].instances[id], st.message);
      }
    }
  }

  /** No party evaluates a gate twice. */
  lemma EvaluatedOnce(s: Setting, states: seq<System>, steps: seq<Step>, rank: Gate -> nat, k: nat, l: nat)
    requires ValidSetting(s) && IsRun(s, states, steps) && Ranked(s.g, rank) && k < l < |steps|
    requires steps[k].message.EvaluationCompleted? && steps[l].message.EvaluationCompleted?
    ensures steps[k].id != steps[l].id
  {
    hide ValidSetting, WF, Ranked, Init, Sends, Expects, Evaluated, Resharing, CircuitOutputs;
    var next := k + 1;
    assert Next(s, states[k], steps[k], states[next]);
    assert Next(s, states[l], steps[l], states[l + 1]);
    StageStays(s, states, steps, rank, next, l, steps[k].id);
  }

  /** Output j of the gate is connected to b. */
  ghost predicate LeadsTo(s: Setting, t: Gate, j: nat, b: InAddr) {
    j < Arity(t.kind) && OutAddr(t, j) in s.g.fwd && s.g.fwd[OutAddr(t, j)] == b
  }

  /** In every run: a member that sends has started the resharings of its connected outputs whose target
      gates have another quorum, of all of them and of no other, each with the sequential value of that
      output; before, it has started none. */
  lemma ResharesExactly(s: Setting, states: seq<System>, steps: seq<Step>, rank: Gate -> nat, k: nat, id: Id, b: InAddr)
    requires ValidSetting(s) && IsRun(s, states, steps) && Ranked(s.g, rank) && k < |states| && id in states[k].instances
    ensures id.gate in s.quorum
    ensures b in states[k].instances[id].started <==>
      states[k].instances[id].stage == 2 && b.gate in s.quorum && s.quorum[b.gate] != s.quorum[id.gate] &&
      exists j: nat :: LeadsTo(s, id.gate, j, b)
    ensures b in states[k].instances[id].started ==> states[k].instances[id].started[b] == SequentialIns(s, rank)(b)
  {
    var v, w := SequentialIns(s, rank), SequentialOuts(s, rank);
    hide ValidSetting, IsRun, Ranked, WF, Inv, IsEvaluation, SequentialIns, SequentialOuts, Resharing, LeadsTo;
    SequentialEvaluation(s, rank);
    RunOk(s, states, steps, v, w, k);
    ResharesAt(s, states[k], v, w, id, b);
  }

  lemma ResharesAt(s: Setting, sys: System, v: Ins, w: Outs, id: Id, b: InAddr)
    requires Inv(s, sys, v, w) && IsEvaluation(s, v, w) && id in sys.instances
    ensures id.gate in s.quorum
    ensures b in sys.instances[id].started <==>
      sys.instances[id].stage == 2 && b.gate in s.quorum && s.quorum[b.gate] != s.quorum[id.gate] &&
      exists j: nat :: LeadsTo(s, id.gate, j, b)
    ensures b in sys.instances[id].started ==> sys.instances[id].started[b] == v(b)
  {
    hide WF, Inv, Resharing, LeadsTo, CircuitOutputs, Filled, ValidSetting, IsEvaluation;
    InvParts(s, sys, v, w);
    InstanceAt(s, sys, v, w, id);
    LeadsIff(s, id.gate, b);
    if sys.instances[id].stage == 2 {
      StartedLeads(s, id, sys.instances[id], v, w, b);
      if b in s.g.bwd && SourceGate(s, b) == id.gate {
        CrossingStarted(s, sys, v, w, id, b);
        if b in sys.instances[id].started {
          ShareIs(s, sys, v, w, id, b);
        }
        assert b.gate in s.quorum by { ConnectedInput(s.g, b); }
      }
    }
  }

  lemma LeadsIff(s: Setting, t: Gate, b: InAddr)
    requires WF(s.g)
    ensures (exists j: nat :: LeadsTo(s, t, j, b)) <==> b in s.g.bwd && SourceGate(s, b) == t
  {
    hide WF;
    if j: nat :| LeadsTo(s, t, j, b) {
      TargetSource(s, t, j);
    }
    if b in s.g.bwd && SourceGate(s, b) == t {
      SourceLeads(s, b);
      assert LeadsTo(s, t, s.g.bwd[b].port, b);
    }
  }

  lemma StartedLeads(s: Setting, id: Id, x: Instance, v: Ins, w: Outs, b: InAddr)
    requires WF(s.g) && s.quorum.Keys == s.g.gates && InstanceOk(s, id, x, v, w) && x.stage == 2
    ensures b in x.started ==> b in s.g.bwd && SourceGate(s, b) == id.gate
  {
    hide WF, CircuitOutputs, Filled;
    var t, k := id.gate, Arity(id.gate.kind);
    if b in x.started {
      var j: nat :| j < k && Reshares(s, t, j) && Target(s, t, j) == b;
      TargetSource(s, t, j);
    }
  }

  /** In every run, an evaluation with an output to another quorum is completed only after it has handled
      the end of its resharings, and by then every member of its quorum had started that one. */
  lemma {:induction false} CompletedAfterResharing(s: Setting, states: seq<System>, steps: seq<Step>, rank: Gate -> nat, k: nat, id: Id, j: nat, b: InAddr)
    returns (l: nat)
    requires ValidSetting(s) && IsRun(s, states, steps) && Ranked(s.g, rank) && k < |states|
    requires id in states[k].instances && states[k].instances[id].completed
    requires LeadsTo(s, id.gate, j, b) && b.gate in s.quorum && id.gate in s.quorum && s.quorum[b.gate] != s.quorum[id.gate]
    ensures l < k && l < |steps| && steps[l].id == id && steps[l].message.SharesCompleted?
    ensures id in states[l].instances && states[l].instances[id].stage == 2 && !states[l].instances[id].completed
    ensures forall q :: q in s.quorum[id.gate].members ==> HasStarted(states[l], Id(q, id.gate), b)
    decreases k
  {
    hide ValidSetting, WF, Ranked, Sends, Expects, CanArrive, Handle, After, SequentialIns, SequentialOuts, Inv, IsEvaluation, LeadsTo;
    SettingFacts(s);
    if k == 0 {
      NotCompletedYet(s, states[0], id);
      assert false;
    }
    assert Next(s, states[k - 1], steps[k - 1], states[k]);
    StepCompletes(s, states[k - 1], steps[k - 1], states[k], id, j, b);
    if states[k - 1].instances[id].completed {
      l := CompletedAfterResharing(s, states, steps, rank, k - 1, id, j, b);
    } else {
      l := k - 1;
      var v, w := SequentialIns(s, rank), SequentialOuts(s, rank);
      SequentialEvaluation(s, rank);
      RunOk(s, states, steps, v, w, l);
      EndOfResharings(s, states[l], v, w, id, steps[l].message, j, b);
    }
  }

  lemma NotCompletedYet(s: Setting, sys: System, id: Id)
    requires ValidSetting(s) && Init(s, sys) && id in sys.instances
    ensures !sys.instances[id].completed
  {
    hide WF, Filled, Awaited, StartInputs;
  }

  /** The step that completes an evaluation with such an output is the end of a batch of resharings. */
  lemma StepCompletes(s: Setting, sys: System, st: Step, sys': System, id: Id, j: nat, b: InAddr)
    requires ValidSetting(s) && Next(s, sys, st, sys') && id in sys'.instances && sys'.instances[id].completed
    requires LeadsTo(s, id.gate, j, b) && b.gate in s.quorum && id.gate in s.quorum && s.quorum[b.gate] != s.quorum[id.gate]
    ensures id in sys.instances
    ensures !sys.instances[id].completed ==>
      st.id == id && st.message.SharesCompleted? && sys.instances[id].stage == 2 && CanArrive(s, sys, id, st.message)
  {
    hide ValidSetting, WF, Sends, CanArrive, LoopbacksNeeded, Awaited, FillPorts, CircuitOutputs;
    SettingFacts(s);
    assert Reshares(s, id.gate, j) && Target(s, id.gate, j) == b;
    assert b in Resharing(s, id.gate, Arity(id.gate.kind));
  }

  lemma EndOfResharings(s: Setting, sys: System, v: Ins, w: Outs, id: Id, m: Message, j: nat, b: InAddr)
    requires Inv(s, sys, v, w) && ValidSetting(s) && id in sys.instances && sys.instances[id].stage == 2
    requires m.SharesCompleted? && CanArrive(s, sys, id, m)
    requires LeadsTo(s, id.gate, j, b) && b.gate in s.quorum && id.gate in s.quorum && s.quorum[b.gate] != s.quorum[id.gate]
    ensures forall q :: q in s.quorum[id.gate].members ==> HasStarted(sys, Id(q, id.gate), b)
  {
    hide ValidSetting, WF, Inv, HasStarted, SharedFrom;
    SettingFacts(s);
    if id in sys.receiving { ReceivingStage(s, sys, v, w, id); }
    TargetSource(s, id.gate, j);
    CrossingStarted(s, sys, v, w, id, b);
    assert Delivered(s, sys, b, m.shares[b]);
  }

  /** Each port is given one value: at every moment at most one loopback is on its way to it, and
      none when the port is filled. */
  lemma EachPortOnce(s: Setting, states: seq<System>, steps: seq<Step>, rank: Gate -> nat, k: nat, f: Flight)
    requires ValidSetting(s) && IsRun(s, states, steps) && Ranked(s.g, rank) && k < |states| && f in states[k].flying
    ensures states[k].flying[f] == 1 && f.value == SequentialIns(s, rank)(f.to)
    ensures var id := Id(f.party, f.to.gate);
      id in states[k].instances && f.to.port < |states[k].instances[id].inputs| &&
      states[k].instances[id].inputs[f.to.port] == None
  {
    var v, w := SequentialIns(s, rank), SequentialOuts(s, rank);
    hide ValidSetting, IsRun, Ranked, WF, Inv, IsEvaluation, SequentialIns, SequentialOuts;
    SequentialEvaluation(s, rank);
    RunOk(s, states, steps, v, w, k);
    FlightPort(s, states[k], v, w, f);
  }

  /** While a gate evaluation is unfinished some message can arrive, so no run gets stuck. */
  lemma NoRunIsStuck(s: Setting, states: seq<System>, steps: seq<Step>, k: nat)
    requires ValidSetting(s) && IsRun(s, states, steps) && Acyclic(s.g) && k < |states| && !AllCompleted(states[k])
    ensures exists st, sys' :: Next(s, states[k], st, sys')
  {
    var rank: Gate -> nat :| Ranked(s.g, rank);
    var v, w := SequentialIns(s, rank), SequentialOuts(s, rank);
    hide ValidSetting, IsRun, WF, Inv, IsEvaluation, CanArrive, Accepts, Sends, AllCompleted, Ranked, Acyclic, Next;
    SequentialEvaluation(s, rank);
    RunOk(s, states, steps, v, w, k);
    var id, m := SomethingArrives(s, states[k], v, w);
    Accepted(s, states[k], v, w, id, m);
    var st, sys' := StepFor(s, states[k], id, m);
  }

  lemma StepFor(s: Setting, sys: System, id: Id, m: Message) returns (st: Step, sys': System)
    requires ValidSetting(s) && CanArrive(s, sys, id, m) && Accepts(s, sys, id, m)
    ensures Next(s, sys, st, sys')
  {
    hide ValidSetting, WF, CanArrive, SentNow, LoopbacksNeeded, Resharing, Handle;
    assert WF(s.g) && s.quorum.Keys == s.g.gates by { SettingFacts(s); }
    var sent := [];
    match m {
      case CircuitLoopback(_, _) =>
      case EvaluationCompleted(outputs) => sent := SentNow(s, id.gate, outputs, Arity(id.gate.kind));
      case SharesCompleted(shares) =>
        if sys.instances[id].stage != 0 {
          sent := ListLoopbacks(LoopbacksNeeded(s, id.party, id.gate, Arity(id.gate.kind)), shares);
        }
    }
    st := Step(id, m, sent);
    sys' := After(s, sys, st);
  }

  lemma {:induction false} ListLoopbacks(needed: set<InAddr>, shares: map<InAddr, int>) returns (sent: seq<Sent>)
    requires forall b :: b in needed ==> b in shares
    ensures forall i, j :: 0 <= i < j < |sent| ==> sent[i].to != sent[j].to
    ensures forall e :: e in sent ==> e.to in needed && e.value == shares[e.to]
    ensures forall b :: b in needed ==> Sent(b, shares[b]) in sent
    decreases |needed|
  {
    if needed == {} {
      sent := [];
    } else {
      var b :| b in needed;
      var rest := ListLoopbacks(needed - {b}, shares);
      sent := rest + [Sent(b, shares[b])];
    }
  }

  ghost function Remaining(sys: System): int {
    Total(sys.instances, sys.instances.Keys)
  }

  /** Every run ends: each step does some of a bounded amount of work. */
  lemma {:induction false} RunsAreBounded(s: Setting, states: seq<System>, steps: seq<Step>, rank: Gate -> nat, k: nat)
    requires ValidSetting(s) && IsRun(s, states, steps) && Ranked(s.g, rank) && k < |states|
    ensures 0 <= Remaining(states[k]) && k + Remaining(states[k]) <= Remaining(states[0])
  {
    hide ValidSetting, Ranked, Next, Init, Remaining;
    SomeRemains(s, states, steps, rank, k);
    if k > 0 {
      RunsAreBounded(s, states, steps, rank, k - 1);
      assert Next(s, states[k - 1], steps[k - 1], states[k]);
      LessRemains(s, states, steps, rank, k - 1);
    }
  }

  lemma SomeRemains(s: Setting, states: seq<System>, steps: seq<Step>, rank: Gate -> nat, k: nat)
    requires ValidSetting(s) && IsRun(s, states, steps) && Ranked(s.g, rank) && k < |states|
    ensures Remaining(states[k]) >= 0
  {
    hide ValidSetting, IsRun, Ranked, Inv, IsEvaluation, Total, SequentialIns, SequentialOuts, WF;
    assert WF(s.g) by { SettingFacts(s); }
    var v, w := SequentialIns(s, rank), SequentialOuts(s, rank);
    SequentialEvaluation(s, rank);
    RunOk(s, states, steps, v, w, k);
    StagesBounded(s, states[k], v, w);
    TotalNatural(states[k].instances, states[k].instances.Keys);
  }

  lemma LessRemains(s: Setting, states: seq<System>, steps: seq<Step>, rank: Gate -> nat, k: nat)
    requires ValidSetting(s) && IsRun(s, states, steps) && Ranked(s.g, rank) && k < |steps|
    requires |states| == |steps| + 1 && Next(s, states[k], steps[k], states[k + 1])
    ensures Remaining(states[k + 1]) < Remaining(states[k])
  {
    hide ValidSetting, IsRun, Ranked, Inv, IsEvaluation, Total, SequentialIns, SequentialOuts, WF, Next;
    assert WF(s.g) by { SettingFacts(s); }
    var v, w := SequentialIns(s, rank), SequentialOuts(s, rank);
    SequentialEvaluation(s, rank);
    RunOk(s, states, steps, v, w, k);
    NextProgress(s, states[k], v, w, steps[k], states[k + 1]);
  }

  lemma StagesBounded(s: Setting, sys: System, v: Ins, w: Outs)
    requires Inv(s, sys, v, w)
    ensures forall id :: id in sys.instances ==> sys.instances[id].stage <= 2
  {
    hide Inv;
    forall id | id in sys.instances ensures sys.instances[id].stage <= 2 {
      InstanceAt(s, sys, v, w, id);
    }
  }

  /** A run that cannot go on has finished every gate, and the results are the outputs of the
      sequential evaluation, however the messages were ordered. */
  lemma FinalResults(s: Setting, states: seq<System>, steps: seq<Step>, rank: Gate -> nat, id: Id)
    requires ValidSetting(s) && IsRun(s, states, steps) && Ranked(s.g, rank)
    requires |states| == |steps| + 1 && (forall st, sys' :: !Next(s, states[|steps|], st, sys'))
    requires IsId(s, id)
    ensures id in states[|steps|].instances && states[|steps|].instances[id].completed
    ensures states[|steps|].instances[id].result ==
      CircuitOutputs(s, id.gate, GateResults(id.gate, SequentialOuts(s, rank)), Arity(id.gate.kind))
    ensures var r := states[|steps|].instances[id].result;
      forall a :: a in r <==> a.gate == id.gate && a.port < Arity(id.gate.kind) && a !in s.g.fwd
    ensures var r := states[|steps|].instances[id].result; forall a :: a in r ==> r[a] == SequentialOuts(s, rank)(a)
  {
    hide ValidSetting, WF, Inv, IsEvaluation, Next, Init, SequentialIns, SequentialOuts, IsId, Resharing, IsRun, AllCompleted, CircuitOutputs;
    assert WF(s.g) by { SettingFacts(s); }
    var v, w := SequentialIns(s, rank), SequentialOuts(s, rank);
    var last := states[|steps|];
    assert Acyclic(s.g);
    hide Ranked, Acyclic;
    SequentialEvaluation(s, rank);
    RunOk(s, states, steps, v, w, |steps|);
    if !AllCompleted(last) {
      NoRunIsStuck(s, states, steps, |steps|);
    }
    MemberRuns(s, last, v, w, id);
    CompletedResult(s, last, v, w, id);
  }

  lemma CompletedResult(s: Setting, sys: System, v: Ins, w: Outs, id: Id)
    requires Inv(s, sys, v, w) && AllCompleted(sys) && id in sys.instances
    ensures sys.instances[id].completed
    ensures sys.instances[id].result == CircuitOutputs(s, id.gate, GateResults(id.gate, w), Arity(id.gate.kind))
  {
    hide Inv, Resharing, CircuitOutputs, WF;
    InstanceAt(s, sys, v, w, id);
  }
}
