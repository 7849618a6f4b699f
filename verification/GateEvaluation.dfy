/** One party's part in evaluating one gate: what the protocol does with each message. */
module GateEvaluation {
  import opened Options
  import opened WireOps
  import opened Graphs

  type Party = nat

  datatype Quorum = Quorum(number: nat, members: set<Party>)

  /** The circuit, who evaluates each gate, and the shares of the circuit inputs. */
  datatype Setting = Setting(g: Graph, quorum: map<Gate, Quorum>, circuitInputs: map<InAddr, int>)

  ghost predicate ValidSetting(s: Setting) {
    && WF(s.g)
    && s.quorum.Keys == s.g.gates
    && s.circuitInputs.Keys == s.g.ins
    && forall t :: t in s.g.gates ==> s.quorum[t].members != {}
  }

  /** A gate evaluation. Stage 0 collects the inputs, stage 1 evaluates, stage 2 sends. started lists
      the resharings of outputs that the party has started, by the input each one feeds, and what it puts
      into each. */
  datatype Instance = Instance(stage: nat, inputs: seq<Option<int>>, received: nat, outputs: seq<int>,
                               result: map<OutAddr, int>, completed: bool, started: map<InAddr, int>)

  /** Results of a batch of resharing protocols are listed by the input each one feeds. */
  datatype Message =
    | SharesCompleted(shares: map<InAddr, int>)
    | EvaluationCompleted(outputs: seq<int>)
    | CircuitLoopback(port: nat, value: int)

  datatype Sent = Sent(to: InAddr, value: int)

  function Filled(inputs: seq<Option<int>>): (n: nat)
    ensures n <= |inputs|
    ensures n == |inputs| <==> forall i :: 0 <= i < |inputs| ==> inputs[i].Some?
  {
    if inputs == [] then 0
    else Filled(inputs[..|inputs| - 1]) + (if inputs[|inputs| - 1].Some? then 1 else 0)
  }

  // ----- where inputs come from -----

  /** The input comes from a quorum that p is not in, so p receives it by resharing. */
  predicate ByReshare(s: Setting, p: Party, b: InAddr)
    requires WF(s.g) && s.quorum.Keys == s.g.gates
  {
    b in s.g.bwd && SourceGate(s, b) in s.quorum && p !in s.quorum[SourceGate(s, b)].members
  }

  function SourceGate(s: Setting, b: InAddr): Gate
    requires b in s.g.bwd
  {
    s.g.bwd[b].gate
  }

  function Awaited(s: Setting, p: Party, t: Gate, k: nat): (r: set<nat>)
    requires WF(s.g) && s.quorum.Keys == s.g.gates
    ensures forall i: nat :: i in r <==> i < k && ByReshare(s, p, InAddr(t, i))
  {
    set i: nat | i < k && ByReshare(s, p, InAddr(t, i))
  }

  function StartInput(s: Setting, b: InAddr): Option<int> {
    if b in s.g.bwd then None
    else if b in s.circuitInputs then Some(s.circuitInputs[b]) else None
  }

  function StartInputs(s: Setting, t: Gate): (r: seq<Option<int>>)
    ensures |r| == Arity(t.kind) && forall i :: 0 <= i < |r| ==> r[i] == StartInput(s, InAddr(t, i))
  {
    seq(Arity(t.kind), i requires 0 <= i < Arity(t.kind) => StartInput(s, InAddr(t, i)))
  }

  /** Start: circuit inputs are there at once, and a gate with no other input is evaluated. */
  function StartInstance(s: Setting, p: Party, t: Gate): Instance
    requires WF(s.g) && s.quorum.Keys == s.g.gates
  {
    var inputs := StartInputs(s, t);
    var ready := Awaited(s, p, t, Arity(t.kind)) == {} && Filled(inputs) == |inputs|;
    Instance(if ready then 1 else 0, inputs, Filled(inputs), [], map[], false, map[])
  }

  // ----- where outputs go -----

  predicate Leaves(s: Setting, t: Gate, j: nat) {
    j < Arity(t.kind) && OutAddr(t, j) in s.g.fwd
  }

  function Target(s: Setting, t: Gate, j: nat): InAddr
    requires Leaves(s, t, j)
  {
    s.g.fwd[OutAddr(t, j)]
  }

  function TargetQuorum(s: Setting, t: Gate, j: nat): Quorum
    requires Leaves(s, t, j)
  {
    if Target(s, t, j).gate in s.quorum then s.quorum[Target(s, t, j).gate] else Quorum(0, {})
  }

  /** The output stays in the quorum: it is looped back at once. */
  predicate Direct(s: Setting, t: Gate, j: nat) {
    t in s.quorum && Leaves(s, t, j) && TargetQuorum(s, t, j) == s.quorum[t]
  }

  predicate Reshares(s: Setting, t: Gate, j: nat) {
    t in s.quorum && Leaves(s, t, j) && TargetQuorum(s, t, j) != s.quorum[t]
  }

  /** The output is reshared to another quorum that p is also in, and looped back afterwards. */
  predicate Later(s: Setting, p: Party, t: Gate, j: nat) {
    Reshares(s, t, j) && p in TargetQuorum(s, t, j).members
  }

  function Resharing(s: Setting, t: Gate, k: nat): (r: set<InAddr>)
    ensures forall j: nat :: j < k && Reshares(s, t, j) ==> Target(s, t, j) in r
    ensures forall b :: b in r ==> exists j: nat :: j < k && Reshares(s, t, j) && Target(s, t, j) == b
  {
    set j: nat | j < k && Reshares(s, t, j) :: Target(s, t, j)
  }

  /** The resharings among the first k outputs, each with the output that it reshares. */
  function Reshared(s: Setting, t: Gate, outputs: seq<int>, k: nat): (r: map<InAddr, int>)
    ensures r.Keys == Resharing(s, t, k)
  {
    map b | b in Resharing(s, t, k) :: if b in s.g.bwd && s.g.bwd[b].port < |outputs| then outputs[s.g.bwd[b].port] else 0
  }

  function LoopbacksNeeded(s: Setting, p: Party, t: Gate, k: nat): (r: set<InAddr>)
    ensures forall j: nat :: j < k && Later(s, p, t, j) ==> Target(s, t, j) in r
    ensures forall b :: b in r ==> exists j: nat :: j < k && Later(s, p, t, j) && Target(s, t, j) == b
  {
    set j: nat | j < k && Later(s, p, t, j) :: Target(s, t, j)
  }

  function CircuitOutputs(s: Setting, t: Gate, outputs: seq<int>, k: nat): (r: map<OutAddr, int>)
    requires k <= Arity(t.kind) == |outputs|
    ensures forall j: nat :: j < k && !Leaves(s, t, j) ==> OutAddr(t, j) in r && r[OutAddr(t, j)] == outputs[j]
    ensures forall a :: a in r ==> a.gate == t && a.port < k && !Leaves(s, t, a.port)
  {
    map a | a in OutSet(t, k) && !Leaves(s, t, a.port) :: outputs[a.port]
  }

  /** What SendShareStage loops back: the outputs that stay in the quorum. */
  function SentNow(s: Setting, t: Gate, outputs: seq<int>, k: nat): (r: seq<Sent>)
    requires k <= Arity(t.kind) == |outputs|
  {
    if k == 0 then []
    else if Direct(s, t, k - 1) then SentNow(s, t, outputs, k - 1) + [Sent(Target(s, t, k - 1), outputs[k - 1])]
    else SentNow(s, t, outputs, k - 1)
  }

  // ----- what the messages do -----

  predicate Expects(s: Setting, p: Party, t: Gate, x: Instance, m: Message)
    requires WF(s.g) && s.quorum.Keys == s.g.gates
  {
    && |x.inputs| == Arity(t.kind)
    && match m
       case CircuitLoopback(port, _) => x.stage == 0 && port < |x.inputs|
       case EvaluationCompleted(outputs) => x.stage == 1 && |outputs| == Arity(t.kind)
       case SharesCompleted(shares) =>
         (x.stage == 0 && forall i :: i in Awaited(s, p, t, Arity(t.kind)) ==> InAddr(t, i) in shares) ||
         (x.stage == 2 && forall b :: b in LoopbacksNeeded(s, p, t, Arity(t.kind)) ==> b in shares)
  }

  function FillPorts(t: Gate, inputs: seq<Option<int>>, ports: set<nat>, shares: map<InAddr, int>): (r: seq<Option<int>>)
    requires forall i :: i in ports ==> InAddr(t, i) in shares
    ensures |r| == |inputs|
    ensures forall i :: 0 <= i < |r| ==> r[i] == if i in ports then Some(shares[InAddr(t, i)]) else inputs[i]
  {
    seq(|inputs|, i requires 0 <= i < |inputs| => if i in ports then Some(shares[InAddr(t, i)]) else inputs[i])
  }

  /** With all inputs there the evaluation starts. */
  function Collected(x: Instance, inputs: seq<Option<int>>, received: nat): Instance {
    x.(inputs := inputs, received := received, stage := if received == |inputs| then 1 else x.stage)
  }

  function Handle(s: Setting, p: Party, t: Gate, x: Instance, m: Message): Instance
    requires WF(s.g) && s.quorum.Keys == s.g.gates && Expects(s, p, t, x, m)
  {
    match m
    case CircuitLoopback(port, value) =>
      Collected(x, x.inputs[port := Some(value)], x.received + 1)
    case EvaluationCompleted(outputs) =>
      x.(stage := 2, outputs := outputs, result := x.result + CircuitOutputs(s, t, outputs, Arity(t.kind)),
         completed := x.completed || Resharing(s, t, Arity(t.kind)) == {},
         started := x.started + Reshared(s, t, outputs, Arity(t.kind)))
    case SharesCompleted(shares) =>
      if x.stage == 0 then
        var ports := Awaited(s, p, t, Arity(t.kind));
        Collected(x, FillPorts(t, x.inputs, ports, shares), x.received + |ports|)
      else x.(completed := true)
  }

  /** The loopbacks that the party sends to itself while handling the message. */
  ghost predicate Sends(s: Setting, p: Party, t: Gate, x: Instance, m: Message, sent: seq<Sent>)
    requires WF(s.g) && s.quorum.Keys == s.g.gates && Expects(s, p, t, x, m)
  {
    match m
    case CircuitLoopback(_, _) => sent == []
    case EvaluationCompleted(outputs) => sent == SentNow(s, t, outputs, Arity(t.kind))
    case SharesCompleted(shares) =>
      if x.stage == 0 then sent == []
      else
        var needed := LoopbacksNeeded(s, p, t, Arity(t.kind));
        (forall i, j :: 0 <= i < j < |sent| ==> sent[i].to != sent[j].to)
        && (forall e :: e in sent ==> e.to in needed && e.value == shares[e.to])
        && (forall b :: b in needed ==> Sent(b, shares[b]) in sent)
  }

  class MultiQuorumGateEvaluation {
    const s: Setting
    const Me: Party
    const EvalGate: Gate
    var Stage: nat
    const InputShares: array<Option<int>>
    var SharesReceived: nat
    var InputPorts: set<nat>
    var OutputShares: seq<int>
    var OutputLoopbacksNeeded: set<InAddr>
    var Result: map<OutAddr, int>
    var IsCompleted: bool
    /** The resharings that the party has been given to execute. */
    var Started: map<InAddr, int>

    ghost function Value(): Instance
      reads this, InputShares
    {
      Instance(Stage, InputShares[..], SharesReceived, OutputShares, Result, IsCompleted, Started)
    }

    ghost predicate Valid()
      reads this
    {
      && WF(s.g) && s.quorum.Keys == s.g.gates && s.circuitInputs.Keys == s.g.ins
      && EvalGate in s.g.gates && InputShares.Length == Arity(EvalGate.kind)
      && InputPorts == Awaited(s, Me, EvalGate, Arity(EvalGate.kind))
      && (Stage == 2 ==> OutputLoopbacksNeeded == LoopbacksNeeded(s, Me, EvalGate, Arity(EvalGate.kind)))
    }

    /** Construction and Start. */
    constructor (s: Setting, me: Party, evalGate: Gate)
      requires ValidSetting(s) && evalGate in s.g.gates
      ensures Valid() && fresh(InputShares) && Value() == StartInstance(s, me, evalGate)
      ensures this.s == s && Me == me && EvalGate == evalGate
    {
      this.s, Me, EvalGate := s, me, evalGate;
      Stage, SharesReceived := 0, 0;
      InputShares := new Option<int>[Arity(evalGate.kind)](i => None);
      InputPorts, OutputShares, OutputLoopbacksNeeded := {}, [], {};
      Result, IsCompleted, Started := map[], false, map[];
      new;
      Start();
    }

    method Start()
      requires WF(s.g) && s.quorum.Keys == s.g.gates && s.circuitInputs.Keys == s.g.ins
      requires EvalGate in s.g.gates && InputShares.Length == Arity(EvalGate.kind)
      requires Stage == 0 && SharesReceived == 0 && InputPorts == {} && Result == map[] && !IsCompleted && OutputShares == [] && Started == map[]
      requires forall i :: 0 <= i < InputShares.Length ==> InputShares[i] == None
      modifies this, InputShares
      ensures Valid() && Value() == StartInstance(s, Me, EvalGate)
    {
      hide WF, Filled, Awaited, StartInputs, StartingAt, Arity;
      StartingFirst(s, Me, EvalGate, InputShares[..]);
      for i := 0 to Arity(EvalGate.kind)
        invariant StartingAt(s, Me, EvalGate, i, InputPorts, InputShares[..], SharesReceived)
        invariant Stage == 0 && Result == map[] && !IsCompleted && OutputShares == [] && Started == map[]
      {
        var addr := InAddr(EvalGate, i);
        StartPort(s, EvalGate, i);
        StartingNext(s, Me, EvalGate, i, InputPorts, InputShares[..], SharesReceived);
        if addr in s.g.bwd {
          var counterpartQuorum := s.quorum[s.g.bwd[addr].gate];
          if Me !in counterpartQuorum.members {
            InputPorts := InputPorts + {i};
          }
        } else {
          InputShares[i] := Some(s.circuitInputs[addr]);
          SharesReceived := SharesReceived + 1;
        }
      }
      StartingLast(s, Me, EvalGate, InputPorts, InputShares[..], SharesReceived);
      if InputPorts == {} && SharesReceived == Arity(EvalGate.kind) {
        Stage := 1;
      }
    }

    method HandleMessage(msg: Message) returns (sent: seq<Sent>)
      requires Valid() && Expects(s, Me, EvalGate, Value(), msg)
      modifies this, InputShares
      ensures Valid() && Value() == Handle(s, Me, EvalGate, old(Value()), msg)
      ensures Sends(s, Me, EvalGate, old(Value()), msg, sent)
    {
      hide WF, Awaited, LoopbacksNeeded, Resharing, CircuitOutputs, SentNow, FillPorts;
      sent := [];
      if Stage == 0 {
        ReceiveShareStage(msg);
        if SharesReceived == Arity(EvalGate.kind) {
          Stage := 1;
        }
      } else if Stage == 1 {
        OutputShares := msg.outputs;
        sent := SendShareStage();
      } else {
        sent := LoopBack(msg.shares);
        IsCompleted := true;
      }
    }

    method ReceiveShareStage(msg: Message)
      requires Valid() && Expects(s, Me, EvalGate, Value(), msg) && Stage == 0
      modifies `SharesReceived, InputShares
      ensures msg.CircuitLoopback? ==> (
        InputShares[..] == old(InputShares[..])[msg.port := Some(msg.value)] && SharesReceived == old(SharesReceived) + 1)
      ensures msg.SharesCompleted? ==> (
        InputShares[..] == FillPorts(EvalGate, old(InputShares[..]), InputPorts, msg.shares) &&
        SharesReceived == old(SharesReceived) + |InputPorts|)
    {
      if msg.SharesCompleted? {
        TakeShares(msg.shares);
      } else {
        InputShares[msg.port] := Some(msg.value);
        SharesReceived := SharesReceived + 1;
      }
    }

    method TakeShares(shares: map<InAddr, int>)
      requires forall i :: i in InputPorts ==> i < InputShares.Length && InAddr(EvalGate, i) in shares
      modifies `SharesReceived, InputShares
      ensures InputShares[..] == FillPorts(EvalGate, old(InputShares[..]), InputPorts, shares)
      ensures SharesReceived == old(SharesReceived) + |InputPorts|
    {
      var rest := InputPorts;
      while rest != {}
        invariant rest <= InputPorts && SharesReceived + |rest| == old(SharesReceived) + |InputPorts|
        invariant InputShares[..] == FillPorts(EvalGate, old(InputShares[..]), InputPorts - rest, shares)
        decreases |rest|
      {
        var key :| key in rest;
        InputShares[key] := Some(shares[InAddr(EvalGate, key)]);
        SharesReceived := SharesReceived + 1;
        rest := rest - {key};
      }
      assert InputPorts - rest == InputPorts;
    }

    method SendShareStage() returns (sent: seq<Sent>)
      requires Valid() && |OutputShares| == Arity(EvalGate.kind)
      modifies `OutputLoopbacksNeeded, `Result, `Stage, `IsCompleted, `Started
      ensures Valid() && Stage == 2 && IsCompleted == (old(IsCompleted) || Resharing(s, EvalGate, Arity(EvalGate.kind)) == {})
      ensures Started == old(Started) + Reshared(s, EvalGate, OutputShares, Arity(EvalGate.kind))
      ensures Result == old(Result) + CircuitOutputs(s, EvalGate, OutputShares, Arity(EvalGate.kind))
      ensures sent == SentNow(s, EvalGate, OutputShares, Arity(EvalGate.kind))
    {
      hide WF, SentNow, Resharing, Reshared, LoopbacksNeeded, CircuitOutputs, Arity, Awaited;
      sent := [];
      var reshares: map<InAddr, int> := map[];
      OutputLoopbacksNeeded := {};
      OutputsFirst(s, Me, EvalGate, OutputShares);
      for i := 0 to Arity(EvalGate.kind)
        invariant sent == SentNow(s, EvalGate, OutputShares, i)
        invariant reshares == Reshared(s, EvalGate, OutputShares, i)
        invariant OutputLoopbacksNeeded == LoopbacksNeeded(s, Me, EvalGate, i)
        invariant Result == old(Result) + CircuitOutputs(s, EvalGate, OutputShares, i)
        invariant IsCompleted == old(IsCompleted) && Started == old(Started)
      {
        reshares, sent := SendShare(i, reshares, sent);
      }
      Stage := 2;
      ResharedKeys(s, EvalGate, OutputShares, Arity(EvalGate.kind));
      if reshares != map[] {
        Started := Started + reshares;
      } else {
        IsCompleted := true;
      }
    }

    /** Where output i goes: a loopback at once, a resharing, both one after the other, or the result. */
    method SendShare(i: nat, before: map<InAddr, int>, sentBefore: seq<Sent>) returns (reshares: map<InAddr, int>, sent: seq<Sent>)
      requires WF(s.g) && s.quorum.Keys == s.g.gates && i < Arity(EvalGate.kind) == |OutputShares|
      requires EvalGate in s.g.gates
      requires sentBefore == SentNow(s, EvalGate, OutputShares, i) && before == Reshared(s, EvalGate, OutputShares, i)
      requires OutputLoopbacksNeeded == LoopbacksNeeded(s, Me, EvalGate, i)
      modifies `OutputLoopbacksNeeded, `Result
      ensures sent == SentNow(s, EvalGate, OutputShares, i + 1) && reshares == Reshared(s, EvalGate, OutputShares, i + 1)
      ensures OutputLoopbacksNeeded == LoopbacksNeeded(s, Me, EvalGate, i + 1)
      ensures forall r :: old(Result) == r + CircuitOutputs(s, EvalGate, OutputShares, i) ==>
        Result == r + CircuitOutputs(s, EvalGate, OutputShares, i + 1)
    {
      hide WF, Resharing, Reshared, LoopbacksNeeded, CircuitOutputs;
      reshares, sent := before, sentBefore;
      OutputsNext(s, Me, EvalGate, OutputShares, i);
      var addr := OutAddr(EvalGate, i);
      if addr in s.g.fwd {
        var counterpart := s.g.fwd[addr];
        TargetPort(s, EvalGate, i);
        var counterpartQuorum := s.quorum[counterpart.gate];
        var needReshare, needLoopback := true, false;
        if counterpartQuorum == s.quorum[EvalGate] {
          needLoopback, needReshare := true, false;
        } else if Me in counterpartQuorum.members {
          needLoopback, needReshare := true, true;
        }
        if needLoopback && !needReshare {
          sent := sent + [Sent(counterpart, OutputShares[i])];
        }
        if needReshare {
          reshares := reshares[counterpart := OutputShares[i]];
          if needLoopback {
            OutputLoopbacksNeeded := OutputLoopbacksNeeded + {counterpart};
          }
        }
      } else {
        Result := Result[addr := OutputShares[i]];
      }
    }

    /** Loops back the outputs that were reshared to another quorum of this party. */
    method LoopBack(shares: map<InAddr, int>) returns (sent: seq<Sent>)
      requires forall b :: b in OutputLoopbacksNeeded ==> b in shares
      ensures forall i, j :: 0 <= i < j < |sent| ==> sent[i].to != sent[j].to
      ensures forall e :: e in sent ==> e.to in OutputLoopbacksNeeded && e.value == shares[e.to]
      ensures forall b :: b in OutputLoopbacksNeeded ==> Sent(b, shares[b]) in sent
    {
      sent := [];
      var rest := OutputLoopbacksNeeded;
      while rest != {}
        invariant rest <= OutputLoopbacksNeeded
        invariant forall i, j :: 0 <= i < j < |sent| ==> sent[i].to != sent[j].to
        invariant forall e :: e in sent ==> e.to in OutputLoopbacksNeeded - rest && e.value == shares[e.to]
        invariant forall b :: b in OutputLoopbacksNeeded - rest ==> Sent(b, shares[b]) in sent
        decreases |rest|
      {
        var b :| b in rest;
        sent := sent + [Sent(b, shares[b])];
        rest := rest - {b};
      }
    }
  }

  /** What the loop of Start has done after i inputs. */
  ghost predicate StartingAt(s: Setting, p: Party, t: Gate, i: nat, ports: set<nat>, inputs: seq<Option<int>>, received: nat)
    requires WF(s.g) && s.quorum.Keys == s.g.gates
  {
    && i <= |inputs| == Arity(t.kind)
    && ports == Awaited(s, p, t, i) && received == Filled(inputs[..i])
    && (forall k :: 0 <= k < i ==> inputs[k] == StartInput(s, InAddr(t, k)))
    && (forall k :: i <= k < |inputs| ==> inputs[k] == None)
  }

  lemma StartingFirst(s: Setting, p: Party, t: Gate, inputs: seq<Option<int>>)
    requires WF(s.g) && s.quorum.Keys == s.g.gates && |inputs| == Arity(t.kind)
    requires forall k :: 0 <= k < |inputs| ==> inputs[k] == None
    ensures StartingAt(s, p, t, 0, {}, inputs, 0)
  {
    hide WF;
    assert Awaited(s, p, t, 0) == {};
  }

  lemma StartingNext(s: Setting, p: Party, t: Gate, i: nat, ports: set<nat>, inputs: seq<Option<int>>, received: nat)
    requires WF(s.g) && s.quorum.Keys == s.g.gates && s.circuitInputs.Keys == s.g.ins && t in s.g.gates
    requires i < Arity(t.kind) && StartingAt(s, p, t, i, ports, inputs, received)
    ensures |inputs| == Arity(t.kind)
    ensures var b := InAddr(t, i);
      if b in s.g.bwd then
        s.g.bwd[b].gate in s.quorum &&
        StartingAt(s, p, t, i + 1, if p in s.quorum[s.g.bwd[b].gate].members then ports else ports + {i}, inputs, received)
      else
        b in s.circuitInputs &&
        StartingAt(s, p, t, i + 1, ports, inputs[i := Some(s.circuitInputs[b])], received + 1)
  {
    StartPort(s, t, i);
    AwaitedNext(s, p, t, i);
    hide WF, Filled, Awaited;
    var b := InAddr(t, i);
    if b in s.g.bwd {
      FilledNext(inputs, i);
    } else {
      var next := inputs[i := Some(s.circuitInputs[b])];
      assert next[..i] == inputs[..i];
      FilledNext(next, i);
    }
  }

  lemma AwaitedNext(s: Setting, p: Party, t: Gate, i: nat)
    requires WF(s.g) && s.quorum.Keys == s.g.gates
    ensures Awaited(s, p, t, i + 1) == Awaited(s, p, t, i) + (if ByReshare(s, p, InAddr(t, i)) then {i} else {})
  {
    hide WF, ByReshare;
  }

  lemma StartingLast(s: Setting, p: Party, t: Gate, ports: set<nat>, inputs: seq<Option<int>>, received: nat)
    requires WF(s.g) && s.quorum.Keys == s.g.gates && StartingAt(s, p, t, Arity(t.kind), ports, inputs, received)
    ensures ports == Awaited(s, p, t, Arity(t.kind)) && inputs == StartInputs(s, t) && received == Filled(inputs)
  {
    hide WF, Filled, Awaited;
    assert inputs[..|inputs|] == inputs;
  }

  lemma FilledNext(inputs: seq<Option<int>>, i: nat)
    requires i < |inputs|
    ensures Filled(inputs[..i + 1]) == Filled(inputs[..i]) + (if inputs[i].Some? then 1 else 0)
  {
    assert inputs[..i + 1][..i] == inputs[..i];
  }

  /** An input port is connected or a circuit input, and a connected one has a source with a quorum. */
  lemma StartPort(s: Setting, t: Gate, i: nat)
    requires WF(s.g) && s.quorum.Keys == s.g.gates && s.circuitInputs.Keys == s.g.ins && t in s.g.gates && i < Arity(t.kind)
    ensures var b := InAddr(t, i); if b in s.g.bwd then s.g.bwd[b].gate in s.quorum else b in s.circuitInputs
  {
    var b := InAddr(t, i);
    assert HasIn(s.g, b);
    if b in s.g.bwd {
      assert s.g.bwd[b] in s.g.fwd && HasOut(s.g, s.g.bwd[b]);
    }
  }

  lemma TargetPort(s: Setting, t: Gate, j: nat)
    requires WF(s.g) && s.quorum.Keys == s.g.gates && Leaves(s, t, j)
    ensures Target(s, t, j).gate in s.quorum && t in s.quorum
    ensures Target(s, t, j) in s.g.bwd && s.g.bwd[Target(s, t, j)] == OutAddr(t, j)
  {
    assert HasOut(s.g, OutAddr(t, j)) && HasIn(s.g, Target(s, t, j));
  }

  lemma OutputsFirst(s: Setting, p: Party, t: Gate, outputs: seq<int>)
    requires |outputs| == Arity(t.kind)
    ensures SentNow(s, t, outputs, 0) == [] && Reshared(s, t, outputs, 0) == map[] && LoopbacksNeeded(s, p, t, 0) == {}
    ensures CircuitOutputs(s, t, outputs, 0) == map[]
  {
  }

  /** The collections of SendShareStage after one more output. */
  lemma OutputsNext(s: Setting, p: Party, t: Gate, outputs: seq<int>, i: nat)
    requires WF(s.g) && s.quorum.Keys == s.g.gates && i < Arity(t.kind) == |outputs|
    ensures Reshared(s, t, outputs, i + 1) ==
      if Reshares(s, t, i) then Reshared(s, t, outputs, i)[Target(s, t, i) := outputs[i]] else Reshared(s, t, outputs, i)
    ensures LoopbacksNeeded(s, p, t, i + 1) == LoopbacksNeeded(s, p, t, i) + (if Later(s, p, t, i) then {Target(s, t, i)} else {})
    ensures CircuitOutputs(s, t, outputs, i + 1) ==
      if Leaves(s, t, i) then CircuitOutputs(s, t, outputs, i) else CircuitOutputs(s, t, outputs, i)[OutAddr(t, i) := outputs[i]]
  {
    ResharedNext(s, t, outputs, i);
    LoopbacksNext(s, p, t, i);
    CircuitOutputsNext(s, t, outputs, i);
    hide *;
  }

  lemma ResharingNext(s: Setting, t: Gate, i: nat)
    ensures Resharing(s, t, i + 1) == Resharing(s, t, i) + (if Reshares(s, t, i) then {Target(s, t, i)} else {})
  {
    hide Reshares, Target;
  }

  lemma ResharedNext(s: Setting, t: Gate, outputs: seq<int>, i: nat)
    requires WF(s.g) && s.quorum.Keys == s.g.gates && i < |outputs|
    ensures Reshared(s, t, outputs, i + 1) ==
      if Reshares(s, t, i) then Reshared(s, t, outputs, i)[Target(s, t, i) := outputs[i]] else Reshared(s, t, outputs, i)
  {
    ResharingNext(s, t, i);
    if Reshares(s, t, i) { TargetPort(s, t, i); }
    hide WF, Resharing, Target;
  }

  lemma ResharedKeys(s: Setting, t: Gate, outputs: seq<int>, k: nat)
    ensures Reshared(s, t, outputs, k) == map[] <==> Resharing(s, t, k) == {}
  {
    hide Resharing;
    assert Reshared(s, t, outputs, k) == map[] <==> Reshared(s, t, outputs, k).Keys == {};
  }

  lemma LoopbacksNext(s: Setting, p: Party, t: Gate, i: nat)
    ensures LoopbacksNeeded(s, p, t, i + 1) == LoopbacksNeeded(s, p, t, i) + (if Later(s, p, t, i) then {Target(s, t, i)} else {})
  {
    hide Target, TargetQuorum;
  }

  lemma CircuitOutputsNext(s: Setting, t: Gate, outputs: seq<int>, i: nat)
    requires i < Arity(t.kind) == |outputs|
    ensures CircuitOutputs(s, t, outputs, i + 1) ==
      if Leaves(s, t, i) then CircuitOutputs(s, t, outputs, i) else CircuitOutputs(s, t, outputs, i)[OutAddr(t, i) := outputs[i]]
  {
    hide Leaves;
    var r, n := CircuitOutputs(s, t, outputs, i), CircuitOutputs(s, t, outputs, i + 1);
    forall a ensures a in n <==> a in r || (!Leaves(s, t, i) && a == OutAddr(t, i)) {
      assert a in OutSet(t, i + 1) <==> a in OutSet(t, i) || a == OutAddr(t, i);
    }
  }
}
