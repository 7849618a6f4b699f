/** Sub-protocols. */
module Parties {
  // A party's bookkeeping of running protocols and their sub-protocols.

  import opened Options

  type Id = nat
  /** What a protocol leaves as its result. */
  type Result = int

  /** The message that tells a parent that a batch of sub-protocols is finished. */
  datatype SubProtocolCompleted = SubProtocolCompleted(parent: Id, results: map<Id, Result>, order: seq<Id>)

  datatype State = State(
    registered: set<Id>,
    parents: map<Id, Id>,
    outstanding: map<Id, int>,
    completed: map<Id, map<Id, Result>>,
    order: map<Id, seq<Id>>,
    sent: seq<SubProtocolCompleted>)

  const START := State({}, map[], map[], map[], map[], [])

  function OrderOf(s: State, p: Id): seq<Id> {
    if p in s.order then s.order[p] else []
  }

  function CompletedOf(s: State, p: Id): map<Id, Result> {
    if p in s.completed then s.completed[p] else map[]
  }

  // ----- what the methods do -----

  function Register(s: State, parent: Option<Id>, child: Id): State
    requires parent.Some? ==> parent.value in s.outstanding
  {
    var t := s.(registered := s.registered + {child}, outstanding := s.outstanding[child := 0]);
    if parent.None? then t
    else
      var p := parent.value;
      t.(parents := s.parents[child := p],
         outstanding := t.outstanding[p := t.outstanding[p] + 1],
         order := s.order[p := OrderOf(s, p) + [child]])
  }

  /** CheckCompleted of a completed protocol. */
  function Complete(s: State, c: Id, result: Result): State
    requires c in s.parents ==> s.parents[c] in s.outstanding
  {
    var t := s.(registered := s.registered - {c});
    if c !in s.parents then t else Report(t, c, result)
  }

  /** The child's result goes to its parent's batch, and the last one makes the message. */
  function Report(s: State, c: Id, result: Result): State
    requires c in s.parents && s.parents[c] in s.outstanding
  {
    var p := s.parents[c];
    var results := CompletedOf(s, p)[c := result];
    var left := s.outstanding[p] - 1;
    var u := s.(parents := s.parents - {c}, outstanding := s.outstanding[p := left]);
    if left > 0 then u.(completed := s.completed[p := results])
    else
      u.(completed := s.completed - {p}, order := s.order - {p},
         sent := s.sent + [SubProtocolCompleted(p, results, OrderOf(s, p))])
  }

  // ----- the invariant -----

  ghost function Live(s: State, p: Id): set<Id> {
    set c | c in s.parents && s.parents[c] == p
  }

  ghost predicate Distinct(q: seq<Id>) {
    forall i, j :: 0 <= i < j < |q| ==> q[i] != q[j]
  }

  /** The children of p that were submitted and not yet reported: those that run and those that have
      completed, in submission order. */
  ghost predicate BatchOk(s: State, p: Id) {
    (p in s.outstanding ==> s.outstanding[p] == |Live(s, p)|) && BatchFits(Live(s, p), OrderOf(s, p), CompletedOf(s, p))
  }

  ghost predicate BatchFits(live: set<Id>, order: seq<Id>, done: map<Id, Result>) {
    && Distinct(order)
    && (forall c :: c in order <==> c in live || c in done)
    && (forall c :: c in live ==> c !in done)
    && (live == {} ==> order == [])
  }

  /** A message lists each child of its batch once and has a result for each, and no other. */
  ghost predicate MessageOk(m: SubProtocolCompleted) {
    m.order != [] && Distinct(m.order) && forall c :: c in m.results <==> c in m.order
  }

  ghost predicate Inv(s: State) {
    && s.parents.Keys <= s.registered <= s.outstanding.Keys
    && (forall c :: c in s.parents ==> s.parents[c] in s.registered)
    && (forall p :: BatchOk(s, p))
    && (forall i :: 0 <= i < |s.sent| ==> MessageOk(s.sent[i]))
  }

  /** What the callers must respect: parents are registered, an identifier is neither registered nor
      used before in the parent's unfinished batch, and a protocol completes after its children. */
  datatype Op = Submit(parent: Option<Id>, child: Id) | Finish(protocol: Id, result: Result)

  ghost predicate Allowed(s: State, op: Op) {
    match op
    case Submit(parent, child) =>
      child !in s.registered && (parent.Some? ==> parent.value in s.registered && child !in OrderOf(s, parent.value))
    case Finish(p, _) => p in s.registered && Live(s, p) == {}
  }

  ghost function Do(s: State, op: Op): State
    requires Inv(s) && Allowed(s, op)
  {
    match op
    case Submit(parent, child) => Register(s, parent, child)
    case Finish(p, result) => Complete(s, p, result)
  }

  // ----- the children of p that messages report, in order -----

  ghost function Reported(sent: seq<SubProtocolCompleted>, p: Id): seq<Id> {
    if sent == [] then []
    else
      var m := sent[|sent| - 1];
      Reported(sent[..|sent| - 1], p) + (if m.parent == p then m.order else [])
  }

  ghost function Submitted(ops: seq<Op>, p: Id): seq<Id> {
    if ops == [] then []
    else
      var op := ops[|ops| - 1];
      Submitted(ops[..|ops| - 1], p) + (if op.Submit? && op.parent == Some(p) then [op.child] else [])
  }

  lemma LiveAfterRegister(s: State, parent: Option<Id>, child: Id, p: Id)
    requires Inv(s) && Allowed(s, Submit(parent, child))
    ensures Live(Register(s, parent, child), p) == if parent == Some(p) then Live(s, p) + {child} else Live(s, p)
    ensures child !in Live(s, p)
  {
  }

  lemma LiveAfterComplete(s: State, c: Id, result: Result, p: Id)
    requires Inv(s) && Allowed(s, Finish(c, result))
    ensures Live(Complete(s, c, result), p) == if c in s.parents && s.parents[c] == p then Live(s, p) - {c} else Live(s, p)
  {
  }

  lemma RegisterBatch(s: State, parent: Option<Id>, child: Id, p: Id)
    requires Inv(s) && Allowed(s, Submit(parent, child))
    ensures BatchOk(Register(s, parent, child), p)
  {
    hide Inv, Live, BatchFits;
    BatchAt(s, p);
    LiveAfterRegister(s, parent, child, p);
    if p == child { NoChildrenYet(s, child); }
    if parent == Some(p) {
      AddChild(Live(s, p), OrderOf(s, p), CompletedOf(s, p), child);
      ParentListed(s, p);
    }
  }

  lemma NoChildrenYet(s: State, p: Id)
    requires Inv(s) && p !in s.registered
    ensures Live(s, p) == {}
  {
    hide BatchOk, MessageOk;
  }

  lemma BatchAt(s: State, p: Id)
    requires Inv(s)
    ensures BatchOk(s, p)
  {
    hide BatchOk, MessageOk;
  }

  lemma ParentListed(s: State, p: Id)
    requires Inv(s) && p in s.registered
    ensures p in s.outstanding
  {
    hide BatchOk, MessageOk;
  }

  lemma AddChild(live: set<Id>, order: seq<Id>, done: map<Id, Result>, c: Id)
    requires BatchFits(live, order, done) && c !in order
    ensures BatchFits(live + {c}, order + [c], done) && |live + {c}| == |live| + 1
  {
    assert c !in live;
    forall d ensures d in order + [c] <==> d in live + {c} || d in done { }
  }

  lemma RemoveChild(live: set<Id>, order: seq<Id>, done: map<Id, Result>, c: Id, result: Result)
    requires BatchFits(live, order, done) && c in live
    ensures |live - {c}| == |live| - 1 && c !in done
    ensures live != {c} ==> BatchFits(live - {c}, order, done[c := result])
    ensures live == {c} <==> |live| == 1
    ensures live == {c} ==> Distinct(order) && order != [] && forall d :: d in done[c := result] <==> d in order
  {
    assert c in order;
    if |live| == 1 {
      assert |live - {c}| == 0;
      assert live == (live - {c}) + {c};
    }
    if live - {c} == {} {
      assert live == {c};
    }
  }

  lemma NoBatch()
    ensures BatchFits({}, [], map[])
  {
  }

  lemma CompleteBatch(s: State, c: Id, result: Result, p: Id)
    requires Inv(s) && Allowed(s, Finish(c, result))
    ensures BatchOk(Complete(s, c, result), p)
  {
    hide Inv, Live, BatchFits;
    BatchAt(s, p);
    ParentRegistered(s, c);
    LiveAfterComplete(s, c, result, p);
    if c in s.parents && s.parents[c] == p {
      ChildLives(s, c);
      RemoveChild(Live(s, p), OrderOf(s, p), CompletedOf(s, p), c, result);
      NoBatch();
      assert Live(s, p) == {c} ==> Live(s, p) - {c} == {};
    }
  }

  lemma ChildLives(s: State, c: Id)
    requires c in s.parents
    ensures c in Live(s, s.parents[c])
  {
  }

  /** The batch that a completion finishes is reported in one message, with its own result in it. */
  lemma CompleteMessage(s: State, c: Id, result: Result)
    requires Inv(s) && Allowed(s, Finish(c, result)) && c in s.parents
    ensures var p := s.parents[c]; var t := Complete(s, c, result);
      (Live(s, p) != {c} ==> t.sent == s.sent) &&
      (Live(s, p) == {c} ==> (
        |t.sent| == |s.sent| + 1 && t.sent[..|s.sent|] == s.sent &&
        var m := t.sent[|s.sent|];
        m.parent == p && m.order == OrderOf(s, p) && MessageOk(m) &&
        m.results[c] == result && (forall d :: d in CompletedOf(s, p) ==> d in m.results && m.results[d] == CompletedOf(s, p)[d])))
  {
    hide Inv, Live, BatchFits;
    var p := s.parents[c];
    BatchAt(s, p);
    ParentRegistered(s, c);
    ChildLives(s, c);
    RemoveChild(Live(s, p), OrderOf(s, p), CompletedOf(s, p), c, result);
  }

  lemma DoKeeps(s: State, op: Op)
    requires Inv(s) && Allowed(s, op)
    ensures Inv(Do(s, op))
  {
    hide BatchOk, MessageOk, Live, OrderOf;
    var t := Do(s, op);
    match op {
      case Submit(parent, child) =>
        forall p ensures BatchOk(t, p) { RegisterBatch(s, parent, child, p); }
      case Finish(c, result) =>
        forall p ensures BatchOk(t, p) { CompleteBatch(s, c, result, p); }
        ParentsStay(s, c, result);
        if c in s.parents { CompleteMessage(s, c, result); }
    }
  }

  /** A protocol that completes is nobody's parent. */
  lemma ParentsStay(s: State, c: Id, result: Result)
    requires Inv(s) && Allowed(s, Finish(c, result))
    ensures forall d :: d in s.parents ==> s.parents[d] != c
  {
    forall d | d in s.parents ensures s.parents[d] != c {
      assert s.parents[d] == c ==> d in Live(s, c);
    }
  }

  // ----- whole runs -----

  ghost predicate IsRun(ops: seq<Op>) {
    ops == [] || (IsRun(ops[..|ops| - 1]) && Inv(After(ops[..|ops| - 1])) && Allowed(After(ops[..|ops| - 1]), ops[|ops| - 1]))
  }

  /** The state after the operations, as far as they were allowed. */
  ghost function After(ops: seq<Op>): State {
    if ops == [] then START
    else
      var s := After(ops[..|ops| - 1]);
      var op := ops[|ops| - 1];
      if Inv(s) && Allowed(s, op) then Do(s, op) else s
  }

  lemma StartOk()
    ensures Inv(START)
  {
  }

  lemma {:induction false} RunOk(ops: seq<Op>)
    ensures Inv(After(ops))
  {
    hide Inv, Allowed, Do;
    if ops == [] {
      StartOk();
    } else {
      RunOk(ops[..|ops| - 1]);
      var s, op := After(ops[..|ops| - 1]), ops[|ops| - 1];
      if Allowed(s, op) { DoKeeps(s, op); }
    }
  }

  /** Exactly once: the children that p ever submitted are, in submission order, those listed in the
      messages to p followed by those of the unfinished batch. */
  lemma {:induction false} EachChildOnce(ops: seq<Op>, p: Id)
    requires IsRun(ops)
    ensures Submitted(ops, p) == Reported(After(ops).sent, p) + OrderOf(After(ops), p)
  {
    hide Inv, Allowed;
    if ops != [] {
      var init, op := ops[..|ops| - 1], ops[|ops| - 1];
      EachChildOnce(init, p);
      OneStep(After(init), op, p);
    }
  }

  ghost function NewChild(op: Op, p: Id): seq<Id> {
    if op.Submit? && op.parent == Some(p) then [op.child] else []
  }

  lemma OneStep(s: State, op: Op, p: Id)
    requires Inv(s) && Allowed(s, op)
    ensures var t := Do(s, op);
      Reported(t.sent, p) + OrderOf(t, p) == Reported(s.sent, p) + OrderOf(s, p) + NewChild(op, p)
  {
    hide Inv, Allowed, Live, BatchFits, CompletedOf;
    if op.Finish? { ParentRegistered(s, op.protocol); }
    var t := Do(s, op);
    if op.Finish? && op.protocol in s.parents && s.outstanding[s.parents[op.protocol]] - 1 <= 0 {
      var q := s.parents[op.protocol];
      assert t.sent[..|s.sent|] == s.sent;
      assert Reported(t.sent, p) == Reported(s.sent, p) + (if q == p then OrderOf(s, q) else []);
    }
  }

  // ----- whose result a message brings -----

  /** What has become of c as a child of p since p last submitted it. */
  datatype Fate = Never | Running | Ended(result: Result)

  ghost function FateOf(ops: seq<Op>, p: Id, c: Id): Fate {
    if ops == [] then Never
    else
      var before, op := FateOf(ops[..|ops| - 1], p, c), ops[|ops| - 1];
      if op == Submit(Some(p), c) then Running
      else if op.Finish? && op.protocol == c && before.Running? then Ended(op.result)
      else before
  }

  /** The bookkeeping of c as a child of p agrees with its fate. */
  ghost predicate FateFits(s: State, p: Id, c: Id, fate: Fate) {
    && (fate.Running? <==> c in Live(s, p))
    && (c in CompletedOf(s, p) ==> fate == Ended(CompletedOf(s, p)[c]))
  }

  lemma FateNext(ops: seq<Op>, op: Op, p: Id, c: Id)
    ensures FateOf(ops + [op], p, c) ==
      if op == Submit(Some(p), c) then Running
      else if op.Finish? && op.protocol == c && FateOf(ops, p, c).Running? then Ended(op.result)
      else FateOf(ops, p, c)
  {
    assert (ops + [op])[..|ops|] == ops;
  }

  lemma SubmitFits(s: State, parent: Option<Id>, child: Id, p: Id, c: Id, fate: Fate)
    requires Inv(s) && Allowed(s, Submit(parent, child)) && FateFits(s, p, c, fate)
    ensures FateFits(Register(s, parent, child), p, c, if parent == Some(p) && child == c then Running else fate)
  {
    hide Inv, Live;
    LiveAfterRegister(s, parent, child, p);
    if parent == Some(p) && child == c {
      BatchAt(s, p);
    }
  }

  lemma FinishFits(s: State, f: Id, result: Result, p: Id, c: Id, fate: Fate)
    requires Inv(s) && Allowed(s, Finish(f, result)) && FateFits(s, p, c, fate)
    ensures FateFits(Complete(s, f, result), p, c, if f == c && fate.Running? then Ended(result) else fate)
  {
    LiveIs(s, p, c);
    hide Inv, Live;
    ParentRegistered(s, f);
    LiveAfterComplete(s, f, result, p);
  }

  lemma LiveIs(s: State, p: Id, c: Id)
    ensures c in Live(s, p) <==> c in s.parents && s.parents[c] == p
  {
  }

  lemma {:induction false} FatesFit(ops: seq<Op>, p: Id, c: Id)
    requires IsRun(ops)
    ensures FateFits(After(ops), p, c, FateOf(ops, p, c))
  {
    hide Inv, Allowed, FateFits, Register, Complete;
    if ops == [] {
      NothingFits(p, c);
    } else {
      var init, op := ops[..|ops| - 1], ops[|ops| - 1];
      FatesFit(init, p, c);
      assert ops == init + [op];
      FateNext(init, op, p, c);
      match op
      case Submit(parent, child) => SubmitFits(After(init), parent, child, p, c, FateOf(init, p, c));
      case Finish(f, result) => FinishFits(After(init), f, result, p, c, FateOf(init, p, c));
    }
  }

  lemma NothingFits(p: Id, c: Id)
    ensures FateFits(START, p, c, Never)
  {
  }

  /** The last operation on c, if any, submits it. */
  ghost predicate Unfinished(ops: seq<Op>, c: Id) {
    ops != [] &&
    var op := ops[|ops| - 1];
    if op.Submit? && op.child == c then true
    else if op.Finish? && op.protocol == c then false
    else Unfinished(ops[..|ops| - 1], c)
  }

  /** Registered are exactly the protocols that were submitted and have not finished since. */
  lemma {:induction false} RegisteredExactly(ops: seq<Op>, c: Id)
    requires IsRun(ops)
    ensures c in After(ops).registered <==> Unfinished(ops, c)
  {
    hide Inv, Allowed;
    if ops != [] {
      var init, op := ops[..|ops| - 1], ops[|ops| - 1];
      RegisteredExactly(init, c);
      if op.Finish? { ParentRegistered(After(init), op.protocol); }
    }
  }

  /** Every message is made by one operation, and brings for each child of its batch the result with which
      that child had ended by then, since its parent last submitted it. */
  lemma {:induction false} MessageResults(ops: seq<Op>, i: nat) returns (n: nat)
    requires IsRun(ops) && i < |After(ops).sent|
    ensures n < |ops| && |After(ops[..n]).sent| == i && |After(ops[..n + 1]).sent| == i + 1
    ensures var m := After(ops).sent[i];
      m == After(ops[..n + 1]).sent[i] && m.order != [] && m.results.Keys == (set c | c in m.order) &&
      forall c :: c in m.order ==> FateOf(ops[..n + 1], m.parent, c) == Ended(m.results[c])
    decreases |ops|
  {
    hide Inv, Allowed, Register, Complete, FateOf, MessageOk;
    var init, op := ops[..|ops| - 1], ops[|ops| - 1];
    SentAfter(After(init), op);
    if i < |After(init).sent| {
      n := MessageResults(init, i);
      assert init[..n] == ops[..n] && init[..n + 1] == ops[..n + 1];
      assert After(ops).sent[..|After(init).sent|][i] == After(init).sent[i];
    } else {
      n := |ops| - 1;
      assert ops[..n + 1] == ops == init + [op];
      NewMessage(init, op);
    }
  }

  lemma SentAfter(s: State, op: Op)
    requires Inv(s) && Allowed(s, op)
    ensures |s.sent| <= |Do(s, op).sent| <= |s.sent| + 1 && Do(s, op).sent[..|s.sent|] == s.sent
  {
    hide Inv, Allowed;
    if op.Finish? { ParentRegistered(s, op.protocol); }
  }

  lemma NewMessage(init: seq<Op>, op: Op)
    requires IsRun(init) && Inv(After(init)) && Allowed(After(init), op)
    requires var s := After(init); |Do(s, op).sent| == |s.sent| + 1
    ensures var s := After(init); var m := Do(s, op).sent[|s.sent|];
      m.order != [] && m.results.Keys == (set c | c in m.order) &&
      forall c :: c in m.order ==> FateOf(init + [op], m.parent, c) == Ended(m.results[c])
  {
    hide IsRun, FateOf, Inv, Live, OrderOf;
    var s := After(init);
    assert op.Finish?;
    var f, result := op.protocol, op.result;
    ParentRegistered(s, f);
    var p := s.parents[f];
    CompleteMessage(s, f, result);
    ChildLives(s, f);
    var m := Do(s, op).sent[|s.sent|];
    assert m == SubProtocolCompleted(p, CompletedOf(s, p)[f := result], OrderOf(s, p));
    forall c | c in m.order ensures FateOf(init + [op], p, c) == Ended(m.results[c]) {
      FatesFit(init, p, c);
      FateNext(init, op, p, c);
    }
  }

  // ----- the party -----

  class Party {
    var RegisteredProtocols: set<Id>
    var ParentProtocols: map<Id, Id>
    var ChildProtocolOutstandingCount: map<Id, int>
    var ChildProtocolCompletedMsg: map<Id, map<Id, Result>>
    var ChildProtocolSubmissionOrder: map<Id, seq<Id>>
    /** The loopback messages sent to parents. */
    var Sent: seq<SubProtocolCompleted>

    ghost function Value(): State
      reads this
    {
      State(RegisteredProtocols, ParentProtocols, ChildProtocolOutstandingCount,
        ChildProtocolCompletedMsg, ChildProtocolSubmissionOrder, Sent)
    }

    constructor ()
      ensures Value() == START
    {
      RegisteredProtocols, ParentProtocols, ChildProtocolOutstandingCount := {}, map[], map[];
      ChildProtocolCompletedMsg, ChildProtocolSubmissionOrder, Sent := map[], map[], [];
    }

    method RegisterProtocol(parent: Option<Id>, child: Id)
      requires Inv(Value()) && Allowed(Value(), Submit(parent, child))
      modifies this
      ensures Inv(Value()) && Value() == Do(old(Value()), Submit(parent, child))
    {
      hide Inv, Live;
      DoKeeps(Value(), Submit(parent, child));
      ghost var next := Do(Value(), Submit(parent, child));
      if parent.Some? { ParentListed(Value(), parent.value); }
      RegisteredProtocols := RegisteredProtocols + {child};
      ChildProtocolOutstandingCount := ChildProtocolOutstandingCount[child := 0];
      if parent.Some? {
        var p := parent.value;
        ParentProtocols := ParentProtocols[child := p];
        ChildProtocolOutstandingCount := ChildProtocolOutstandingCount[p := ChildProtocolOutstandingCount[p] + 1];
        var order := if p in ChildProtocolSubmissionOrder then ChildProtocolSubmissionOrder[p] else [];
        ChildProtocolSubmissionOrder := ChildProtocolSubmissionOrder[p := order + [child]];
      }
      assert Value() == next;
    }

    /** Called for a protocol after each message; isCompleted and result are the protocol's own. */
    method CheckCompleted(protocol: Id, isCompleted: bool, result: Result)
      requires Inv(Value()) && (isCompleted ==> Allowed(Value(), Finish(protocol, result)))
      modifies this
      ensures Inv(Value())
      ensures Value() == if isCompleted then Do(old(Value()), Finish(protocol, result)) else old(Value())
    {
      hide Inv, Live;
      if !isCompleted {
        return;
      }
      DoKeeps(Value(), Finish(protocol, result));
      ghost var next := Do(Value(), Finish(protocol, result));
      ParentRegistered(Value(), protocol);
      RegisteredProtocols := RegisteredProtocols - {protocol};
      if protocol !in ParentProtocols {
        assert Value() == next;
        return;
      }
      ReportToParent(protocol, result);
    }

    method ReportToParent(protocol: Id, result: Result)
      requires protocol in ParentProtocols && ParentProtocols[protocol] in ChildProtocolOutstandingCount
      requires ParentProtocols[protocol] in ChildProtocolSubmissionOrder
      modifies this
      ensures Value() == Report(old(Value()), protocol, result)
    {
      var parent := ParentProtocols[protocol];
      var results: map<Id, Result> := if parent in ChildProtocolCompletedMsg then ChildProtocolCompletedMsg[parent] else map[];
      results := results[protocol := result];
      RemoveUpdated(ChildProtocolCompletedMsg, parent, results);
      ChildProtocolCompletedMsg := ChildProtocolCompletedMsg[parent := results];
      ParentProtocols := ParentProtocols - {protocol};
      ChildProtocolOutstandingCount := ChildProtocolOutstandingCount[parent := ChildProtocolOutstandingCount[parent] - 1];
      if ChildProtocolOutstandingCount[parent] > 0 {
        return;
      }
      Sent := Sent + [SubProtocolCompleted(parent, results, ChildProtocolSubmissionOrder[parent])];
      ChildProtocolCompletedMsg := ChildProtocolCompletedMsg - {parent};
      ChildProtocolSubmissionOrder := ChildProtocolSubmissionOrder - {parent};
    }
  }

  lemma RemoveUpdated(m: map<Id, map<Id, Result>>, k: Id, v: map<Id, Result>)
    ensures m[k := v] - {k} == m - {k}
  {
  }

  lemma ParentRegistered(s: State, c: Id)
    requires Inv(s)
    ensures c in s.parents ==> s.parents[c] in s.registered && s.parents[c] in s.outstanding && s.parents[c] in s.order
  {
    hide Live, MessageOk;
    if c in s.parents {
      assert BatchOk(s, s.parents[c]);
      ChildLives(s, c);
      assert c in OrderOf(s, s.parents[c]);
    }
  }
}
