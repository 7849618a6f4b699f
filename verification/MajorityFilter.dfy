/** The voting receiver. */
module MajorityFilter {
  // A receiver that keeps the value sent by a majority of the senders.

  import opened Options

  type PartyId = nat
  type Value = int

  datatype Message = Vote(from: PartyId, value: Value) | NextRound(from: PartyId)

  /** froms remembers who sent each received value. */
  datatype State = State(senders: seq<PartyId>, received: seq<Value>, froms: seq<PartyId>, threshold: nat,
                         scheduledTally: bool, result: Option<Value>, isCompleted: bool)

  ghost predicate Distinct(s: seq<PartyId>) {
    forall i, j :: 0 <= i < j < |s| ==> s[i] != s[j]
  }

  function Start(senders: seq<PartyId>): State {
    State(senders, [], [], |senders| / 2 + 1, false, None, false)
  }

  /** Math.Ceiling(2.0 * k / 3.0). */
  function TwoThirds(k: nat): nat {
    (2 * k + 2) / 3
  }

  function Without(s: seq<PartyId>, p: PartyId): (r: seq<PartyId>)
    ensures p in s ==> |r| == |s| - 1
    ensures p !in s ==> r == s
  {
    if s == [] then [] else if s[0] == p then s[1..] else [s[0]] + Without(s[1..], p)
  }

  // ----- the tally -----

  /** The value that enough votes name, if there is one. */
  ghost predicate IsTally(received: seq<Value>, threshold: nat, r: Option<Value>) {
    match r
    case Some(v) => multiset(received)[v] >= threshold
    case None => forall v :: multiset(received)[v] < threshold
  }

  /** Counts the votes one by one and stops at the first value that reaches the threshold. */
  method PerformTally(received: seq<Value>, threshold: nat) returns (r: Option<Value>)
    requires threshold > 0
    ensures IsTally(received, threshold, r)
  {
    var voteCount: map<Value, nat> := map[];
    for i := 0 to |received|
      invariant forall v :: multiset(received[..i])[v] == if v in voteCount then voteCount[v] else 0
      invariant forall v :: multiset(received[..i])[v] < threshold
    {
      var vote := received[i];
      CountNext(received, i);
      if vote !in voteCount {
        voteCount := voteCount[vote := 0];
      }
      voteCount := voteCount[vote := voteCount[vote] + 1];
      if voteCount[vote] >= threshold {
        CountPrefix(received, i + 1, vote);
        return Some(vote);
      }
    }
    assert received[..|received|] == received;
    r := None;
  }

  lemma CountNext(received: seq<Value>, i: nat)
    requires i < |received|
    ensures forall v :: multiset(received[..i + 1])[v] == multiset(received[..i])[v] + (if v == received[i] then 1 else 0)
  {
    assert received[..i + 1] == received[..i] + [received[i]];
  }

  lemma CountPrefix(received: seq<Value>, i: nat, v: Value)
    requires i <= |received|
    ensures multiset(received)[v] >= multiset(received[..i])[v]
  {
    assert received == received[..i] + received[i..];
  }

  // ----- what the messages do -----

  function AddVote(s: State, from: PartyId, value: Value): State {
    if from in s.senders then
      s.(senders := Without(s.senders, from), received := s.received + [value], froms := s.froms + [from])
    else s
  }

  function CheckSchedule(s: State): State {
    if |s.received| >= TwoThirds(|s.senders|) && !s.scheduledTally then s.(scheduledTally := true) else s
  }

  /** A message is handled; completed protocols get no more messages. */
  ghost predicate Handles(s: State, m: Message, t: State) {
    !s.isCompleted &&
    match m
    case Vote(from, value) => t == CheckSchedule(AddVote(s, from, value))
    case NextRound(_) =>
      IsTally(s.received, s.threshold, t.result) && t == s.(result := t.result, isCompleted := true)
  }

  class MajorityFilteringProtocol {
    const Me: PartyId
    var Senders: seq<PartyId>
    var Received: seq<Value>
    ghost var Froms: seq<PartyId>
    var scheduledTally: bool
    const majorityThreshold: nat
    var Result: Option<Value>
    var IsCompleted: bool

    ghost function Value(): State
      reads this
    {
      State(Senders, Received, Froms, majorityThreshold, scheduledTally, Result, IsCompleted)
    }

    constructor (me: PartyId, senders: seq<PartyId>)
      ensures Value() == Start(senders) && Me == me && majorityThreshold > 0
    {
      Me := me;
      Senders, Received, Froms := senders, [], [];
      scheduledTally, majorityThreshold := false, |senders| / 2 + 1;
      Result, IsCompleted := None, false;
    }

    /** The message tells whether a round message to itself was sent. */
    method HandleMessage(msg: Message) returns (sentNextRound: bool)
      requires !IsCompleted && Result == None && majorityThreshold > 0
      modifies this
      ensures Handles(old(Value()), msg, Value())
      ensures sentNextRound <==> scheduledTally && !old(scheduledTally)
    {
      sentNextRound := false;
      match msg
      case Vote(fromId, value) =>
        if fromId in Senders {
          Senders := Without(Senders, fromId);
          Received := Received + [value];
          Froms := Froms + [fromId];
        }
        if |Received| >= TwoThirds(|Senders|) && !scheduledTally {
          sentNextRound := true;
          scheduledTally := true;
        }
      case NextRound(_) =>
        var r := PerformTally(Received, majorityThreshold);
        Result := r;
        IsCompleted := true;
    }
  }

  // ----- runs -----

  ghost predicate IsRun(senders: seq<PartyId>, states: seq<State>, messages: seq<Message>) {
    && |states| == |messages| + 1 && states[0] == Start(senders)
    && forall k, next :: 0 <= k < |messages| && next == k + 1 ==> Handles(states[k], messages[k], states[next])
  }

  /** A vote of p for v is among the messages. */
  ghost predicate Voted(messages: seq<Message>, p: PartyId, v: Value) {
    Vote(p, v) in messages
  }

  ghost predicate AllVoted(froms: seq<PartyId>, received: seq<Value>, messages: seq<Message>) {
    |received| == |froms| && forall i :: 0 <= i < |froms| ==> Voted(messages, froms[i], received[i])
  }

  /** Each sender is either still awaited or has one received vote. */
  ghost predicate Inv(senders: seq<PartyId>, s: State, messages: seq<Message>) {
    && s.threshold == |senders| / 2 + 1
    && Distinct(s.senders + s.froms) && multiset(s.senders + s.froms) == multiset(senders)
    && AllVoted(s.froms, s.received, messages)
    && (!s.isCompleted ==> s.result == None)
    && (s.result.Some? ==> multiset(s.received)[s.result.value] >= s.threshold)
  }

  lemma {:induction false} WithoutKeeps(s: seq<PartyId>, p: PartyId)
    requires p in s
    ensures multiset(Without(s, p)) == multiset(s) - multiset{p}
  {
    assert s == [s[0]] + s[1..];
    if s[0] != p {
      WithoutKeeps(s[1..], p);
    }
  }

  lemma {:induction false} CountOf(s: seq<PartyId>, p: PartyId)
    requires Distinct(s)
    ensures multiset(s)[p] <= 1
  {
    if s != [] {
      assert s == [s[0]] + s[1..];
      CountOf(s[1..], p);
      forall i | 0 <= i < |s[1..]| ensures s[1..][i] != s[0] {
        assert s[1..][i] == s[i + 1];
      }
    }
  }

  lemma {:induction false} DistinctByCount(s: seq<PartyId>)
    requires forall p :: multiset(s)[p] <= 1
    ensures Distinct(s)
  {
    forall i, j | 0 <= i < j < |s| ensures s[i] != s[j] {
      TwiceCounts(s, i, j);
    }
  }

  lemma TwiceCounts(s: seq<PartyId>, i: nat, j: nat)
    requires i < j < |s|
    ensures s[i] == s[j] ==> multiset(s)[s[i]] >= 2
  {
    assert s == s[..i] + [s[i]] + s[i + 1..j] + [s[j]] + s[j + 1..];
  }

  lemma SameElementsDistinct(a: seq<PartyId>, b: seq<PartyId>)
    requires Distinct(a) && multiset(a) == multiset(b)
    ensures Distinct(b)
  {
    forall p ensures multiset(b)[p] <= 1 {
      CountOf(a, p);
    }
    DistinctByCount(b);
  }

  lemma VoteKeeps(senders: seq<PartyId>, s: State, messages: seq<Message>, from: PartyId, value: Value)
    requires Inv(senders, s, messages) && !s.isCompleted
    ensures Inv(senders, CheckSchedule(AddVote(s, from, value)), messages + [Vote(from, value)])
  {
    hide Distinct, Without, AllVoted;
    MoreVoted(s.froms, s.received, messages, Vote(from, value));
    if from in s.senders {
      MovedSender(s.senders, s.froms, from);
    }
  }

  lemma MoreVoted(froms: seq<PartyId>, received: seq<Value>, messages: seq<Message>, m: Message)
    requires AllVoted(froms, received, messages)
    ensures AllVoted(froms, received, messages + [m])
    ensures m.Vote? ==> AllVoted(froms + [m.from], received + [m.value], messages + [m])
  {
    forall i | 0 <= i < |froms| ensures Voted(messages + [m], froms[i], received[i]) {
      assert Voted(messages, froms[i], received[i]);
    }
    assert m.Vote? ==> Voted(messages + [m], m.from, m.value);
  }

  lemma MovedSender(senders: seq<PartyId>, froms: seq<PartyId>, p: PartyId)
    requires p in senders && Distinct(senders + froms)
    ensures multiset(Without(senders, p) + (froms + [p])) == multiset(senders + froms)
    ensures Distinct(Without(senders, p) + (froms + [p]))
  {
    hide Distinct, Without;
    WithoutKeeps(senders, p);
    SameElementsDistinct(senders + froms, Without(senders, p) + (froms + [p]));
  }

  lemma TallyKeeps(senders: seq<PartyId>, s: State, messages: seq<Message>, m: Message, t: State)
    requires Inv(senders, s, messages) && Handles(s, m, t) && m.NextRound?
    ensures Inv(senders, t, messages + [m])
  {
    hide Distinct, AllVoted;
    MoreVoted(s.froms, s.received, messages, m);
  }

  lemma {:induction false} RunOk(senders: seq<PartyId>, states: seq<State>, messages: seq<Message>, k: nat)
    requires Distinct(senders) && IsRun(senders, states, messages) && k < |states|
    ensures Inv(senders, states[k], messages[..k])
  {
    hide Inv, Handles, Distinct;
    if k == 0 {
      StartOk(senders);
      assert messages[..0] == [];
    } else {
      RunOk(senders, states, messages, k - 1);
      var s, t, m := states[k - 1], states[k], messages[k - 1];
      assert Handles(s, m, t);
      assert messages[..k] == messages[..k - 1] + [m];
      StepKeeps(senders, s, messages[..k - 1], m, t);
    }
  }

  lemma StepKeeps(senders: seq<PartyId>, s: State, messages: seq<Message>, m: Message, t: State)
    requires Inv(senders, s, messages) && Handles(s, m, t)
    ensures Inv(senders, t, messages + [m])
  {
    hide Inv;
    match m
    case Vote(from, value) => VoteKeeps(senders, s, messages, from, value);
    case NextRound(_) => TallyKeeps(senders, s, messages, m, t);
  }

  lemma StartOk(senders: seq<PartyId>)
    requires Distinct(senders)
    ensures Inv(senders, Start(senders), [])
  {
    assert senders + [] == senders;
  }

  // ----- a result has a majority behind it -----

  /** The senders whose received vote is v. */
  ghost function Backers(received: seq<Value>, froms: seq<PartyId>, v: Value): (r: set<PartyId>)
    requires |received| == |froms|
  {
    set i | 0 <= i < |froms| && received[i] == v :: froms[i]
  }

  lemma {:induction false} BackersCount(received: seq<Value>, froms: seq<PartyId>, v: Value)
    requires |received| == |froms| && Distinct(froms)
    ensures |Backers(received, froms, v)| == multiset(received)[v]
    decreases |received|
  {
    if received == [] {
      assert Backers(received, froms, v) == {};
    } else {
      var k := |received| - 1;
      assert received == received[..k] + [received[k]];
      BackersCount(received[..k], froms[..k], v);
      var before := Backers(received[..k], froms[..k], v);
      BackersNext(received, froms, v);
      if received[k] == v {
        assert froms[k] !in before;
      }
    }
  }

  lemma BackersNext(received: seq<Value>, froms: seq<PartyId>, v: Value)
    requires |received| == |froms| > 0
    ensures var k := |received| - 1;
      Backers(received, froms, v) ==
      Backers(received[..k], froms[..k], v) + (if received[k] == v then {froms[k]} else {})
  {
    var k := |received| - 1;
    var r, before := Backers(received, froms, v), Backers(received[..k], froms[..k], v);
    forall p ensures p in r <==> p in before || (received[k] == v && p == froms[k]) {
      if p in r {
        var i :| 0 <= i < |froms| && received[i] == v && froms[i] == p;
        if i < k { assert received[..k][i] == v && froms[..k][i] == p; }
      }
      if p in before {
        var i :| 0 <= i < k && received[..k][i] == v && froms[..k][i] == p;
        assert received[i] == v && froms[i] == p;
      }
    }
  }

  ghost predicate Majority(senders: seq<PartyId>, messages: seq<Message>, v: Value, backers: set<PartyId>) {
    && |backers| >= |senders| / 2 + 1
    && forall p :: p in backers ==> p in senders && Voted(messages, p, v)
  }

  /** In every run, a result was sent by more than half of the original senders. */
  lemma ResultHasMajority(senders: seq<PartyId>, states: seq<State>, messages: seq<Message>, k: nat) returns (backers: set<PartyId>)
    requires Distinct(senders) && IsRun(senders, states, messages) && k < |states| && states[k].result.Some?
    ensures Majority(senders, messages, states[k].result.value, backers)
  {
    assert |states| == |messages| + 1;
    hide IsRun, Distinct;
    RunOk(senders, states, messages, k);
    var s := states[k];
    backers := Backers(s.received, s.froms, s.result.value);
    FromsDistinct(s.senders, s.froms);
    BackersCount(s.received, s.froms, s.result.value);
    forall p | p in backers ensures p in senders && Voted(messages, p, s.result.value) {
      var i :| 0 <= i < |s.froms| && s.received[i] == s.result.value && s.froms[i] == p;
      assert Voted(messages[..k], p, s.result.value);
      assert p in multiset(s.senders + s.froms);
    }
  }

  lemma FromsDistinct(a: seq<PartyId>, b: seq<PartyId>)
    requires Distinct(a + b)
    ensures Distinct(b)
  {
    forall i, j | 0 <= i < j < |b| ensures b[i] != b[j] {
      assert (a + b)[|a| + i] == b[i] && (a + b)[|a| + j] == b[j];
    }
  }

  lemma {:induction false} SetOf(s: seq<PartyId>, r: set<PartyId>)
    requires Distinct(s) && forall p :: p in r ==> p in s
    ensures |r| <= |s|
  {
    if s == [] {
      assert r == {};
    } else {
      var rest := r - {s[0]};
      forall p | p in rest ensures p in s[1..] { }
      assert Distinct(s[1..]);
      SetOf(s[1..], rest);
      assert |r| <= |rest| + 1 by {
        if s[0] in r { assert r == rest + {s[0]}; } else { assert r == rest; }
      }
    }
  }

  /** Two receivers of the same senders never disagree unless some sender told them different
      values. */
  lemma DisagreementNeedsEquivocation(senders: seq<PartyId>,
      states1: seq<State>, messages1: seq<Message>, k1: nat, states2: seq<State>, messages2: seq<Message>, k2: nat) returns (p: PartyId)
    requires Distinct(senders) && IsRun(senders, states1, messages1) && IsRun(senders, states2, messages2)
    requires k1 < |states1| && k2 < |states2| && states1[k1].result.Some? && states2[k2].result.Some?
    ensures p in senders
    ensures Voted(messages1, p, states1[k1].result.value) && Voted(messages2, p, states2[k2].result.value)
  {
    hide IsRun, Distinct;
    var b1 := ResultHasMajority(senders, states1, messages1, k1);
    var b2 := ResultHasMajority(senders, states2, messages2, k2);
    if b1 * b2 == {} {
      assert |b1 + b2| == |b1| + |b2|;
      SetOf(senders, b1 + b2);
    }
    p :| p in b1 * b2;
  }

  // ----- few faulty senders -----

  lemma TwoThirdsMeans(r: nat, k: nat)
    ensures r >= TwoThirds(k) <==> 3 * r >= 2 * k
  {
  }

  ghost predicate OnlyVotes(messages: seq<Message>) {
    forall i :: 0 <= i < |messages| ==> messages[i].Vote?
  }

  /** No vote comes from the given parties. */
  ghost predicate NoneFrom(messages: seq<Message>, who: set<PartyId>) {
    forall i :: 0 <= i < |messages| ==> messages[i].Vote? && messages[i].from !in who
  }

  /** Whatever the given parties vote is v. */
  ghost predicate VotesOnly(messages: seq<Message>, who: set<PartyId>, v: Value) {
    forall p, u :: p in who && Voted(messages, p, u) ==> u == v
  }

  /** The votes handled one after the other, before any tally. */
  ghost function Receive(s: State, messages: seq<Message>): State
    requires OnlyVotes(messages)
  {
    if messages == [] then s
    else
      var m := messages[|messages| - 1];
      CheckSchedule(AddVote(Receive(s, messages[..|messages| - 1]), m.from, m.value))
  }

  lemma {:induction false} ReceiveOk(senders: seq<PartyId>, messages: seq<Message>)
    requires Distinct(senders) && OnlyVotes(messages)
    ensures Inv(senders, Receive(Start(senders), messages), messages)
    ensures !Receive(Start(senders), messages).isCompleted
  {
    hide Inv, Distinct;
    if messages == [] {
      StartOk(senders);
    } else {
      var init, m := messages[..|messages| - 1], messages[|messages| - 1];
      ReceiveOk(senders, init);
      assert messages == init + [m];
      VoteKeeps(senders, Receive(Start(senders), init), init, m.from, m.value);
    }
  }

  /** How many votes have been taken: at most as many as there are faulty senders. */
  lemma FewReceived(senders: seq<PartyId>, s: State, messages: seq<Message>, honest: set<PartyId>, faulty: set<PartyId>)
    requires Inv(senders, s, messages) && NoneFrom(messages, honest)
    requires forall p :: p in senders ==> p in honest || p in faulty
    ensures |s.received| <= |faulty| && |s.senders| + |s.received| == |senders|
  {
    assert |s.senders + s.froms| == |multiset(s.senders + s.froms)| == |multiset(senders)| == |senders|;
    FromsDistinct(s.senders, s.froms);
    hide Distinct;
    forall i | 0 <= i < |s.froms| ensures s.froms[i] in faulty {
      assert Voted(messages, s.froms[i], s.received[i]);
      assert s.froms[i] in multiset(s.senders + s.froms);
    }
    SeqInSet(s.froms, faulty);
  }

  lemma {:induction false} SeqInSet(s: seq<PartyId>, r: set<PartyId>)
    requires Distinct(s) && forall i :: 0 <= i < |s| ==> s[i] in r
    ensures |s| <= |r|
  {
    if s != [] {
      forall i | 0 <= i < |s[1..]| ensures s[1..][i] in r - {s[0]} {
        assert s[1..][i] == s[i + 1];
      }
      SeqInSet(s[1..], r - {s[0]});
    }
  }

  /** Before any honest vote arrives, fewer than two fifths of faulty senders cannot start the tally. */
  lemma {:induction false} NotScheduledEarly(senders: seq<PartyId>, early: seq<Message>, honest: set<PartyId>, faulty: set<PartyId>)
    requires Distinct(senders) && OnlyVotes(early) && NoneFrom(early, honest)
    requires (forall p :: p in senders ==> p in honest || p in faulty) && 5 * |faulty| < 2 * |senders|
    ensures !Receive(Start(senders), early).scheduledTally
    decreases |early|
  {
    hide Inv, Distinct;
    if early != [] {
      NotScheduledEarly(senders, early[..|early| - 1], honest, faulty);
      var s := Receive(Start(senders), early);
      ReceiveOk(senders, early);
      FewReceived(senders, s, early, honest, faulty);
      TwoThirdsMeans(|s.received|, |s.senders|);
    }
  }

  /** A sender whose vote was handled is no longer awaited. */
  lemma {:induction false} VoterGone(senders: seq<PartyId>, messages: seq<Message>, p: PartyId, v: Value)
    requires Distinct(senders) && OnlyVotes(messages) && Voted(messages, p, v)
    ensures p !in Receive(Start(senders), messages).senders
    decreases |messages|
  {
    hide Inv, Distinct;
    var init, m := messages[..|messages| - 1], messages[|messages| - 1];
    assert messages == init + [m];
    var s := Receive(Start(senders), init);
    if m == Vote(p, v) {
      ReceiveOk(senders, init);
      if p in s.senders { GoneAfter(senders, s, init, p); }
    } else {
      VoterGone(senders, init, p, v);
      if m.from in s.senders { StaysGone(s.senders, m.from, p); }
    }
  }

  lemma GoneAfter(senders: seq<PartyId>, s: State, messages: seq<Message>, p: PartyId)
    requires Inv(senders, s, messages) && p in s.senders
    ensures p !in Without(s.senders, p)
  {
    CountOf(s.senders + s.froms, p);
    hide Distinct, AllVoted;
    assert multiset(s.senders + s.froms) == multiset(s.senders) + multiset(s.froms);
    WithoutKeeps(s.senders, p);
    assert p in Without(s.senders, p) <==> p in multiset(Without(s.senders, p));
  }

  lemma StaysGone(s: seq<PartyId>, q: PartyId, p: PartyId)
    requires q in s && p !in s
    ensures p !in Without(s, q)
  {
    WithoutKeeps(s, q);
    assert p in Without(s, q) <==> p in multiset(Without(s, q));
  }

  lemma HonestBacks(senders: seq<PartyId>, messages: seq<Message>, honest: set<PartyId>, v: Value, p: PartyId)
    requires Distinct(senders) && OnlyVotes(messages) && VotesOnly(messages, honest, v)
    requires p in honest && p in senders && Voted(messages, p, v)
    ensures var s := Receive(Start(senders), messages); |s.received| == |s.froms| && p in Backers(s.received, s.froms, v)
  {
    hide Distinct, Receive;
    ReceiveOk(senders, messages);
    VoterGone(senders, messages, p, v);
    var s := Receive(Start(senders), messages);
    assert p in multiset(senders) && p in multiset(s.senders + s.froms);
    var i :| 0 <= i < |s.froms| && s.froms[i] == p;
    assert Voted(messages, s.froms[i], s.received[i]);
  }

  /** With fewer than two fifths of the senders faulty, once all honest votes for v are in: the tally
      has been scheduled, and whenever it runs the result is v. */
  lemma HonestMajorityWins(senders: seq<PartyId>, messages: seq<Message>, honest: set<PartyId>, faulty: set<PartyId>,
      v: Value, from: PartyId, t: State)
    requires Distinct(senders) && OnlyVotes(messages) && VotesOnly(messages, honest, v)
    requires (forall p :: p in honest ==> p in senders && Voted(messages, p, v))
    requires (forall p :: p in senders ==> p in honest || p in faulty) && 5 * |faulty| < 2 * |senders|
    requires Handles(Receive(Start(senders), messages), NextRound(from), t)
    ensures t.result == Some(v)
  {
    hide Distinct, Receive;
    var s := Receive(Start(senders), messages);
    ReceiveOk(senders, messages);
    HonestCount(senders, honest, faulty);
    forall p | p in honest ensures |s.received| == |s.froms| && p in Backers(s.received, s.froms, v) {
      HonestBacks(senders, messages, honest, v, p);
    }
    FromsDistinct(s.senders, s.froms);
    BackersCount(s.received, s.froms, v);
    Subset(honest, Backers(s.received, s.froms, v));
    OneMajority(senders, s, messages, v, t.result);
  }

  lemma {:induction false} Subset(a: set<PartyId>, b: set<PartyId>)
    requires a <= b
    ensures |a| <= |b|
  {
    assert b == a + (b - a);
  }

  lemma HonestCount(senders: seq<PartyId>, honest: set<PartyId>, faulty: set<PartyId>)
    requires Distinct(senders) && (forall p :: p in senders ==> p in honest || p in faulty) && 5 * |faulty| < 2 * |senders|
    ensures |honest| >= |senders| / 2 + 1
  {
    SeqInSet(senders, honest + faulty);
    assert |honest + faulty| <= |honest| + |faulty| by {
      assert honest + faulty == honest + (faulty - honest);
      Subset(faulty - honest, faulty);
    }
  }

  /** Two values cannot both reach the threshold. */
  lemma OneMajority(senders: seq<PartyId>, s: State, messages: seq<Message>, v: Value, r: Option<Value>)
    requires Inv(senders, s, messages) && multiset(s.received)[v] >= s.threshold && IsTally(s.received, s.threshold, r)
    ensures r == Some(v)
  {
    hide Distinct, AllVoted;
    assert |s.received| == |s.froms| by { SameLength(s, messages); }
    assert |s.senders + s.froms| == |multiset(s.senders + s.froms)| == |multiset(senders)| == |senders|;
    if r.Some? && r.value != v {
      TwoCounts(s.received, v, r.value);
    }
  }

  lemma SameLength(s: State, messages: seq<Message>)
    requires AllVoted(s.froms, s.received, messages)
    ensures |s.received| == |s.froms|
  {
  }

  lemma {:induction false} TwoCounts(q: seq<Value>, a: Value, b: Value)
    requires a != b
    ensures multiset(q)[a] + multiset(q)[b] <= |q|
  {
    if q != [] {
      assert q == [q[0]] + q[1..];
      TwoCounts(q[1..], a, b);
    }
  }

  /** Once all honest votes are in, the party has sent itself the round message. */
  lemma ScheduledInTime(senders: seq<PartyId>, messages: seq<Message>, honest: set<PartyId>, faulty: set<PartyId>, v: Value)
    requires Distinct(senders) && OnlyVotes(messages) && VotesOnly(messages, honest, v)
    requires (forall p :: p in honest ==> p in senders && Voted(messages, p, v))
    requires (forall p :: p in senders ==> p in honest || p in faulty) && 5 * |faulty| < 2 * |senders|
    ensures Receive(Start(senders), messages).scheduledTally
  {
    hide Distinct, Inv;
    HonestCount(senders, honest, faulty);
    assert messages != [] by {
      assert honest != {};
      var p :| p in honest;
      assert Voted(messages, p, v);
    }
    ManyReceived(senders, messages, honest, v);
    var s := Receive(Start(senders), messages);
    TwoThirdsMeans(|s.received|, |s.senders|);
  }

  lemma ManyReceived(senders: seq<PartyId>, messages: seq<Message>, honest: set<PartyId>, v: Value)
    requires Distinct(senders) && OnlyVotes(messages) && VotesOnly(messages, honest, v)
    requires (forall p :: p in honest ==> p in senders && Voted(messages, p, v))
    ensures var s := Receive(Start(senders), messages); |s.received| >= |honest| && |s.senders| + |s.received| == |senders|
  {
    hide Distinct, Receive, VotesOnly;
    var s := Receive(Start(senders), messages);
    ReceiveOk(senders, messages);
    SameLength(s, messages);
    assert |s.senders + s.froms| == |multiset(s.senders + s.froms)| == |multiset(senders)| == |senders|;
    forall p | p in honest ensures p in Backers(s.received, s.froms, v) {
      HonestBacks(senders, messages, honest, v, p);
    }
    Subset(honest, Backers(s.received, s.froms, v));
    FromsDistinct(s.senders, s.froms);
    BackersCount(s.received, s.froms, v);
    assert multiset(s.received)[v] <= |s.received| by { TwoCounts(s.received, v, v + 1); }
  }

  // ----- what the tally says, whoever starts it -----

  /** The first vote of p among the messages: later ones are ignored. */
  ghost function FirstVote(messages: seq<Message>, p: PartyId): Option<Value> {
    if messages == [] then None
    else
      var f, m := FirstVote(messages[..|messages| - 1], p), messages[|messages| - 1];
      if f.Some? then f else if m.Vote? && m.from == p then Some(m.value) else None
  }

  ghost function Supporters(senders: seq<PartyId>, messages: seq<Message>, v: Value): set<PartyId> {
    set p | p in senders && FirstVote(messages, p) == Some(v)
  }

  /** The votes taken are the first votes of the listed senders that have voted. */
  ghost predicate Taken(senders: seq<PartyId>, s: State, messages: seq<Message>) {
    && |s.received| == |s.froms|
    && (forall i :: 0 <= i < |s.froms| ==> s.froms[i] in senders && FirstVote(messages, s.froms[i]) == Some(s.received[i]))
    && (forall p :: p in senders && FirstVote(messages, p).None? ==> p in s.senders)
    && (forall p :: p in senders && FirstVote(messages, p).Some? ==> p in s.froms)
    && (forall p :: p in s.senders ==> p in senders && FirstVote(messages, p).None?)
  }

  lemma FirstVoteNext(messages: seq<Message>, m: Message, p: PartyId)
    requires m.Vote?
    ensures FirstVote(messages + [m], p) ==
      if FirstVote(messages, p).Some? then FirstVote(messages, p) else if m.from == p then Some(m.value) else None
  {
    assert (messages + [m])[..|messages|] == messages;
  }

  lemma VoteTaken(senders: seq<PartyId>, s: State, messages: seq<Message>, from: PartyId, value: Value)
    requires Inv(senders, s, messages) && Taken(senders, s, messages)
    ensures Taken(senders, AddVote(s, from, value), messages + [Vote(from, value)])
  {
    var m := Vote(from, value);
    forall p ensures FirstVote(messages + [m], p) ==
      if FirstVote(messages, p).Some? then FirstVote(messages, p) else if m.from == p then Some(m.value) else None
    {
      FirstVoteNext(messages, m, p);
    }
    if from in s.senders {
      GoneAfter(senders, s, messages, from);
      WithoutMembers(s.senders, from);
    }
    hide FirstVote, Inv, Without;
  }

  lemma {:induction false} WithoutMembers(s: seq<PartyId>, p: PartyId)
    ensures forall q :: q != p ==> (q in Without(s, p) <==> q in s)
  {
    if s != [] {
      WithoutMembers(s[1..], p);
      assert s == [s[0]] + s[1..];
    }
  }

  lemma {:induction false} ReceiveTaken(senders: seq<PartyId>, messages: seq<Message>)
    requires Distinct(senders) && OnlyVotes(messages)
    ensures Taken(senders, Receive(Start(senders), messages), messages)
    decreases |messages|
  {
    hide Inv, Distinct, AddVote;
    if messages != [] {
      var init, m := messages[..|messages| - 1], messages[|messages| - 1];
      assert messages == init + [m];
      ReceiveTaken(senders, init);
      ReceiveOk(senders, init);
      VoteTaken(senders, Receive(Start(senders), init), init, m.from, m.value);
    }
  }

  lemma SupportersCount(senders: seq<PartyId>, messages: seq<Message>, v: Value)
    requires Distinct(senders) && OnlyVotes(messages)
    ensures multiset(Receive(Start(senders), messages).received)[v] == |Supporters(senders, messages, v)|
  {
    var s := Receive(Start(senders), messages);
    ReceiveTaken(senders, messages);
    ReceiveOk(senders, messages);
    FromsDistinct(s.senders, s.froms);
    BackersCount(s.received, s.froms, v);
    hide Distinct, Receive, FirstVote, Inv;
    var b, c := Backers(s.received, s.froms, v), Supporters(senders, messages, v);
    forall p ensures p in b <==> p in c {
      if p in c {
        var i :| 0 <= i < |s.froms| && s.froms[i] == p;
      }
    }
    assert b == c;
  }

  /** The listed senders that have voted. */
  ghost function Voters(senders: seq<PartyId>, messages: seq<Message>): set<PartyId> {
    set p | p in senders && FirstVote(messages, p).Some?
  }

  lemma {:induction false} DistinctSize(q: seq<PartyId>, r: set<PartyId>)
    requires Distinct(q) && forall p :: p in r <==> p in q
    ensures |r| == |q|
  {
    if q == [] {
      assert r == {};
    } else {
      assert Distinct(q[1..]);
      assert q[0] in r && q[0] !in q[1..];
      forall p ensures p in r - {q[0]} <==> p in q[1..] {
        assert p in q <==> p == q[0] || p in q[1..];
      }
      DistinctSize(q[1..], r - {q[0]});
    }
  }

  lemma VotersCount(senders: seq<PartyId>, messages: seq<Message>)
    requires Distinct(senders) && OnlyVotes(messages)
    ensures var s := Receive(Start(senders), messages);
      |s.received| == |Voters(senders, messages)| && |s.senders| + |s.received| == |senders|
  {
    var s := Receive(Start(senders), messages);
    ReceiveTaken(senders, messages);
    ReceiveOk(senders, messages);
    FromsDistinct(s.senders, s.froms);
    assert |s.senders + s.froms| == |multiset(s.senders + s.froms)| == |multiset(senders)| == |senders|;
    hide Distinct, Receive, FirstVote, Inv;
    var c := Voters(senders, messages);
    forall p ensures p in c <==> p in s.froms {
      if p in s.froms {
        var i :| 0 <= i < |s.froms| && s.froms[i] == p;
      }
    }
    DistinctSize(s.froms, c);
  }

  lemma VotersGrow(senders: seq<PartyId>, messages: seq<Message>)
    requires messages != []
    ensures |Voters(senders, messages[..|messages| - 1])| <= |Voters(senders, messages)|
  {
    Subset(Voters(senders, messages[..|messages| - 1]), Voters(senders, messages));
  }

  /** The tally is scheduled exactly when two fifths of the listed senders have voted, each of them
      counted once. */
  lemma {:induction false} ScheduledExactly(senders: seq<PartyId>, messages: seq<Message>)
    requires Distinct(senders) && OnlyVotes(messages)
    ensures Receive(Start(senders), messages).scheduledTally <==>
      messages != [] && 5 * |Voters(senders, messages)| >= 2 * |senders|
    decreases |messages|
  {
    hide Distinct, Voters, FirstVote;
    if messages != [] {
      var init := messages[..|messages| - 1];
      ScheduledExactly(senders, init);
      VotersCount(senders, messages);
      VotersGrow(senders, messages);
      var s := Receive(Start(senders), messages);
      TwoThirdsMeans(|s.received|, |s.senders|);
    }
  }

  /** The round message is not checked for its sender. Whoever sends it, after whatever votes: the
      protocol is over, and the result is v if and only if a majority of the listed senders had voted
      for v first. */
  lemma ForeignRoundMessage(senders: seq<PartyId>, messages: seq<Message>, other: PartyId, t: State, v: Value)
    requires Distinct(senders) && OnlyVotes(messages) && Handles(Receive(Start(senders), messages), NextRound(other), t)
    ensures t.isCompleted
    ensures t.result == Some(v) <==> |Supporters(senders, messages, v)| >= |senders| / 2 + 1
    ensures messages == [] ==> t.result == None
  {
    var s := Receive(Start(senders), messages);
    ReceiveOk(senders, messages);
    SupportersCount(senders, messages, v);
    assert s.threshold == |senders| / 2 + 1;
    if multiset(s.received)[v] >= s.threshold {
      OneMajority(senders, s, messages, v, t.result);
    }
    if messages == [] {
      NoVotes(s, t);
    }
  }

  lemma NoVotes(s: State, t: State)
    requires s.received == [] && s.threshold > 0 && IsTally(s.received, s.threshold, t.result)
    ensures t.result == None
  {
    if t.result.Some? {
      assert multiset(s.received)[t.result.value] == 0;
    }
  }

  // ----- the votes and the round message in time -----

  datatype Arrival = Arrival(time: int, message: Message)

  function Messages(arrivals: seq<Arrival>): (r: seq<Message>)
    ensures |r| == |arrivals| && forall i :: 0 <= i < |r| ==> r[i] == arrivals[i].message
  {
    seq(|arrivals|, i requires 0 <= i < |arrivals| => arrivals[i].message)
  }

  /** The party sends itself the round message while it handles arrival i. */
  ghost predicate Schedules(states: seq<State>, i: nat) {
    i + 1 < |states| && !states[i].scheduledTally && states[i + 1].scheduledTally
  }

  ghost predicate RoundFor(states: seq<State>, arrivals: seq<Arrival>, me: PartyId, i: nat, j: nat) {
    i < j < |arrivals| && Schedules(states, i) && arrivals[j] == Arrival(arrivals[i].time + 1, NextRound(me))
  }

  /** What arrives at the party, in time order; it handles the arrivals until it is complete. A message
      takes one unit of time, and the only round messages are its own. */
  ghost predicate TimedRun(me: PartyId, senders: seq<PartyId>, states: seq<State>, arrivals: seq<Arrival>) {
    && 0 < |states| <= |arrivals| + 1
    && IsRun(senders, states, Messages(arrivals[..|states| - 1]))
    && (|states| == |arrivals| + 1 || states[|states| - 1].isCompleted)
    && (forall i, j :: 0 <= i < j < |arrivals| ==> arrivals[i].time <= arrivals[j].time)
    && (forall j :: 0 <= j < |arrivals| && arrivals[j].message.NextRound? ==> exists i :: RoundFor(states, arrivals, me, i, j))
    && (forall i :: 0 <= i < |arrivals| && Schedules(states, i) ==> exists j :: RoundFor(states, arrivals, me, i, j))
  }

  /** The honest parties multicast v in one round: their votes all arrive at one time. */
  ghost predicate OneRound(arrivals: seq<Arrival>, honest: set<PartyId>, v: Value, time: int) {
    && (forall p :: p in honest ==> Arrival(time, Vote(p, v)) in arrivals)
    && (forall k :: 0 <= k < |arrivals| && FromHonest(arrivals[k], honest) ==> arrivals[k] == Arrival(time, Vote(arrivals[k].message.from, v)))
  }

  ghost predicate FromHonest(a: Arrival, honest: set<PartyId>) {
    a.message.Vote? && a.message.from in honest
  }

  ghost predicate FewFaulty(senders: seq<PartyId>, honest: set<PartyId>, faulty: set<PartyId>) {
    && (forall p :: p in honest ==> p in senders) && (forall p :: p in senders ==> p in honest || p in faulty)
    && 5 * |faulty| < 2 * |senders|
  }

  /** As long as only votes have arrived, the state is what they give. */
  lemma {:induction false} StatesReceive(senders: seq<PartyId>, states: seq<State>, messages: seq<Message>, k: nat)
    requires Distinct(senders) && IsRun(senders, states, messages) && k <= |messages| && OnlyVotes(messages[..k])
    ensures states[k] == Receive(Start(senders), messages[..k]) && !states[k].isCompleted
  {
    hide Distinct;
    ReceiveOk(senders, messages[..k]);
    if k > 0 {
      assert messages[..k][..k - 1] == messages[..k - 1];
      assert OnlyVotes(messages[..k - 1]);
      StatesReceive(senders, states, messages, k - 1);
      assert Handles(states[k - 1], messages[k - 1], states[k]);
    }
  }

  /** When the flag is set, an honest vote has been handled. */
  lemma HonestByThen(senders: seq<PartyId>, states: seq<State>, messages: seq<Message>,
      honest: set<PartyId>, faulty: set<PartyId>, i: nat) returns (l: nat)
    requires Distinct(senders) && IsRun(senders, states, messages) && FewFaulty(senders, honest, faulty)
    requires i < |messages| && OnlyVotes(messages[..i + 1]) && states[i + 1].scheduledTally
    ensures l <= i && messages[l].Vote? && messages[l].from in honest
  {
    StatesReceive(senders, states, messages, i + 1);
    hide Distinct, IsRun, Receive;
    if NoneFrom(messages[..i + 1], honest) {
      NotScheduledEarly(senders, messages[..i + 1], honest, faulty);
      assert false;
    }
    l :| 0 <= l <= i && messages[..i + 1][l].from in honest;
  }

  lemma RoundMade(me: PartyId, senders: seq<PartyId>, states: seq<State>, arrivals: seq<Arrival>, j: nat) returns (i: nat)
    requires TimedRun(me, senders, states, arrivals) && j < |arrivals| && arrivals[j].message.NextRound?
    ensures RoundFor(states, arrivals, me, i, j)
  {
    hide IsRun;
    i :| RoundFor(states, arrivals, me, i, j);
  }

  lemma RunOfTimed(me: PartyId, senders: seq<PartyId>, states: seq<State>, arrivals: seq<Arrival>)
    requires TimedRun(me, senders, states, arrivals)
    ensures 0 < |states| <= |arrivals| + 1 && IsRun(senders, states, Messages(arrivals[..|states| - 1]))
    ensures |states| == |arrivals| + 1 || states[|states| - 1].isCompleted
  {
    hide IsRun;
  }

  lemma InTimeOrder(me: PartyId, senders: seq<PartyId>, states: seq<State>, arrivals: seq<Arrival>, i: nat, j: nat)
    requires TimedRun(me, senders, states, arrivals) && i <= j < |arrivals|
    ensures arrivals[i].time <= arrivals[j].time
  {
    hide IsRun;
  }

  /** A round message comes later than every honest vote. */
  lemma VotesBeforeRound(me: PartyId, senders: seq<PartyId>, states: seq<State>, arrivals: seq<Arrival>,
      honest: set<PartyId>, faulty: set<PartyId>, v: Value, time: int, j: nat, k: nat)
    requires Distinct(senders) && TimedRun(me, senders, states, arrivals) && FewFaulty(senders, honest, faulty)
    requires OneRound(arrivals, honest, v, time)
    requires j < |states| && j < |arrivals| && arrivals[j].message.NextRound? && OnlyVotes(Messages(arrivals[..j]))
    requires k < |arrivals| && FromHonest(arrivals[k], honest)
    ensures k < j
  {
    hide Distinct, TimedRun, IsRun, FewFaulty, OnlyVotes;
    RunOfTimed(me, senders, states, arrivals);
    var i := RoundMade(me, senders, states, arrivals, j);
    var messages := Messages(arrivals[..|states| - 1]);
    EarlyVotes(arrivals, |states| - 1, i + 1, j);
    var l := HonestByThen(senders, states, messages, honest, faulty, i);
    assert FromHonest(arrivals[l], honest);
    InTimeOrder(me, senders, states, arrivals, l, i);
    if k >= j {
      InTimeOrder(me, senders, states, arrivals, j, k);
      assert false;
    }
  }

  lemma EarlyVotes(arrivals: seq<Arrival>, n: nat, i: nat, j: nat)
    requires i <= j <= |arrivals| && i <= n <= |arrivals| && OnlyVotes(Messages(arrivals[..j]))
    ensures OnlyVotes(Messages(arrivals[..n])[..i])
  {
    forall l | 0 <= l < i ensures Messages(arrivals[..n])[l].Vote? {
      assert Messages(arrivals[..j])[l].Vote?;
    }
  }

  /** With fewer than two fifths of the senders faulty, honest parties that multicast v in one round and
      no round message but its own, a receiver ends with v: its tally comes after every honest vote. */
  lemma HonestRoundWins(me: PartyId, senders: seq<PartyId>, states: seq<State>, arrivals: seq<Arrival>,
      honest: set<PartyId>, faulty: set<PartyId>, v: Value, time: int)
    requires Distinct(senders) && TimedRun(me, senders, states, arrivals) && FewFaulty(senders, honest, faulty)
    requires OneRound(arrivals, honest, v, time)
    ensures |states| >= 2 && states[|states| - 1].isCompleted && states[|states| - 1].result == Some(v)
    ensures arrivals[|states| - 2].message == NextRound(me)
    ensures forall k :: 0 <= k < |arrivals| && FromHonest(arrivals[k], honest) ==> k < |states| - 2
  {
    hide Distinct, Handles, Inv, FewFaulty, OneRound;
    var j := FirstRound(me, senders, states, arrivals, honest, faulty, v, time);
    forall k | 0 <= k < |arrivals| && FromHonest(arrivals[k], honest) ensures k < j {
      VotesBeforeRound(me, senders, states, arrivals, honest, faulty, v, time, j, k);
    }
    RoundDecides(me, senders, states, arrivals, honest, faulty, v, time, j);
  }

  /** The first round message, which does arrive and is handled. */
  lemma FirstRound(me: PartyId, senders: seq<PartyId>, states: seq<State>, arrivals: seq<Arrival>,
      honest: set<PartyId>, faulty: set<PartyId>, v: Value, time: int) returns (j: nat)
    requires Distinct(senders) && TimedRun(me, senders, states, arrivals) && FewFaulty(senders, honest, faulty)
    requires OneRound(arrivals, honest, v, time)
    ensures j + 1 < |states| && arrivals[j].message == NextRound(me) && OnlyVotes(Messages(arrivals[..j]))
  {
    hide Distinct, TimedRun, IsRun, FewFaulty, OneRound, OnlyVotes, Schedules;
    RunOfTimed(me, senders, states, arrivals);
    RoundHandled(me, senders, states, arrivals, honest, faulty, v, time);
    var n := |states| - 1;
    j := FirstNonVote(Messages(arrivals[..n]));
    assert Messages(arrivals[..n])[..j] == Messages(arrivals[..j]);
    var i := RoundMade(me, senders, states, arrivals, j);
  }

  /** Without a round message the votes of the honest parties would bring one. */
  lemma RoundHandled(me: PartyId, senders: seq<PartyId>, states: seq<State>, arrivals: seq<Arrival>,
      honest: set<PartyId>, faulty: set<PartyId>, v: Value, time: int)
    requires Distinct(senders) && TimedRun(me, senders, states, arrivals) && FewFaulty(senders, honest, faulty)
    requires OneRound(arrivals, honest, v, time)
    ensures 0 < |states| <= |arrivals| + 1 && !OnlyVotes(Messages(arrivals[..|states| - 1]))
  {
    hide Distinct, TimedRun, IsRun, OneRound, OnlyVotes, Schedules, Receive, Start;
    RunOfTimed(me, senders, states, arrivals);
    var n := |states| - 1;
    var messages := Messages(arrivals[..n]);
    if OnlyVotes(messages) {
      assert messages[..n] == messages;
      StatesReceive(senders, states, messages, n);
      assert arrivals[..n] == arrivals;
      VotesOfRound(arrivals, honest, v, time);
      ScheduledInTime(senders, messages, honest, faulty, v);
      var i := ScheduleStep(senders, states, messages, n);
      var j := RoundArrives(me, senders, states, arrivals, i);
      NotAllVotes(messages, j);
      assert false;
    }
  }

  lemma NotAllVotes(messages: seq<Message>, j: nat)
    requires j < |messages| && messages[j].NextRound?
    ensures !OnlyVotes(messages)
  {
  }

  lemma RoundArrives(me: PartyId, senders: seq<PartyId>, states: seq<State>, arrivals: seq<Arrival>, i: nat) returns (j: nat)
    requires TimedRun(me, senders, states, arrivals) && i < |arrivals| && Schedules(states, i)
    ensures j < |arrivals| && Messages(arrivals)[j].NextRound?
  {
    hide IsRun;
    j :| RoundFor(states, arrivals, me, i, j);
  }

  lemma CompletedIsLast(senders: seq<PartyId>, states: seq<State>, messages: seq<Message>, k: nat)
    requires IsRun(senders, states, messages) && k < |messages|
    ensures !states[k].isCompleted
  {
    assert Handles(states[k], messages[k], states[k + 1]);
  }

  lemma {:induction false} FirstNonVote(messages: seq<Message>) returns (j: nat)
    requires !OnlyVotes(messages)
    ensures j < |messages| && messages[j].NextRound? && OnlyVotes(messages[..j])
  {
    j := 0;
    while messages[j].Vote?
      invariant j < |messages| && OnlyVotes(messages[..j])
      decreases |messages| - j
    {
      if j + 1 == |messages| {
        assert messages == messages[..j] + [messages[j]];
        assert OnlyVotes(messages);
        assert false;
      }
      assert messages[..j + 1] == messages[..j] + [messages[j]];
      j := j + 1;
    }
  }

  /** The tally flag is set at some step. */
  lemma {:induction false} ScheduleStep(senders: seq<PartyId>, states: seq<State>, messages: seq<Message>, n: nat) returns (i: nat)
    requires IsRun(senders, states, messages) && n <= |messages| && states[n].scheduledTally
    ensures i < n && Schedules(states, i)
  {
    if states[n - 1].scheduledTally {
      i := ScheduleStep(senders, states, messages, n - 1);
    } else {
      i := n - 1;
    }
  }

  lemma VotesOfRound(arrivals: seq<Arrival>, honest: set<PartyId>, v: Value, time: int)
    requires OneRound(arrivals, honest, v, time)
    ensures VotesOnly(Messages(arrivals), honest, v)
    ensures forall p :: p in honest ==> Voted(Messages(arrivals), p, v)
  {
    var messages := Messages(arrivals);
    forall p, u | p in honest && Voted(messages, p, u) ensures u == v {
      var k :| 0 <= k < |messages| && messages[k] == Vote(p, u);
      assert FromHonest(arrivals[k], honest);
    }
    forall p | p in honest ensures Voted(messages, p, v) {
      var k :| 0 <= k < |arrivals| && arrivals[k] == Arrival(time, Vote(p, v));
      assert messages[k] == Vote(p, v);
    }
  }

  lemma RoundDecides(me: PartyId, senders: seq<PartyId>, states: seq<State>, arrivals: seq<Arrival>,
      honest: set<PartyId>, faulty: set<PartyId>, v: Value, time: int, j: nat)
    requires Distinct(senders) && TimedRun(me, senders, states, arrivals) && FewFaulty(senders, honest, faulty)
    requires OneRound(arrivals, honest, v, time)
    requires j + 1 < |states| && arrivals[j].message == NextRound(me) && OnlyVotes(Messages(arrivals[..j]))
    requires forall k :: 0 <= k < |arrivals| && FromHonest(arrivals[k], honest) ==> k < j
    ensures |states| == j + 2 && states[j + 1].isCompleted && states[j + 1].result == Some(v)
  {
    hide Distinct, Inv, TimedRun, IsRun, OneRound, OnlyVotes, Receive, Start, Handles, VotesOnly, Voted;
    RunOfTimed(me, senders, states, arrivals);
    var messages := Messages(arrivals[..|states| - 1]);
    assert messages[..j] == Messages(arrivals[..j]);
    StatesReceive(senders, states, messages, j);
    EarlyRound(arrivals, honest, v, time, j);
    VotesOfRound(arrivals[..j], honest, v, time);
    RunStep(senders, states, messages, j);
    HonestMajorityWins(senders, messages[..j], honest, faulty, v, me, states[j + 1]);
    if |states| > j + 2 {
      CompletedIsLast(senders, states, messages, j + 1);
      assert false;
    }
  }

  lemma RunStep(senders: seq<PartyId>, states: seq<State>, messages: seq<Message>, j: nat)
    requires IsRun(senders, states, messages) && j < |messages|
    ensures j + 1 < |states| && Handles(states[j], messages[j], states[j + 1])
  {
  }

  lemma EarlyRound(arrivals: seq<Arrival>, honest: set<PartyId>, v: Value, time: int, j: nat)
    requires OneRound(arrivals, honest, v, time) && j <= |arrivals|
    requires forall k :: 0 <= k < |arrivals| && FromHonest(arrivals[k], honest) ==> k < j
    ensures OneRound(arrivals[..j], honest, v, time)
  {
    forall p | p in honest ensures Arrival(time, Vote(p, v)) in arrivals[..j] {
      var k :| 0 <= k < |arrivals| && arrivals[k] == Arrival(time, Vote(p, v));
      assert FromHonest(arrivals[k], honest);
      assert arrivals[..j][k] == arrivals[k];
    }
  }
}
