/** The circuit converter. */
module GateLowering {
  // It rewrites three-input gates into two-input gates.

  /** A line of the converted file. A gate has a truth table and its input wires. */
  datatype Line =
    | Header(text: string)
    | Input(name: string, wires: seq<int>)
    | Gate(index: int, table: seq<bool>, inputs: seq<int>)
    | Output(name: string, wires: seq<int>)

  const FIRST_UNLESS_THIRD: seq<bool> := [false, true, false, false]
  const NEITHER: seq<bool> := [true, false, false, false]
  const BOTH: seq<bool> := [false, false, false, true]
  const EITHER_NOT_BOTH: seq<bool> := [false, true, true, false]

  /** The third input selects the first or the second. */
  const SELECT: seq<bool> := [false, true, false, true, false, false, true, true]
  /** The third input selects the negated first or the second. */
  const SELECT_NOT: seq<bool> := [true, false, true, false, false, false, true, true]

  // ----- what a file computes -----

  type Wires = int -> bool

  /** The first input is the low bit of the table index. */
  function TableIndex(bits: seq<bool>): nat {
    if bits == [] then 0 else (if bits[0] then 1 else 0) + 2 * TableIndex(bits[1..])
  }

  function Bits(wires: seq<int>, e: Wires): (b: seq<bool>)
    ensures |b| == |wires| && forall i :: 0 <= i < |b| ==> b[i] == e(wires[i])
  {
    seq(|wires|, i requires 0 <= i < |wires| => e(wires[i]))
  }

  function GateValue(table: seq<bool>, bits: seq<bool>): bool {
    TableIndex(bits) < |table| && table[TableIndex(bits)]
  }

  function Set(e: Wires, index: int, value: bool): (r: Wires)
    ensures forall w :: r(w) == if w == index then value else e(w)
  {
    w => if w == index then value else e(w)
  }

  function Step(line: Line, e: Wires): Wires {
    if line.Gate? then Set(e, line.index, GateValue(line.table, Bits(line.inputs, e))) else e
  }

  function Evaluate(lines: seq<Line>, e: Wires): Wires {
    if lines == [] then e else Evaluate(lines[1..], Step(lines[0], e))
  }

  /** The values that the output lines name, in file order. */
  function Outputs(lines: seq<Line>, e: Wires): seq<seq<bool>> {
    if lines == [] then []
    else (if lines[0].Output? then [Bits(lines[0].wires, e)] else []) + Outputs(lines[1..], Step(lines[0], e))
  }

  lemma {:induction false} OutputsConcat(a: seq<Line>, b: seq<Line>, e: Wires)
    ensures Outputs(a + b, e) == Outputs(a, e) + Outputs(b, Evaluate(a, e))
  {
    hide Step, Bits;
    if a == [] {
      assert a + b == b;
    } else {
      assert (a + b)[1..] == a[1..] + b;
      OutputsConcat(a[1..], b, Step(a[0], e));
    }
  }

  // ----- well-formed files -----

  function Power(n: nat): nat {
    if n == 0 then 1 else 2 * Power(n - 1)
  }

  ghost predicate RefersTo(wires: seq<int>, low: int, defined: set<int>) {
    forall i :: 0 <= i < |wires| ==> wires[i] < low || wires[i] in defined
  }

  /** Gate indices increase from low on, gates have at most three inputs, and every wire that is
      read is below low (an input or a constant) or the output of an earlier gate. */
  ghost predicate WellFormed(lines: seq<Line>, low: int, last: int, defined: set<int>) {
    lines == [] || (LineFits(lines[0], low, last, defined) &&
                    WellFormed(lines[1..], low, LastAfter(lines[0], last), DefinedAfter(lines[0], defined)))
  }

  ghost predicate LineFits(line: Line, low: int, last: int, defined: set<int>) {
    match line
    case Header(_) => true
    case Input(_, wires) => forall i :: 0 <= i < |wires| ==> wires[i] < low
    case Output(_, wires) => RefersTo(wires, low, defined)
    case Gate(index, table, inputs) =>
      low <= index && last < index && |inputs| <= 3 && |table| == Power(|inputs|) && RefersTo(inputs, low, defined)
  }

  function LastAfter(line: Line, last: int): int {
    if line.Gate? then line.index else last
  }

  function DefinedAfter(line: Line, defined: set<int>): set<int> {
    if line.Gate? then defined + {line.index} else defined
  }

  lemma {:induction false} WellFormedConcat(a: seq<Line>, b: seq<Line>, low: int, last: int, defined: set<int>)
    ensures WellFormed(a + b, low, last, defined) <==>
      WellFormed(a, low, last, defined) && WellFormed(b, low, Lasts(a, last), Defined(a, defined))
  {
    hide LineFits;
    if a == [] {
      assert a + b == b;
    } else {
      assert (a + b)[1..] == a[1..] + b;
      WellFormedConcat(a[1..], b, low, LastAfter(a[0], last), DefinedAfter(a[0], defined));
    }
  }

  function Lasts(lines: seq<Line>, last: int): int {
    if lines == [] then last else Lasts(lines[1..], LastAfter(lines[0], last))
  }

  function Defined(lines: seq<Line>, defined: set<int>): set<int> {
    if lines == [] then defined else Defined(lines[1..], DefinedAfter(lines[0], defined))
  }

  // ----- one pass -----

  predicate Wide(line: Line) {
    line.Gate? && |line.inputs| > 2
  }

  function CountWide(lines: seq<Line>): nat {
    if lines == [] then 0 else (if Wide(lines[0]) then 1 else 0) + CountWide(lines[1..])
  }

  /** By how much later wires move. */
  function Push(table: seq<bool>): int {
    if table == SELECT || table == SELECT_NOT then 2 else 4
  }

  function Split(line: Line): seq<Line>
    requires line.Gate? && |line.inputs| >= 3 && |line.table| >= 8
  {
    var n, a, b, c := line.index, line.inputs[0], line.inputs[1], line.inputs[2];
    if line.table == SELECT then
      [Gate(n, FIRST_UNLESS_THIRD, [a, c]), Gate(n + 1, BOTH, [b, c]), Gate(n + 2, EITHER_NOT_BOTH, [n, n + 1])]
    else if line.table == SELECT_NOT then
      [Gate(n, NEITHER, [a, c]), Gate(n + 1, BOTH, [b, c]), Gate(n + 2, EITHER_NOT_BOTH, [n, n + 1])]
    else
      [Gate(n, line.table[..4], [a, b]), Gate(n + 1, line.table[4..8], [a, b]),
       Gate(n + 2, FIRST_UNLESS_THIRD, [n, c]), Gate(n + 3, BOTH, [n + 1, c]),
       Gate(n + 4, EITHER_NOT_BOTH, [n + 2, n + 3])]
  }

  function ShiftWire(w: int, index: int, push: int): int {
    if w >= index then w + push else w
  }

  function ShiftWires(wires: seq<int>, index: int, push: int, k: nat): (r: seq<int>)
    requires k <= |wires|
    ensures |r| == |wires|
    ensures forall i :: 0 <= i < |r| ==> r[i] == if i < k then ShiftWire(wires[i], index, push) else wires[i]
  {
    seq(|wires|, i requires 0 <= i < |wires| => if i < k then ShiftWire(wires[i], index, push) else wires[i])
  }

  function ShiftLine(line: Line, index: int, push: int): Line {
    match line
    case Gate(n, table, inputs) => Gate(n + push, table, ShiftWires(inputs, index, push, |inputs|))
    case Output(name, wires) => Output(name, ShiftWires(wires, index, push, |wires|))
    case _ => line
  }

  function ShiftLines(lines: seq<Line>, index: int, push: int): seq<Line> {
    if lines == [] then [] else [ShiftLine(lines[0], index, push)] + ShiftLines(lines[1..], index, push)
  }

  /** The file after one pass: the first wide gate is split, and everything after it moves. */
  ghost function Pass(lines: seq<Line>): seq<Line>
    requires WideFits(lines)
  {
    if lines == [] then []
    else if Wide(lines[0]) then
      Split(lines[0]) + ShiftLines(lines[1..], lines[0].index, Push(lines[0].table))
    else [lines[0]] + Pass(lines[1..])
  }

  predicate WideFits(lines: seq<Line>) {
    forall i :: 0 <= i < |lines| && Wide(lines[i]) ==> |lines[i].table| >= 8
  }

  lemma {:induction false} WellFormedWide(lines: seq<Line>, low: int, last: int, defined: set<int>)
    requires WellFormed(lines, low, last, defined)
    ensures WideFits(lines)
    ensures forall i :: 0 <= i < |lines| && Wide(lines[i]) ==> |lines[i].inputs| == 3 && |lines[i].table| == 8
  {
    if lines != [] {
      WellFormedWide(lines[1..], low, LastAfter(lines[0], last), DefinedAfter(lines[0], defined));
      forall i | 0 <= i < |lines| && Wide(lines[i]) ensures |lines[i].inputs| == 3 && |lines[i].table| == 8 {
        if i > 0 {
          assert lines[1..][i - 1] == lines[i];
        } else {
          assert Power(3) == 2 * Power(2) && Power(2) == 2 * Power(1) && Power(1) == 2 * Power(0);
        }
      }
    }
  }

  // ----- the split computes the gate -----

  lemma TwoBits(table: seq<bool>, x: bool, y: bool)
    requires |table| == 4
    ensures GateValue(table, [x, y]) == table[(if x then 1 else 0) + (if y then 2 else 0)]
  {
    assert [x, y][1..] == [y] && [y][1..] == [];
    assert TableIndex([y]) == (if y then 1 else 0) + 2 * TableIndex([]);
    assert TableIndex([x, y]) == (if x then 1 else 0) + 2 * TableIndex([y]);
  }

  lemma ThreeBits(table: seq<bool>, x: bool, y: bool, z: bool)
    requires |table| == 8
    ensures GateValue(table, [x, y, z]) == table[(if x then 1 else 0) + (if y then 2 else 0) + (if z then 4 else 0)]
  {
    assert [x, y, z][1..] == [y, z] && [y, z][1..] == [z] && [z][1..] == [];
    assert TableIndex([z]) == (if z then 1 else 0) + 2 * TableIndex([]);
    assert TableIndex([y, z]) == (if y then 1 else 0) + 2 * TableIndex([z]);
    assert TableIndex([x, y, z]) == (if x then 1 else 0) + 2 * TableIndex([y, z]);
  }

  lemma StepTwo(n: int, table: seq<bool>, a: int, b: int, e: Wires)
    requires |table| == 4
    ensures var value := table[(if e(a) then 1 else 0) + (if e(b) then 2 else 0)];
      forall w :: Step(Gate(n, table, [a, b]), e)(w) == if w == n then value else e(w)
  {
    assert Bits([a, b], e) == [e(a), e(b)];
    TwoBits(table, e(a), e(b));
  }

  lemma EvaluateOne(line: Line, rest: seq<Line>, e: Wires)
    ensures Evaluate([line] + rest, e) == Evaluate(rest, Step(line, e))
  {
    assert ([line] + rest)[1..] == rest;
  }

  /** Both special tables: two products of the third input, then their exclusive or. */
  lemma SelectValue(n: int, low: seq<bool>, a: int, b: int, c: int, e: Wires)
    requires |low| == 4 && a < n && b < n && c < n
    ensures var lines := [Gate(n, low, [a, c]), Gate(n + 1, BOTH, [b, c]), Gate(n + 2, EITHER_NOT_BOTH, [n, n + 1])];
      var r := Evaluate(lines, e);
      (forall w :: w < n ==> r(w) == e(w)) &&
      r(n + 2) == (low[(if e(a) then 1 else 0) + (if e(c) then 2 else 0)] != (e(b) && e(c)))
  {
    var g0, g1, g2 := Gate(n, low, [a, c]), Gate(n + 1, BOTH, [b, c]), Gate(n + 2, EITHER_NOT_BOTH, [n, n + 1]);
    var e1 := Step(g0, e);
    StepTwo(n, low, a, c, e);
    var e2 := Step(g1, e1);
    StepTwo(n + 1, BOTH, b, c, e1);
    StepTwo(n + 2, EITHER_NOT_BOTH, n, n + 1, e2);
    EvaluateOne(g0, [g1, g2], e);
    EvaluateOne(g1, [g2], e1);
    EvaluateOne(g2, [], e2);
    assert [g0] + [g1, g2] == [g0, g1, g2] && [g1] + [g2] == [g1, g2] && [g2] + [] == [g2];
  }

  lemma MultiplexValue(n: int, low: seq<bool>, high: seq<bool>, a: int, b: int, c: int, e: Wires)
    requires |low| == 4 && |high| == 4 && a < n && b < n && c < n
    ensures var lines := [Gate(n, low, [a, b]), Gate(n + 1, high, [a, b]), Gate(n + 2, FIRST_UNLESS_THIRD, [n, c]),
                          Gate(n + 3, BOTH, [n + 1, c]), Gate(n + 4, EITHER_NOT_BOTH, [n + 2, n + 3])];
      var r := Evaluate(lines, e);
      var k := (if e(a) then 1 else 0) + (if e(b) then 2 else 0);
      (forall w :: w < n ==> r(w) == e(w)) && r(n + 4) == if e(c) then high[k] else low[k]
  {
    var g0, g1 := Gate(n, low, [a, b]), Gate(n + 1, high, [a, b]);
    var g2, g3, g4 := Gate(n + 2, FIRST_UNLESS_THIRD, [n, c]), Gate(n + 3, BOTH, [n + 1, c]), Gate(n + 4, EITHER_NOT_BOTH, [n + 2, n + 3]);
    var e1 := Step(g0, e);
    StepTwo(n, low, a, b, e);
    var e2 := Step(g1, e1);
    StepTwo(n + 1, high, a, b, e1);
    var e3 := Step(g2, e2);
    StepTwo(n + 2, FIRST_UNLESS_THIRD, n, c, e2);
    var e4 := Step(g3, e3);
    StepTwo(n + 3, BOTH, n + 1, c, e3);
    StepTwo(n + 4, EITHER_NOT_BOTH, n + 2, n + 3, e4);
    hide Step;
    EvaluateOne(g0, [g1, g2, g3, g4], e);
    EvaluateOne(g1, [g2, g3, g4], e1);
    EvaluateOne(g2, [g3, g4], e2);
    EvaluateOne(g3, [g4], e3);
    EvaluateOne(g4, [], e4);
    assert [g0] + [g1, g2, g3, g4] == [g0, g1, g2, g3, g4] && [g1] + [g2, g3, g4] == [g1, g2, g3, g4];
    assert [g2] + [g3, g4] == [g2, g3, g4] && [g3] + [g4] == [g3, g4] && [g4] + [] == [g4];
  }

  /** After the split, the last new wire has the gate's value and older wires are as before. */
  lemma SplitValue(line: Line, e: Wires)
    requires line.Gate? && |line.inputs| == 3 && |line.table| == 8
    requires forall i :: 0 <= i < 3 ==> line.inputs[i] < line.index
    ensures forall w :: w < line.index ==> Evaluate(Split(line), e)(w) == e(w)
    ensures Evaluate(Split(line), e)(line.index + Push(line.table)) == GateValue(line.table, Bits(line.inputs, e))
  {
    hide Evaluate, GateValue, TableIndex;
    var n, a, b, c := line.index, line.inputs[0], line.inputs[1], line.inputs[2];
    assert Bits(line.inputs, e) == [e(a), e(b), e(c)];
    ThreeBits(line.table, e(a), e(b), e(c));
    if line.table == SELECT {
      SelectValue(n, FIRST_UNLESS_THIRD, a, b, c, e);
    } else if line.table == SELECT_NOT {
      SelectValue(n, NEITHER, a, b, c, e);
    } else {
      MultiplexValue(n, line.table[..4], line.table[4..8], a, b, c, e);
    }
  }

  // ----- moving wires -----

  /** e2 holds the wires of e1 that are inputs or defined, moved by push from index on. */
  ghost predicate Moved(e1: Wires, e2: Wires, low: int, defined: set<int>, index: int, push: int) {
    forall w :: w < low || w in defined ==> e2(ShiftWire(w, index, push)) == e1(w)
  }

  lemma MovedBits(e1: Wires, e2: Wires, low: int, defined: set<int>, index: int, push: int, wires: seq<int>)
    requires Moved(e1, e2, low, defined, index, push) && RefersTo(wires, low, defined)
    ensures Bits(ShiftWires(wires, index, push, |wires|), e2) == Bits(wires, e1)
  {
  }

  lemma MovedStep(line: Line, e1: Wires, e2: Wires, low: int, last: int, defined: set<int>, index: int, push: int)
    requires Moved(e1, e2, low, defined, index, push) && LineFits(line, low, last, defined)
    requires low <= index <= last && push >= 0
    ensures Moved(Step(line, e1), Step(ShiftLine(line, index, push), e2), low, DefinedAfter(line, defined), index, push)
  {
    if line.Gate? {
      MovedBits(e1, e2, low, defined, index, push, line.inputs);
    }
  }

  /** The lines after the split give the same outputs on the moved wires. */
  lemma {:induction false} ShiftOutputs(lines: seq<Line>, e1: Wires, e2: Wires, low: int, last: int, defined: set<int>, index: int, push: int)
    requires WellFormed(lines, low, last, defined) && Moved(e1, e2, low, defined, index, push)
    requires low <= index <= last && push >= 0
    ensures Outputs(ShiftLines(lines, index, push), e2) == Outputs(lines, e1)
    decreases |lines|
  {
    hide Moved, Step, RefersTo;
    if lines != [] {
      var line, rest := lines[0], lines[1..];
      MovedStep(line, e1, e2, low, last, defined, index, push);
      if line.Output? {
        MovedBits(e1, e2, low, defined, index, push, line.wires);
      }
      ShiftOutputs(rest, Step(line, e1), Step(ShiftLine(line, index, push), e2),
        low, LastAfter(line, last), DefinedAfter(line, defined), index, push);
      ShiftFirst(lines, index, push);
    }
  }

  lemma ShiftFirst(lines: seq<Line>, index: int, push: int)
    requires lines != []
    ensures var r := ShiftLines(lines, index, push); r != [] && r[0] == ShiftLine(lines[0], index, push) && r[1..] == ShiftLines(lines[1..], index, push)
  {
  }

  /** What is defined after the split, and what the moved lines may refer to. */
  ghost predicate MovedDefined(defined: set<int>, moved: set<int>, index: int, push: int) {
    forall w :: w in defined ==> ShiftWire(w, index, push) in moved
  }

  lemma {:induction false} ShiftWellFormed(lines: seq<Line>, low: int, last: int, defined: set<int>, moved: set<int>, index: int, push: int)
    requires WellFormed(lines, low, last, defined) && MovedDefined(defined, moved, index, push)
    requires low <= index <= last && push >= 0
    ensures WellFormed(ShiftLines(lines, index, push), low, last + push, moved)
    ensures CountWide(ShiftLines(lines, index, push)) == CountWide(lines)
    decreases |lines|
  {
    if lines != [] {
      var line := lines[0];
      ShiftFirst(lines, index, push);
      ShiftFits(line, low, last, defined, moved, index, push);
      hide LineFits, MovedDefined;
      ShiftWellFormed(lines[1..], low, LastAfter(line, last), DefinedAfter(line, defined),
        DefinedAfter(ShiftLine(line, index, push), moved), index, push);
    }
  }

  lemma ShiftFits(line: Line, low: int, last: int, defined: set<int>, moved: set<int>, index: int, push: int)
    requires LineFits(line, low, last, defined) && MovedDefined(defined, moved, index, push)
    requires low <= index <= last && push >= 0
    ensures var shifted := ShiftLine(line, index, push);
      LineFits(shifted, low, last + push, moved) && Wide(shifted) == Wide(line) &&
      LastAfter(shifted, last + push) == LastAfter(line, last) + push &&
      MovedDefined(DefinedAfter(line, defined), DefinedAfter(shifted, moved), index, push)
  {
  }

  // ----- what a pass keeps -----

  /** The two-input gate n fits, and what there is after it. */
  lemma FitsFirst(n: int, table: seq<bool>, a: int, b: int, rest: seq<Line>, low: int, last: int, defined: set<int>)
    requires low <= n && last < n && |table| == 4 && (a < low || a in defined) && (b < low || b in defined)
    requires WellFormed(rest, low, n, defined + {n}) && CountWide(rest) == 0
    ensures var lines := [Gate(n, table, [a, b])] + rest;
      WellFormed(lines, low, last, defined) && CountWide(lines) == 0 &&
      Lasts(lines, last) == Lasts(rest, n) && Defined(lines, defined) == Defined(rest, defined + {n})
  {
    var line := Gate(n, table, [a, b]);
    assert Power(2) == 2 * Power(1) && Power(1) == 2 * Power(0);
    assert LineFits(line, low, last, defined);
    assert ([line] + rest)[1..] == rest;
    hide LineFits;
  }

  lemma ThreeFit(n: int, low3: seq<bool>, a: int, b: int, c: int, low: int, last: int, defined: set<int>)
    requires low <= n && last < n && |low3| == 4
    requires (a < low || a in defined) && (b < low || b in defined) && (c < low || c in defined)
    ensures var lines := [Gate(n, low3, [a, c]), Gate(n + 1, BOTH, [b, c]), Gate(n + 2, EITHER_NOT_BOTH, [n, n + 1])];
      WellFormed(lines, low, last, defined) && CountWide(lines) == 0 && Lasts(lines, last) == n + 2 &&
      Defined(lines, defined) == defined + {n} + {n + 1} + {n + 2}
  {
    hide WellFormed, CountWide, Lasts, Defined;
    var g0, g1, g2 := Gate(n, low3, [a, c]), Gate(n + 1, BOTH, [b, c]), Gate(n + 2, EITHER_NOT_BOTH, [n, n + 1]);
    NothingFits(low, n + 2, defined + {n} + {n + 1} + {n + 2});
    FitsFirst(n + 2, EITHER_NOT_BOTH, n, n + 1, [], low, n + 1, defined + {n} + {n + 1});
    assert [g2] + [] == [g2] && [g1] + [g2] == [g1, g2] && [g0] + [g1, g2] == [g0, g1, g2];
    FitsFirst(n + 1, BOTH, b, c, [g2], low, n, defined + {n});
    FitsFirst(n, low3, a, c, [g1, g2], low, last, defined);
  }

  lemma NothingFits(low: int, last: int, defined: set<int>)
    ensures WellFormed([], low, last, defined) && CountWide([]) == 0 && Lasts([], last) == last && Defined([], defined) == defined
  {
  }

  lemma FiveFit(n: int, low4: seq<bool>, high4: seq<bool>, a: int, b: int, c: int, low: int, last: int, defined: set<int>)
    requires low <= n && last < n && |low4| == 4 && |high4| == 4
    requires (a < low || a in defined) && (b < low || b in defined) && (c < low || c in defined)
    ensures var lines := [Gate(n, low4, [a, b]), Gate(n + 1, high4, [a, b]), Gate(n + 2, FIRST_UNLESS_THIRD, [n, c]),
                          Gate(n + 3, BOTH, [n + 1, c]), Gate(n + 4, EITHER_NOT_BOTH, [n + 2, n + 3])];
      WellFormed(lines, low, last, defined) && CountWide(lines) == 0 && Lasts(lines, last) == n + 4 &&
      Defined(lines, defined) == defined + {n} + {n + 1} + {n + 2} + {n + 3} + {n + 4}
  {
    hide WellFormed, CountWide, Lasts, Defined;
    var g0, g1 := Gate(n, low4, [a, b]), Gate(n + 1, high4, [a, b]);
    var g2, g3, g4 := Gate(n + 2, FIRST_UNLESS_THIRD, [n, c]), Gate(n + 3, BOTH, [n + 1, c]), Gate(n + 4, EITHER_NOT_BOTH, [n + 2, n + 3]);
    var d2 := defined + {n} + {n + 1};
    NothingFits(low, n + 4, d2 + {n + 2} + {n + 3} + {n + 4});
    assert [g4] + [] == [g4] && [g3] + [g4] == [g3, g4] && [g2] + [g3, g4] == [g2, g3, g4];
    assert [g1] + [g2, g3, g4] == [g1, g2, g3, g4] && [g0] + [g1, g2, g3, g4] == [g0, g1, g2, g3, g4];
    FitsFirst(n + 4, EITHER_NOT_BOTH, n + 2, n + 3, [], low, n + 3, d2 + {n + 2} + {n + 3});
    FitsFirst(n + 3, BOTH, n + 1, c, [g4], low, n + 2, d2 + {n + 2});
    FitsFirst(n + 2, FIRST_UNLESS_THIRD, n, c, [g3, g4], low, n + 1, d2);
    FitsFirst(n + 1, high4, a, b, [g2, g3, g4], low, n, defined + {n});
    FitsFirst(n, low4, a, b, [g1, g2, g3, g4], low, last, defined);
  }

  lemma SplitFits(line: Line, low: int, last: int, defined: set<int>)
    requires LineFits(line, low, last, defined) && Wide(line) && |line.inputs| == 3 && |line.table| == 8
    ensures WellFormed(Split(line), low, last, defined) && CountWide(Split(line)) == 0
    ensures Lasts(Split(line), last) == line.index + Push(line.table)
    ensures defined + {line.index + Push(line.table)} <= Defined(Split(line), defined)
  {
    hide WellFormed, CountWide, Lasts, Defined;
    var n, a, b, c := line.index, line.inputs[0], line.inputs[1], line.inputs[2];
    if line.table == SELECT {
      ThreeFit(n, FIRST_UNLESS_THIRD, a, b, c, low, last, defined);
    } else if line.table == SELECT_NOT {
      ThreeFit(n, NEITHER, a, b, c, low, last, defined);
    } else {
      FiveFit(n, line.table[..4], line.table[4..8], a, b, c, low, last, defined);
    }
  }

  lemma {:induction false} CountConcat(a: seq<Line>, b: seq<Line>)
    ensures CountWide(a + b) == CountWide(a) + CountWide(b)
  {
    if a == [] {
      assert a + b == b;
    } else {
      assert (a + b)[1..] == a[1..] + b;
      CountConcat(a[1..], b);
    }
  }

  /** The split line and the moved lines after it: same outputs, still well formed, one wide gate
      less. */
  lemma SplitKeeps(line: Line, rest: seq<Line>, low: int, last: int, defined: set<int>, e: Wires)
    requires LineFits(line, low, last, defined) && Wide(line) && |line.inputs| == 3 && |line.table| == 8
    requires WellFormed(rest, low, line.index, defined + {line.index})
    requires (forall d :: d in defined ==> d <= last) && low <= last + 1
    ensures var result := Split(line) + ShiftLines(rest, line.index, Push(line.table));
      WellFormed(result, low, last, defined) && CountWide(result) == CountWide(rest) &&
      Outputs(result, e) == Outputs(rest, Step(line, e))
  {
    hide WellFormed, CountWide, Lasts, Defined, Evaluate, Outputs, ShiftLines, Split;
    var push, n := Push(line.table), line.index;
    var parts, moved := Split(line), ShiftLines(rest, n, push);
    SplitFits(line, low, last, defined);
    var after := Defined(parts, defined);
    ShiftWellFormed(rest, low, n, defined + {n}, after, n, push);
    WellFormedConcat(parts, moved, low, last, defined);
    CountConcat(parts, moved);
    SplitMoves(line, low, last, defined, e);
    ShiftOutputs(rest, Step(line, e), Evaluate(parts, e), low, n, defined + {n}, n, push);
    OutputsConcat(parts, moved, e);
    SplitSilent(line, e);
  }

  /** A split has no output lines. */
  lemma SplitSilent(line: Line, e: Wires)
    requires line.Gate? && |line.inputs| >= 3 && |line.table| >= 8
    ensures Outputs(Split(line), e) == []
  {
    GatesSilent(Split(line), e);
  }

  lemma {:induction false} GatesSilent(lines: seq<Line>, e: Wires)
    requires forall i :: 0 <= i < |lines| ==> lines[i].Gate?
    ensures Outputs(lines, e) == []
  {
    if lines != [] {
      GatesSilent(lines[1..], Step(lines[0], e));
    }
  }

  lemma SplitMoves(line: Line, low: int, last: int, defined: set<int>, e: Wires)
    requires LineFits(line, low, last, defined) && Wide(line) && |line.inputs| == 3 && |line.table| == 8
    requires (forall d :: d in defined ==> d <= last) && low <= last + 1
    ensures Moved(Step(line, e), Evaluate(Split(line), e), low, defined + {line.index}, line.index, Push(line.table))
  {
    hide Evaluate, Split, GateValue;
    forall i | 0 <= i < 3 ensures line.inputs[i] < line.index { }
    SplitValue(line, e);
  }

  /** One pass keeps the file well formed and every output for every input, and removes exactly one
      wide gate if there is one. */
  lemma {:induction false} PassKeeps(lines: seq<Line>, low: int, last: int, defined: set<int>, e: Wires)
    requires WellFormed(lines, low, last, defined) && (forall d :: d in defined ==> d <= last) && low <= last + 1
    ensures WideFits(lines) && WellFormed(Pass(lines), low, last, defined)
    ensures Outputs(Pass(lines), e) == Outputs(lines, e)
    ensures CountWide(Pass(lines)) == if CountWide(lines) > 0 then CountWide(lines) - 1 else 0
    decreases |lines|
  {
    WellFormedWide(lines, low, last, defined);
    hide LineFits, Step, Split, ShiftLines;
    if lines != [] {
      var line, rest := lines[0], lines[1..];
      if Wide(line) {
        SplitKeeps(line, rest, low, last, defined, e);
      } else {
        AfterLine(line, low, last, defined);
        PassKeeps(rest, low, LastAfter(line, last), DefinedAfter(line, defined), Step(line, e));
        var r := Pass(rest);
        assert ([line] + r)[1..] == r && ([line] + r)[0] == line;
      }
    }
  }

  lemma AfterLine(line: Line, low: int, last: int, defined: set<int>)
    requires LineFits(line, low, last, defined) && (forall d :: d in defined ==> d <= last) && low <= last + 1
    ensures (forall d :: d in DefinedAfter(line, defined) ==> d <= LastAfter(line, last)) && low <= LastAfter(line, last) + 1
  {
  }

  lemma {:induction false} PassUnchanged(lines: seq<Line>)
    requires WideFits(lines) && CountWide(lines) == 0
    ensures Pass(lines) == lines
  {
    if lines != [] {
      assert lines[1..] == lines[1..];
      forall i | 0 <= i < |lines[1..]| && Wide(lines[1..][i]) ensures |lines[1..][i].table| >= 8 {
        assert lines[i + 1] == lines[1..][i];
      }
      PassUnchanged(lines[1..]);
    }
  }

  // ----- what a pass leaves alone -----

  /** The lines that are not gates, in file order, and of the output lines only the names. */
  ghost function Labels(lines: seq<Line>): seq<Line> {
    if lines == [] then [] else Label(lines[0]) + Labels(lines[1..])
  }

  ghost function Label(line: Line): seq<Line> {
    match line
    case Gate(_, _, _) => []
    case Output(name, _) => [Output(name, [])]
    case _ => [line]
  }

  lemma {:induction false} LabelsConcat(a: seq<Line>, b: seq<Line>)
    ensures Labels(a + b) == Labels(a) + Labels(b)
  {
    hide Label;
    if a == [] {
      assert a + b == b;
    } else {
      assert (a + b)[1..] == a[1..] + b;
      LabelsConcat(a[1..], b);
    }
  }

  lemma {:induction false} ShiftLabels(lines: seq<Line>, index: int, push: int)
    ensures Labels(ShiftLines(lines, index, push)) == Labels(lines)
  {
    if lines != [] {
      ShiftLabels(lines[1..], index, push);
    }
  }

  lemma {:induction false} NoLabels(gates: seq<Line>)
    requires forall i :: 0 <= i < |gates| ==> gates[i].Gate?
    ensures Labels(gates) == []
  {
    if gates != [] {
      NoLabels(gates[1..]);
    }
  }

  /** A pass keeps the header lines, the input lines with their wires, and the names of the outputs, all
      in their places. */
  lemma {:induction false} PassLabels(lines: seq<Line>)
    requires WideFits(lines)
    ensures Labels(Pass(lines)) == Labels(lines)
  {
    if lines != [] {
      PassNext(lines);
      hide Pass, WideFits, ShiftLines, Labels;
      LabelsFirst(lines);
      if Wide(lines[0]) {
        NoLabels(Split(lines[0]));
        ShiftLabels(lines[1..], lines[0].index, Push(lines[0].table));
        LabelsConcat(Split(lines[0]), ShiftLines(lines[1..], lines[0].index, Push(lines[0].table)));
      } else {
        PassLabels(lines[1..]);
        LabelsConcat([lines[0]], Pass(lines[1..]));
        OneLabel(lines[0]);
      }
    }
  }

  lemma LabelsFirst(lines: seq<Line>)
    requires lines != []
    ensures Labels(lines) == Label(lines[0]) + Labels(lines[1..])
  {
  }

  lemma OneLabel(line: Line)
    ensures Labels([line]) == Label(line)
  {
    assert [line][1..] == [];
  }

  /** The two tables for which three gates are enough. */
  ghost predicate Selects(table: seq<bool>) {
    && |table| == 8 && table[4..] == [false, false, true, true]
    && (table[..4] == [false, true, false, true] || table[..4] == [true, false, true, false])
  }

  lemma SelectTables(table: seq<bool>)
    ensures Selects(table) <==> table == SELECT || table == SELECT_NOT
  {
    if |table| == 8 {
      assert table == table[..4] + table[4..];
    }
  }

  lemma {:induction false} ShiftSize(lines: seq<Line>, index: int, push: int)
    ensures |ShiftLines(lines, index, push)| == |lines|
  {
    if lines != [] {
      ShiftSize(lines[1..], index, push);
    }
  }

  /** A pass adds two lines when the first wide gate selects one of its inputs by the third, and four for
      every other table. */
  lemma {:induction false} PassSize(lines: seq<Line>, i: nat)
    requires WideFits(lines) && i < |lines| && Wide(lines[i]) && forall k :: 0 <= k < i ==> !Wide(lines[k])
    ensures |Pass(lines)| == |lines| + if Selects(lines[i].table) then 2 else 4
  {
    PassNext(lines);
    hide Pass, WideFits;
    if i == 0 {
      SelectTables(lines[0].table);
      ShiftSize(lines[1..], lines[0].index, Push(lines[0].table));
    } else {
      assert lines[1..][i - 1] == lines[i];
      PassSize(lines[1..], i - 1);
    }
  }

  // ----- the loop over the file -----

  /** Moves the wires of one line, input by input. */
  method MoveLine(line: Line, index: int, push: int) returns (moved: Line)
    ensures moved == ShiftLine(line, index, push)
  {
    moved := line;
    if line.Gate? {
      var parts := line.inputs;
      for i := 0 to |line.inputs|
        invariant parts == ShiftWires(line.inputs, index, push, i)
      {
        if parts[i] >= index {
          parts := parts[i := parts[i] + push];
        }
      }
      moved := Gate(line.index + push, line.table, parts);
    } else if line.Output? {
      var parts := line.wires;
      for i := 0 to |line.wires|
        invariant parts == ShiftWires(line.wires, index, push, i)
      {
        if parts[i] >= index {
          parts := parts[i := parts[i] + push];
        }
      }
      moved := Output(line.name, parts);
    }
  }

  /** One pass over the file. The index and the push of an earlier pass are carried in. */
  method RunPass(lines: seq<Line>, oldIndex: int, oldPush: int) returns (result: seq<Line>, finished: bool, index: int, push: int)
    requires WideFits(lines)
    ensures result == Pass(lines)
    ensures finished <==> CountWide(lines) == 0
  {
    hide PassState, Pass, ShiftLines, Split, CountWide, WideFits, Push, ShiftLine;
    result, finished, index, push := [], true, oldIndex, oldPush;
    PassStarts(lines, index, push);
    for i := 0 to |lines|
      invariant PassState(lines, i, result, finished, index, push)
    {
      var line := lines[i];
      PassMoves(lines, i, result, finished, index, push);
      if finished {
        if Wide(line) {
          finished := false;
          index := line.index;
          push := Push(line.table);
          result := result + Split(line);
        } else {
          result := result + [line];
        }
      } else {
        var moved := MoveLine(line, index, push);
        result := result + [moved];
      }
    }
    PassEnds(lines, result, finished, index, push);
  }

  /** The file written so far, and what the rest of the pass will add to it. */
  ghost predicate PassState(lines: seq<Line>, i: nat, result: seq<Line>, finished: bool, index: int, push: int) {
    && i <= |lines| && WideFits(lines) && WideFits(lines[i..])
    && result + (if finished then Pass(lines[i..]) else ShiftLines(lines[i..], index, push)) == Pass(lines)
    && if finished then CountWide(lines[i..]) == CountWide(lines) else CountWide(lines) > 0
  }

  lemma PassStarts(lines: seq<Line>, index: int, push: int)
    requires WideFits(lines)
    ensures PassState(lines, 0, [], true, index, push)
  {
    hide Pass, ShiftLines, CountWide, WideFits;
    assert lines[0..] == lines;
    assert [] + Pass(lines) == Pass(lines);
  }

  lemma PassMoves(lines: seq<Line>, i: nat, result: seq<Line>, finished: bool, index: int, push: int)
    requires PassState(lines, i, result, finished, index, push) && i < |lines|
    ensures Wide(lines[i]) ==> |lines[i].table| >= 8
    ensures finished && Wide(lines[i]) ==>
      PassState(lines, i + 1, result + Split(lines[i]), false, lines[i].index, Push(lines[i].table))
    ensures finished && !Wide(lines[i]) ==> PassState(lines, i + 1, result + [lines[i]], true, index, push)
    ensures !finished ==> PassState(lines, i + 1, result + [ShiftLine(lines[i], index, push)], false, index, push)
  {
    hide Pass, ShiftLines, Split, CountWide, WideFits, Push, ShiftLine;
    var rest := lines[i..];
    PassNext(rest);
    assert rest[1..] == lines[i + 1..] && rest[0] == lines[i];
    ShiftNext(rest, index, push);
    if finished && Wide(lines[i]) {
      Regroup(result, Split(lines[i]), ShiftLines(rest[1..], lines[i].index, Push(lines[i].table)));
    } else if finished {
      Regroup(result, [lines[i]], Pass(rest[1..]));
    } else {
      Regroup(result, [ShiftLine(lines[i], index, push)], ShiftLines(rest[1..], index, push));
    }
  }

  lemma Regroup<T>(a: seq<T>, b: seq<T>, c: seq<T>)
    ensures a + b + c == a + (b + c)
  {
  }

  lemma PassEnds(lines: seq<Line>, result: seq<Line>, finished: bool, index: int, push: int)
    requires PassState(lines, |lines|, result, finished, index, push)
    ensures result == Pass(lines) && (finished <==> CountWide(lines) == 0)
  {
    hide Pass, ShiftLines, CountWide, WideFits;
    assert lines[|lines|..] == [];
    PassOfNothing(index, push);
    assert result + [] == result;
  }

  lemma PassNext(lines: seq<Line>)
    requires WideFits(lines) && lines != []
    ensures WideFits(lines[1..])
    ensures Wide(lines[0]) ==> |lines[0].table| >= 8
    ensures Pass(lines) ==
      if Wide(lines[0]) then Split(lines[0]) + ShiftLines(lines[1..], lines[0].index, Push(lines[0].table))
      else [lines[0]] + Pass(lines[1..])
    ensures CountWide(lines) == (if Wide(lines[0]) then 1 else 0) + CountWide(lines[1..])
  {
    forall i | 0 <= i < |lines[1..]| && Wide(lines[1..][i]) ensures |lines[1..][i].table| >= 8 {
      assert lines[i + 1] == lines[1..][i];
    }
  }

  lemma ShiftNext(lines: seq<Line>, index: int, push: int)
    requires lines != []
    ensures ShiftLines(lines, index, push) == [ShiftLine(lines[0], index, push)] + ShiftLines(lines[1..], index, push)
  {
  }

  lemma PassOfNothing(index: int, push: int)
    ensures Pass([]) == [] && ShiftLines([], index, push) == [] && CountWide([]) == 0
  {
  }

  /** The whole conversion: every gate of the result has at most two inputs, the outputs are the same for
      every input, and the other lines and the output names stay. */
  method Lower(lines: seq<Line>, ghost low: int) returns (result: seq<Line>)
    requires WellFormed(lines, low, low - 1, {})
    ensures WellFormed(result, low, low - 1, {})
    ensures forall i :: 0 <= i < |result| && result[i].Gate? ==> |result[i].inputs| <= 2
    ensures forall e: Wires :: Outputs(result, e) == Outputs(lines, e)
    ensures Labels(result) == Labels(lines)
  {
    result := lines;
    var finished, index, push := false, 0, 0;
    hide WellFormed, Outputs, Pass, CountWide, WideFits, Labels;
    while !finished
      invariant WellFormed(result, low, low - 1, {})
      invariant forall e: Wires :: Outputs(result, e) == Outputs(lines, e)
      invariant Labels(result) == Labels(lines)
      invariant finished ==> CountWide(result) == 0
      decreases CountWide(result), !finished
    {
      var before := result;
      WellFormedWide(before, low, low - 1, {});
      result, finished, index, push := RunPass(before, index, push);
      PassKeepsAll(before, low);
      PassLabels(before);
    }
    NoneWide(result);
  }

  lemma PassKeepsAll(lines: seq<Line>, low: int)
    requires WellFormed(lines, low, low - 1, {})
    ensures WideFits(lines) && WellFormed(Pass(lines), low, low - 1, {})
    ensures forall e: Wires :: Outputs(Pass(lines), e) == Outputs(lines, e)
    ensures CountWide(Pass(lines)) == if CountWide(lines) > 0 then CountWide(lines) - 1 else 0
  {
    hide WellFormed, Outputs, Pass, CountWide, WideFits;
    PassKeeps(lines, low, low - 1, {}, w => false);
    forall e: Wires ensures Outputs(Pass(lines), e) == Outputs(lines, e) {
      PassKeeps(lines, low, low - 1, {}, e);
    }
  }

  /** Counting no wide gate means that every gate has at most two inputs. */
  lemma {:induction false} NoneWide(lines: seq<Line>)
    ensures CountWide(lines) == 0 <==> forall i :: 0 <= i < |lines| ==> !Wide(lines[i])
  {
    if lines != [] {
      NoneWide(lines[1..]);
      assert forall i :: 0 < i < |lines| ==> lines[i] == lines[1..][i - 1];
    }
  }

  lemma {:induction false} EvaluateElsewhere(lines: seq<Line>, e: Wires, w: int)
    requires forall i :: 0 <= i < |lines| && lines[i].Gate? ==> lines[i].index != w
    ensures Evaluate(lines, e)(w) == e(w)
  {
    if lines != [] {
      EvaluateElsewhere(lines[1..], Step(lines[0], e), w);
    }
  }

  // ----- files whose outputs read any wire -----

  /** Like WellFormed, but output lines may read any wire. */
  ghost predicate GatesFit(lines: seq<Line>, low: int, last: int, defined: set<int>) {
    lines == [] || ((lines[0].Output? || LineFits(lines[0], low, last, defined)) &&
                    GatesFit(lines[1..], low, LastAfter(lines[0], last), DefinedAfter(lines[0], defined)))
  }

  /** After a gate `index` has been split: every output reads a wire before it or an earlier gate. */
  ghost predicate OutputsStay(lines: seq<Line>, index: int, defined: set<int>) {
    lines == [] || ((lines[0].Output? ==> RefersTo(lines[0].wires, index, defined)) &&
                    OutputsStay(lines[1..], index, DefinedAfter(lines[0], defined)))
  }

  /** No output after the first wide gate reads a wire at or above it that is not an earlier gate. */
  ghost predicate KeepsOutputs(lines: seq<Line>, defined: set<int>) {
    lines == [] ||
    if Wide(lines[0]) then OutputsStay(lines[1..], lines[0].index, defined + {lines[0].index})
    else KeepsOutputs(lines[1..], DefinedAfter(lines[0], defined))
  }

  lemma {:induction false} GatesFitWide(lines: seq<Line>, low: int, last: int, defined: set<int>)
    requires GatesFit(lines, low, last, defined)
    ensures WideFits(lines)
    ensures forall i :: 0 <= i < |lines| && Wide(lines[i]) ==> |lines[i].inputs| == 3 && |lines[i].table| == 8
  {
    if lines != [] {
      GatesFitWide(lines[1..], low, LastAfter(lines[0], last), DefinedAfter(lines[0], defined));
      forall i | 0 <= i < |lines| && Wide(lines[i]) ensures |lines[i].inputs| == 3 && |lines[i].table| == 8 {
        if i > 0 {
          assert lines[1..][i - 1] == lines[i];
        } else {
          assert Power(3) == 2 * Power(2) && Power(2) == 2 * Power(1) && Power(1) == 2 * Power(0);
        }
      }
    }
  }

  /** Then the lines after the split are well formed with every wire before it as an input. */
  lemma {:induction false} StayFits(lines: seq<Line>, low: int, last: int, defined: set<int>, index: int)
    requires GatesFit(lines, low, last, defined) && OutputsStay(lines, index, defined) && low <= index <= last
    ensures WellFormed(lines, index, last, defined)
    decreases |lines|
  {
    if lines != [] {
      StayFits(lines[1..], low, LastAfter(lines[0], last), DefinedAfter(lines[0], defined), index);
    }
  }

  lemma SplitMovesAll(line: Line, low: int, last: int, defined: set<int>, e: Wires)
    requires LineFits(line, low, last, defined) && Wide(line) && |line.inputs| == 3 && |line.table| == 8
    requires (forall d :: d in defined ==> d <= last) && low <= last + 1
    ensures Moved(Step(line, e), Evaluate(Split(line), e), line.index, defined + {line.index}, line.index, Push(line.table))
  {
    hide Evaluate, Split, GateValue;
    forall i | 0 <= i < 3 ensures line.inputs[i] < line.index { }
    SplitValue(line, e);
  }

  /** The split and the moved lines after it, as one list. */
  lemma SplitOutputs(line: Line, rest: seq<Line>, e: Wires)
    requires line.Gate? && |line.inputs| >= 3 && |line.table| >= 8
    ensures var moved := ShiftLines(rest, line.index, Push(line.table));
      Outputs(Split(line) + moved, e) == Outputs(moved, Evaluate(Split(line), e))
    ensures Outputs([line] + rest, e) == Outputs(rest, Step(line, e))
  {
    hide Evaluate, ShiftLines, Split;
    OutputsConcat(Split(line), ShiftLines(rest, line.index, Push(line.table)), e);
    SplitSilent(line, e);
    assert ([line] + rest)[1..] == rest;
  }

  lemma {:induction false} PassStays(lines: seq<Line>, low: int, last: int, defined: set<int>, e: Wires)
    requires GatesFit(lines, low, last, defined) && (forall d :: d in defined ==> d <= last) && low <= last + 1
    requires KeepsOutputs(lines, defined)
    ensures WideFits(lines) && Outputs(Pass(lines), e) == Outputs(lines, e)
    decreases |lines|
  {
    GatesFitWide(lines, low, last, defined);
    hide LineFits, Step, Split, ShiftLines, Evaluate, OutputsStay;
    if lines != [] {
      var line, rest := lines[0], lines[1..];
      if Wide(line) {
        var n := line.index;
        WideIndex(line, low, last, defined);
        SplitMovesAll(line, low, last, defined, e);
        StayFits(rest, low, n, defined + {n}, n);
        ShiftOutputs(rest, Step(line, e), Evaluate(Split(line), e), n, n, defined + {n}, n, Push(line.table));
        SplitOutputs(line, rest, e);
        assert [line] + rest == lines;
      } else {
        AfterAnyLine(line, low, last, defined);
        PassStays(rest, low, LastAfter(line, last), DefinedAfter(line, defined), Step(line, e));
        var r := Pass(rest);
        assert ([line] + r)[1..] == r && ([line] + r)[0] == line;
      }
    }
  }

  lemma WideIndex(line: Line, low: int, last: int, defined: set<int>)
    requires LineFits(line, low, last, defined) && line.Gate?
    ensures low <= line.index && last < line.index
  {
  }

  lemma AfterAnyLine(line: Line, low: int, last: int, defined: set<int>)
    requires line.Output? || LineFits(line, low, last, defined)
    requires (forall d :: d in defined ==> d <= last) && low <= last + 1
    ensures (forall d :: d in DefinedAfter(line, defined) ==> d <= LastAfter(line, last)) && low <= LastAfter(line, last) + 1
    ensures last <= LastAfter(line, last) && (line.Gate? ==> line.index == LastAfter(line, last))
  {
  }

  /** A wire that a moved output misses. */
  ghost function MissedAfter(lines: seq<Line>, index: int, defined: set<int>): (w: int)
    requires !OutputsStay(lines, index, defined)
    ensures w >= index && w !in defined
  {
    if lines[0].Output? && !RefersTo(lines[0].wires, index, defined) then
      var i :| 0 <= i < |lines[0].wires| && !(lines[0].wires[i] < index || lines[0].wires[i] in defined);
      lines[0].wires[i]
    else MissedAfter(lines[1..], index, DefinedAfter(lines[0], defined))
  }

  /** The missed wire of a file, and how far it should not have moved. */
  ghost function Missed(lines: seq<Line>, defined: set<int>): (w: int)
    requires !KeepsOutputs(lines, defined)
    ensures w !in defined
  {
    if Wide(lines[0]) then MissedAfter(lines[1..], lines[0].index, defined + {lines[0].index})
    else Missed(lines[1..], DefinedAfter(lines[0], defined))
  }

  ghost function FirstPush(lines: seq<Line>): (r: int)
    ensures r >= 2
  {
    if lines == [] then 2 else if Wide(lines[0]) then Push(lines[0].table) else FirstPush(lines[1..])
  }

  lemma {:induction false} MissedIsLate(lines: seq<Line>, low: int, last: int, defined: set<int>)
    requires GatesFit(lines, low, last, defined) && !KeepsOutputs(lines, defined)
    ensures Missed(lines, defined) > last
    decreases |lines|
  {
    if !Wide(lines[0]) {
      MissedIsLate(lines[1..], low, LastAfter(lines[0], last), DefinedAfter(lines[0], defined));
    }
  }

  lemma MovedStepElsewhere(line: Line, e: Wires, index: int, push: int, w: int)
    requires line.Gate? ==> line.index != w
    ensures Step(line, e)(w) == e(w) && Step(ShiftLine(line, index, push), e)(w + push) == e(w + push)
  {
  }

  /** An output that misses its wire differs when the wire is true and the one it reads now is not. */
  lemma {:induction false} ShiftMisses(lines: seq<Line>, e1: Wires, e2: Wires, index: int, push: int, defined: set<int>)
    requires !OutputsStay(lines, index, defined)
    requires var w := MissedAfter(lines, index, defined); e1(w) && !e2(w + push)
    ensures Outputs(ShiftLines(lines, index, push), e2) != Outputs(lines, e1)
    decreases |lines|
  {
    hide Step, ShiftLine, Bits;
    var line, rest, w := lines[0], lines[1..], MissedAfter(lines, index, defined);
    ShiftNext(lines, index, push);
    var moved := ShiftLine(line, index, push);
    SameKind(line, index, push);
    OutputsFirst(line, rest, e1);
    OutputsFirst(moved, ShiftLines(rest, index, push), e2);
    assert [line] + rest == lines;
    if line.Output? && !RefersTo(line.wires, index, defined) {
      OutputMisses(line, e1, e2, index, push, w);
      HeadsDiffer(Bits(moved.wires, e2), Outputs(ShiftLines(rest, index, push), Step(moved, e2)),
        Bits(line.wires, e1), Outputs(rest, Step(line, e1)));
    } else {
      MovedStepElsewhere(line, e1, index, push, w);
      MovedStepElsewhere(line, e2, index, push, w);
      ShiftMisses(rest, Step(line, e1), Step(moved, e2), index, push, DefinedAfter(line, defined));
      TailsDiffer(if moved.Output? then [Bits(moved.wires, e2)] else [], Outputs(ShiftLines(rest, index, push), Step(moved, e2)),
        if line.Output? then [Bits(line.wires, e1)] else [], Outputs(rest, Step(line, e1)));
    }
  }

  lemma HeadsDiffer<T>(a: T, x: seq<T>, b: T, y: seq<T>)
    requires a != b
    ensures [a] + x != [b] + y
  {
    assert ([a] + x)[0] == a;
    assert ([b] + y)[0] == b;
  }

  lemma TailsDiffer<T>(a: seq<T>, x: seq<T>, b: seq<T>, y: seq<T>)
    requires |a| == |b| && x != y
    ensures a + x != b + y
  {
    assert (a + x)[|a|..] == x;
    assert (b + y)[|b|..] == y;
  }

  lemma SameKind(line: Line, index: int, push: int)
    ensures ShiftLine(line, index, push).Output? == line.Output?
  {
  }

  lemma OutputsFirst(line: Line, rest: seq<Line>, e: Wires)
    ensures Outputs([line] + rest, e) == (if line.Output? then [Bits(line.wires, e)] else []) + Outputs(rest, Step(line, e))
  {
    hide Step;
    assert ([line] + rest)[1..] == rest;
  }

  lemma OutputMisses(line: Line, e1: Wires, e2: Wires, index: int, push: int, w: int)
    requires line.Output? && w in line.wires && w >= index && e1(w) && !e2(w + push)
    ensures ShiftLine(line, index, push).Output? && Bits(line.wires, e1) != Bits(ShiftLine(line, index, push).wires, e2)
  {
    var i :| 0 <= i < |line.wires| && line.wires[i] == w;
    var moved := ShiftWires(line.wires, index, push, |line.wires|);
    assert Bits(line.wires, e1)[i] && !Bits(moved, e2)[i];
  }

  lemma {:induction false} PassMisses(lines: seq<Line>, low: int, last: int, defined: set<int>, e: Wires)
    requires GatesFit(lines, low, last, defined) && (forall d :: d in defined ==> d <= last) && low <= last + 1
    requires !KeepsOutputs(lines, defined)
    requires var w := Missed(lines, defined); e(w) && !e(w + FirstPush(lines))
    ensures WideFits(lines) && Outputs(Pass(lines), e) != Outputs(lines, e)
    decreases |lines|
  {
    GatesFitWide(lines, low, last, defined);
    MissedIsLate(lines, low, last, defined);
    hide LineFits, Step, Split, ShiftLines, Evaluate, OutputsStay, Bits;
    var line, rest, w := lines[0], lines[1..], Missed(lines, defined);
    assert [line] + rest == lines;
    if Wide(line) {
      WideMisses(line, rest, defined, e, w);
    } else {
      AfterAnyLine(line, low, last, defined);
      MissedIsLate(rest, low, LastAfter(line, last), DefinedAfter(line, defined));
      StepElsewhere(line, e, w);
      StepElsewhere(line, e, w + FirstPush(lines));
      PassMisses(rest, low, LastAfter(line, last), DefinedAfter(line, defined), Step(line, e));
      OutputsFirst(line, rest, e);
      OutputsFirst(line, Pass(rest), e);
      var head := if line.Output? then [Bits(line.wires, e)] else [];
      TailsDiffer(head, Outputs(Pass(rest), Step(line, e)), head, Outputs(rest, Step(line, e)));
    }
  }

  lemma WideMisses(line: Line, rest: seq<Line>, defined: set<int>, e: Wires, w: int)
    requires Wide(line) && |line.table| >= 8 && !OutputsStay(rest, line.index, defined + {line.index})
    requires w == MissedAfter(rest, line.index, defined + {line.index}) && e(w) && !e(w + Push(line.table))
    ensures Outputs(Split(line) + ShiftLines(rest, line.index, Push(line.table)), e) != Outputs([line] + rest, e)
  {
    hide Step, Split, ShiftLines, Evaluate, OutputsStay, Outputs, MissedAfter, Push;
    SplitElsewhere(line, e, w);
    ShiftMisses(rest, Step(line, e), Evaluate(Split(line), e), line.index, Push(line.table), defined + {line.index});
    SplitOutputs(line, rest, e);
  }

  lemma StepElsewhere(line: Line, e: Wires, w: int)
    requires line.Gate? ==> line.index != w
    ensures Step(line, e)(w) == e(w)
  {
  }

  lemma SplitElsewhere(line: Line, e: Wires, w: int)
    requires line.Gate? && |line.inputs| >= 3 && |line.table| >= 8 && w > line.index
    ensures Step(line, e)(w) == e(w)
    ensures Evaluate(Split(line), e)(w + Push(line.table)) == e(w + Push(line.table))
  {
    hide Evaluate;
    EvaluateElsewhere(Split(line), e, w + Push(line.table));
  }

  /** Exactly when a pass keeps the outputs: for a file whose gates are well formed, every output is the
      same for every input if and only if no output line after the first wide gate reads a wire at or
      above that gate which is not an earlier gate. Input lines are not moved, so such a wire is lost. */
  lemma PassKeepsExactly(lines: seq<Line>, low: int)
    requires GatesFit(lines, low, low - 1, {})
    ensures WideFits(lines)
    ensures (forall e: Wires :: Outputs(Pass(lines), e) == Outputs(lines, e)) <==> KeepsOutputs(lines, {})
  {
    GatesFitWide(lines, low, low - 1, {});
    hide GatesFit, Outputs, Pass, WideFits, KeepsOutputs;
    if KeepsOutputs(lines, {}) {
      forall e: Wires ensures Outputs(Pass(lines), e) == Outputs(lines, e) {
        PassStays(lines, low, low - 1, {}, e);
      }
    } else {
      var w := Missed(lines, {});
      var e: Wires := x => x == w;
      PassMisses(lines, low, low - 1, {}, e);
    }
  }

  /** The smallest case: the output reads wire 9 before the pass and wire 13 after it. */
  lemma InputAboveGateIsLost(e: Wires)
    ensures var lines := [Gate(5, SELECT[..4] + NEITHER, [0, 1, 2]), Output("o", [9])];
      WideFits(lines) && Outputs(lines, e) == [[e(9)]] && Outputs(Pass(lines), e) == [[e(13)]]
  {
    var g, o := Gate(5, SELECT[..4] + NEITHER, [0, 1, 2]), Output("o", [9]);
    var moved := Output("o", [13]);
    OneOutput([g], o, 9, e);
    OneOutput(Split(g), moved, 13, e);
    assert [g] + [o] == [g, o];
    assert ShiftLine(o, 5, 4) == moved;
    PassOne(g, o, moved);
  }

  lemma PassOne(g: Line, o: Line, moved: Line)
    requires Wide(g) && |g.table| >= 8 && o.Output? && ShiftLine(o, g.index, Push(g.table)) == moved
    ensures WideFits([g, o]) && Pass([g, o]) == Split(g) + [moved]
  {
    hide Split, Push;
    assert [g, o][1..] == [o] && [o][1..] == [];
    PassNext([g, o]);
    ShiftNext([o], g.index, Push(g.table));
    PassOfNothing(g.index, Push(g.table));
  }

  lemma OneOutput(gates: seq<Line>, o: Line, w: int, e: Wires)
    requires o.Output? && o.wires == [w]
    requires forall i :: 0 <= i < |gates| ==> gates[i].Gate? && gates[i].index != w
    ensures Outputs(gates + [o], e) == [[e(w)]]
  {
    hide Evaluate;
    var r := Evaluate(gates, e);
    OutputsConcat(gates, [o], e);
    GatesSilent(gates, e);
    EvaluateElsewhere(gates, e, w);
    assert Bits([w], r) == [e(w)];
    assert Outputs([o], r) == [Bits([w], r)] + Outputs([], r);
  }
}
