/**
 The labelled program as a machine of its own, which jumps to statements and knows no encoding,
 and the proof that an assembled image run by the emulator does what that machine does.
 */
module X128Symbolic {
  import opened Wrappers
  import opened X128Machine
  import opened X128Assembler

  // --------------------------------------------------------- the source program

  datatype Operand = Label(index: nat) | Constant(value: int)

  datatype Condition = Always | IfZero | IfNotZero

  datatype Instr =
    | Nothing
    | Set(d: nat, o: Operand)
    | Copy(d: nat, a: nat)
    | Combine(op: nat, d: nat, a: nat, b: nat)
    | Compare(a: nat, b: nat)
    | Jump(condition: Condition, o: Operand)
    | Load(d: nat, a: nat, o: Operand)
    | Store(a: nat, b: nat, o: Operand)
    | Print(o: Operand, a: nat)
    | Stop(o: Operand)

  type Program = seq<Instr>

  /** The statement a label stands for: the one that follows its first definition. */
  function Find(entries: seq<Entry>, name: string): Option<nat> {
    if entries == [] then None
    else
      var before := entries[..|entries| - 1];
      var earlier := Find(before, name);
      if earlier.Some? then earlier
      else if entries[|entries| - 1].name == Some(name) then Some(|Body(before)|)
      else None
  }

  function RegisterOf(a: Arg): Option<nat> {
    if a.register.Some? && 0 <= a.register.value < 16 then Some(a.register.value) else None
  }

  function OperandOf(a: Arg, entries: seq<Entry>): Option<Operand> {
    var target := Find(entries, a.text);
    if target.Some? then Some(Label(target.value))
    else if a.literal.Some? then Some(Constant(a.literal.value))
    else None
  }

  /** What a statement means, if it means anything. */
  function Interpret(s: Statement, entries: seq<Entry>): Option<Instr> {
    if s.op.None? then None
    else
      var op, n := s.op.value, |s.args|;
      var r := seq(n, i requires 0 <= i < n => RegisterOf(s.args[i]));
      var o := seq(n, i requires 0 <= i < n => OperandOf(s.args[i], entries));
      if op == NOP && n == 0 then Some(Nothing)
      else if op == MOVI && n == 2 && r[0].Some? && o[1].Some? then Some(Set(r[0].value, o[1].value))
      else if op == MOV && n == 2 && r[0].Some? && r[1].Some? then Some(Copy(r[0].value, r[1].value))
      else if ADD <= op <= XOR && n == 3 && r[0].Some? && r[1].Some? && r[2].Some? then
        Some(Combine(op, r[0].value, r[1].value, r[2].value))
      else if op == CMPEQ && n == 2 && r[0].Some? && r[1].Some? then Some(Compare(r[0].value, r[1].value))
      else if op == JMP && n == 1 && o[0].Some? then Some(Jump(Always, o[0].value))
      else if op == JZ && n == 1 && o[0].Some? then Some(Jump(IfZero, o[0].value))
      else if op == JNZ && n == 1 && o[0].Some? then Some(Jump(IfNotZero, o[0].value))
      else if op == LOAD8 && n == 3 && r[0].Some? && r[1].Some? && o[2].Some? then
        Some(Load(r[0].value, r[1].value, o[2].value))
      else if op == STORE8 && n == 3 && r[0].Some? && r[1].Some? && o[2].Some? then
        Some(Store(r[0].value, r[1].value, o[2].value))
      else if op == OUT && n == 2 && o[0].Some? && r[1].Some? then Some(Print(o[0].value, r[1].value))
      else if op == HALT && n == 1 && o[0].Some? then Some(Stop(o[0].value))
      else None
  }

  /** `p` is the meaning of the program, statement by statement. */
  ghost predicate Means(entries: seq<Entry>, p: Program) {
    && |p| == |Body(entries)|
    && forall i :: 0 <= i < |p| ==> Interpret(Body(entries)[i].statement, entries) == Some(p[i])
  }

  // ------------------------------------------------------- the symbolic machine

  /** As data, a label is the address of its statement. */
  function Value(o: Operand): nat {
    match o
    case Label(index) => INSN * index
    case Constant(value) => value % WORD
  }

  /** As a jump target, a label is its statement; a number has to be the address of one. */
  function Destination(o: Operand, n: nat): Option<nat> {
    match o
    case Label(index) => if index < n then Some(index) else None
    case Constant(value) =>
      if value % WORD % INSN == 0 && value % WORD / INSN < n then Some(value % WORD / INSN) else None
  }

  /** Leaves: control leaves the program, or a store overwrites it. */
  datatype SymbolicOutcome = Goes(m: Machine) | Stops(exit: Exit) | Fails(fault: Fault) | Leaves

  function Move(m: Machine, to: Option<nat>): SymbolicOutcome {
    if to.Some? then Goes(m.(pc := to.value)) else Leaves
  }

  function Following(p: Program, m: Machine): Option<nat> {
    if m.pc + 1 < |p| then Some(m.pc + 1) else None
  }

  predicate Taken(c: Condition, zero: bool) {
    match c
    case Always => true
    case IfZero => zero
    case IfNotZero => !zero
  }

  function Combined(op: nat, a: nat, b: nat): nat {
    if op == ADD then (a + b) % WORD else if op == SUB then (a - b) % WORD else BitwiseWord(op, a, b)
  }

  predicate RegistersFit(i: Instr) {
    match i
    case Set(d, _) => d < 16
    case Copy(d, a) => d < 16 && a < 16
    case Combine(op, d, a, b) => ADD <= op <= XOR && d < 16 && a < 16 && b < 16
    case Compare(a, b) => a < 16 && b < 16
    case Load(d, a, _) => d < 16 && a < 16
    case Store(a, b, _) => a < 16 && b < 16
    case Print(_, a) => a < 16
    case _ => true
  }

  /** One statement; the program counter of `m` counts statements. */
  function SymbolicStep(p: Program, m: Machine): SymbolicOutcome
    requires Sound(m) && m.pc < |p| && RegistersFit(p[m.pc])
  {
    var next := Following(p, m);
    match p[m.pc]
    case Nothing => Move(m, next)
    case Set(d, o) => Move(m.(r := m.r[d := Value(o)]), next)
    case Copy(d, a) => Move(m.(r := m.r[d := m.r[a]]), next)
    case Combine(op, d, a, b) => Move(m.(r := m.r[d := Combined(op, m.r[a], m.r[b])]), next)
    case Compare(a, b) => Move(m.(zero := m.r[a] == m.r[b]), next)
    case Jump(c, o) => Move(m, if Taken(c, m.zero) then Destination(o, |p|) else next)
    case Load(d, a, o) =>
      var address := (m.r[a] + Value(o)) % WORD;
      if address >= RAM then Fails(MemoryFault(address)) else Move(m.(r := m.r[d := m.mem[address]]), next)
    case Store(a, b, o) =>
      var address := (m.r[a] + Value(o)) % WORD;
      if address >= RAM then Fails(MemoryFault(address))
      else if address < INSN * |p| then Leaves
      else Move(m.(mem := m.mem[address := m.r[b] % 256]), next)
    case Print(o, a) =>
      if Value(o) != 0 then Fails(UnsupportedPort(Value(o))) else Move(m.(output := m.output + [m.r[a] % 256]), next)
    case Stop(o) => Stops(Exit(Value(o) % 0x1_0000_0000, m.output))
  }

  // ------------------------------------------------ statements and instructions

  /** The instruction does what the statement means. */
  predicate Encodes(i: Instr, n: Insn) {
    match i
    case Nothing => n.op == NOP
    case Set(d, o) => n.op == MOVI && n.rd == d && n.value == Value(o)
    case Copy(d, a) => n.op == MOV && n.rd == d && n.ra == a
    case Combine(op, d, a, b) => ADD <= op <= XOR && n.op == op && n.rd == d && n.ra == a && n.rb == b
    case Compare(a, b) => n.op == CMPEQ && n.ra == a && n.rb == b
    case Jump(c, o) =>
      n.op == (match c case Always => JMP case IfZero => JZ case IfNotZero => JNZ) && n.value == Value(o)
    case Load(d, a, o) => n.op == LOAD8 && n.rd == d && n.ra == a && n.value == Value(o)
    case Store(a, b, o) => n.op == STORE8 && n.ra == a && n.rb == b && n.value == Value(o)
    case Print(o, a) => n.op == OUT && n.ra == a && n.value == Value(o)
    case Stop(o) => n.op == HALT && n.value == Value(o)
  }

  /** Labels resolve to the addresses of the statements they stand for. */
  lemma {:induction false} FindIsPosition(entries: seq<Entry>, name: string)
    ensures Find(entries, name).Some? ==>
              exists k :: Defines(entries, k, name) && Find(entries, name).value == Position(entries, k)
    ensures Find(entries, name).None? ==> forall k :: !Defines(entries, k, name)
  {
    if entries != [] {
      var n := |entries| - 1;
      var before := entries[..n];
      FindIsPosition(before, name);
      if Find(before, name).Some? {
        var k :| Defines(before, k, name) && Find(before, name).value == Position(before, k);
        assert Defines(entries, k, name) && entries[..k] == before[..k];
      } else {
        assert forall k :: k < n && Defines(entries, k, name) ==> Defines(before, k, name);
        assert entries[n].name == Some(name) ==> Defines(entries, n, name);
      }
    }
  }

  lemma FindResolves(entries: seq<Entry>, labels: Labels, name: string)
    requires Resolved(entries, labels)
    ensures name in labels <==> Find(entries, name).Some?
    ensures name in labels ==> labels[name] == INSN * Find(entries, name).value
  {
    FindIsPosition(entries, name);
  }

  lemma OperandResolves(entries: seq<Entry>, labels: Labels, a: Arg)
    requires Resolved(entries, labels)
    ensures Immediate(a, labels).Ok? <==> OperandOf(a, entries).Some?
    ensures Immediate(a, labels).Ok? ==> Immediate(a, labels).value == Value(OperandOf(a, entries).value)
  {
    FindResolves(entries, labels, a.text);
  }

  /** The field that an operand of this kind fills in. */
  function Filled(kind: char, a: Arg, labels: Labels, i: Insn): Insn {
    var v, n := Immediate(a, labels), RegisterOf(a);
    if kind == 'i' then i.(value := if v.Ok? then v.value else 0)
    else
      var reg := if n.Some? then n.value else 0;
      if kind == 'd' then i.(rd := reg) else if kind == 'a' then i.(ra := reg) else i.(rb := reg)
  }

  predicate Readable(kind: char, a: Arg, labels: Labels) {
    if kind == 'i' then Immediate(a, labels).Ok? else RegisterOf(a).Some?
  }

  /** Reading operands one at a time fills in the fields one at a time. */
  lemma {:induction false} ReadFills(kinds: string, args: seq<Arg>, labels: Labels, i: Insn)
    requires |kinds| == |args| && i.op < 16 && i.rd < 16 && i.ra < 16 && i.rb < 16
    ensures kinds == "" ==> Read(kinds, args, labels, i) == Ok(i)
    ensures kinds != "" ==>
              && (Read(kinds, args, labels, i).Ok? ==> Readable(kinds[0], args[0], labels))
              && (Readable(kinds[0], args[0], labels) ==>
                    && Filled(kinds[0], args[0], labels, i).op == i.op && Filled(kinds[0], args[0], labels, i).rd < 16
                    && Filled(kinds[0], args[0], labels, i).ra < 16 && Filled(kinds[0], args[0], labels, i).rb < 16
                    && Read(kinds, args, labels, i)
                       == Read(kinds[1..], args[1..], labels, Filled(kinds[0], args[0], labels, i)))
  {
  }

  predicate AllReadable(kinds: string, args: seq<Arg>, labels: Labels)
    requires |kinds| == |args|
  {
    forall k :: 0 <= k < |kinds| ==> Readable(kinds[k], args[k], labels)
  }

  function FilledAll(kinds: string, args: seq<Arg>, labels: Labels, i: Insn): Insn
    requires |kinds| == |args|
  {
    if kinds == "" then i else FilledAll(kinds[1..], args[1..], labels, Filled(kinds[0], args[0], labels, i))
  }

  lemma {:induction false} ReadAll(kinds: string, args: seq<Arg>, labels: Labels, i: Insn)
    requires |kinds| == |args| && i.op < 16 && i.rd < 16 && i.ra < 16 && i.rb < 16
    ensures Read(kinds, args, labels, i).Ok? <==> AllReadable(kinds, args, labels)
    ensures Read(kinds, args, labels, i).Ok? ==> Read(kinds, args, labels, i).value == FilledAll(kinds, args, labels, i)
    decreases |kinds|
  {
    ReadFills(kinds, args, labels, i);
    if kinds != "" && Readable(kinds[0], args[0], labels) {
      ReadAll(kinds[1..], args[1..], labels, Filled(kinds[0], args[0], labels, i));
      assert AllReadable(kinds[1..], args[1..], labels) ==> AllReadable(kinds, args, labels) by {
        forall k | 0 < k < |kinds| && AllReadable(kinds[1..], args[1..], labels)
          ensures Readable(kinds[k], args[k], labels)
        {
          assert kinds[k] == kinds[1..][k - 1] && args[k] == args[1..][k - 1];
        }
      }
      forall k | 0 <= k < |kinds| - 1 && AllReadable(kinds, args, labels)
        ensures Readable(kinds[1..][k], args[1..][k], labels)
      {
        assert kinds[1..][k] == kinds[k + 1] && args[1..][k] == args[k + 1];
      }
    }
  }

  lemma FilledThree(kinds: string, args: seq<Arg>, labels: Labels, i: Insn)
    requires |kinds| == |args| <= 3
    ensures |kinds| == 0 ==> FilledAll(kinds, args, labels, i) == i
    ensures |kinds| >= 1 ==> var i1 := Filled(kinds[0], args[0], labels, i);
              && (|kinds| == 1 ==> FilledAll(kinds, args, labels, i) == i1)
              && (|kinds| >= 2 ==> var i2 := Filled(kinds[1], args[1], labels, i1);
                    && (|kinds| == 2 ==> FilledAll(kinds, args, labels, i) == i2)
                    && (|kinds| == 3 ==> FilledAll(kinds, args, labels, i) == Filled(kinds[2], args[2], labels, i2)))
  {
    if |kinds| >= 1 {
      var i1 := Filled(kinds[0], args[0], labels, i);
      if |kinds| >= 2 {
        assert kinds[1..][0] == kinds[1] && args[1..][0] == args[1];
        var i2 := Filled(kinds[1], args[1], labels, i1);
        assert FilledAll(kinds[1..], args[1..], labels, i1) == FilledAll(kinds[1..][1..], args[1..][1..], labels, i2);
        if |kinds| == 3 {
          assert kinds[1..][1..][0] == kinds[2] && args[1..][1..][0] == args[2];
          assert kinds[1..][1..][1..] == "";
        } else {
          assert kinds[1..][1..] == "";
        }
      }
    }
  }

  /** What the operands of a statement of the right length read as. */
  lemma OperandsRead(entries: seq<Entry>, labels: Labels, s: Statement)
    requires Resolved(entries, labels) && s.op.Some? && s.op.value <= HALT && |s.args| == |Operands(s.op.value)|
    ensures var kinds, i := Operands(s.op.value), Insn(s.op.value, 0, 0, 0, 0);
            && (Translate(s, labels).Ok? <==> AllReadable(kinds, s.args, labels))
            && (Translate(s, labels).Ok? ==> Translate(s, labels).value == FilledAll(kinds, s.args, labels, i))
    ensures forall k :: 0 <= k < |s.args| ==>
              && (Immediate(s.args[k], labels).Ok? <==> OperandOf(s.args[k], entries).Some?)
              && (Immediate(s.args[k], labels).Ok? ==>
                    Immediate(s.args[k], labels).value == Value(OperandOf(s.args[k], entries).value))
  {
    hide Read, FilledAll, Immediate, OperandOf, Resolved, Operands;
    ReadAll(Operands(s.op.value), s.args, labels, Insn(s.op.value, 0, 0, 0, 0));
    forall k | 0 <= k < |s.args|
      ensures Immediate(s.args[k], labels).Ok? <==> OperandOf(s.args[k], entries).Some?
      ensures Immediate(s.args[k], labels).Ok? ==>
                Immediate(s.args[k], labels).value == Value(OperandOf(s.args[k], entries).value)
    {
      OperandResolves(entries, labels, s.args[k]);
    }
  }

  lemma ComputingInterprets(entries: seq<Entry>, labels: Labels, s: Statement)
    requires Resolved(entries, labels) && s.op.Some? && s.op.value <= CMPEQ && |s.args| == |Operands(s.op.value)|
    ensures Translate(s, labels).Ok? <==> Interpret(s, entries).Some?
    ensures Translate(s, labels).Ok? ==>
              && Encodes(Interpret(s, entries).value, Translate(s, labels).value)
              && RegistersFit(Interpret(s, entries).value)
  {
    hide Read, FilledAll, Immediate, OperandOf, Resolved, Translate;
    OperandsRead(entries, labels, s);
    FilledThree(Operands(s.op.value), s.args, labels, Insn(s.op.value, 0, 0, 0, 0));
  }

  lemma ControlInterprets(entries: seq<Entry>, labels: Labels, s: Statement)
    requires Resolved(entries, labels) && s.op.Some? && CMPEQ < s.op.value <= HALT && |s.args| == |Operands(s.op.value)|
    ensures Translate(s, labels).Ok? <==> Interpret(s, entries).Some?
    ensures Translate(s, labels).Ok? ==>
              && Encodes(Interpret(s, entries).value, Translate(s, labels).value)
              && RegistersFit(Interpret(s, entries).value)
  {
    hide Read, FilledAll, Immediate, OperandOf, Resolved, Translate;
    OperandsRead(entries, labels, s);
    FilledThree(Operands(s.op.value), s.args, labels, Insn(s.op.value, 0, 0, 0, 0));
  }

  /** The assembler translates exactly the statements that mean something, and to what they mean. */
  lemma TranslateInterprets(entries: seq<Entry>, labels: Labels, s: Statement)
    requires Resolved(entries, labels)
    ensures Translate(s, labels).Ok? <==> Interpret(s, entries).Some?
    ensures Translate(s, labels).Ok? ==>
              && Encodes(Interpret(s, entries).value, Translate(s, labels).value)
              && RegistersFit(Interpret(s, entries).value)
  {
    hide Read, OperandOf, Resolved, Encodes, RegistersFit;
    if s.op.Some? && s.op.value <= HALT && |s.args| == |Operands(s.op.value)| {
      if s.op.value <= CMPEQ {
        ComputingInterprets(entries, labels, s);
      } else {
        ControlInterprets(entries, labels, s);
      }
    }
  }
}
