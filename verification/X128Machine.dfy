/** The x128 reference emulator. */
module X128Machine {
  import opened Wrappers
  import opened LittleEndian

  const WORD: nat := 0x1_0000_0000_0000_0000_0000_0000_0000_0000
  const INSN: nat := 20
  const RAM: nat := 0x1_0000
  const STEPS: nat := 100_000

  // Operation codes.
  const NOP: nat := 0
  const MOVI: nat := 1
  const MOV: nat := 2
  const ADD: nat := 3
  const SUB: nat := 4
  const AND: nat := 5
  const OR: nat := 6
  const XOR: nat := 7
  const CMPEQ: nat := 8
  const JMP: nat := 9
  const JZ: nat := 10
  const JNZ: nat := 11
  const LOAD8: nat := 12
  const STORE8: nat := 13
  const OUT: nat := 14
  const HALT: nat := 15

  datatype Fault =
    ImageTooBig | FetchFault(pc: nat) | InvalidInstruction(pc: nat) | MemoryFault(address: nat) |
    UnsupportedPort(port: nat) | StepLimit

  datatype Exit = Exit(code: nat, output: seq<byte>)

  datatype Machine = Machine(pc: nat, r: seq<nat>, zero: bool, mem: seq<byte>, output: seq<byte>)

  datatype Outcome = Next(m: Machine) | Halted(exit: Exit) | Faulted(fault: Fault)

  datatype Insn = Insn(op: nat, rd: nat, ra: nat, rb: nat, value: nat)

  /** Registers are 128 bits wide; the program counter is whatever was last loaded into it. */
  predicate Sound(m: Machine) {
    |m.r| == 16 && |m.mem| == RAM && forall i :: 0 <= i < 16 ==> m.r[i] < WORD
  }

  // ------------------------------------------------------------- bitwise words

  function Pow2(k: nat): nat {
    if k == 0 then 1 else 2 * Pow2(k - 1)
  }

  function Bit(op: nat, a: nat, b: nat): nat {
    if op == AND then a * b else if op == OR then (if a + b > 0 then 1 else 0) else (a + b) % 2
  }

  /** The low `k` bits of a bitwise operation. */
  function Bitwise(op: nat, a: nat, b: nat, k: nat): (c: nat)
    ensures c < Pow2(k)
  {
    if k == 0 then 0
    else
      var bit := Bit(op, a % 2, b % 2);
      assert bit < 2 by { BitIsBit(op, a % 2, b % 2); }
      bit + 2 * Bitwise(op, a / 2, b / 2, k - 1)
  }

  lemma BitIsBit(op: nat, a: nat, b: nat)
    requires a < 2 && b < 2
    ensures Bit(op, a, b) < 2
  {
    assert a == 0 || a == 1;
  }

  lemma {:induction false} Pow2Sum(j: nat, k: nat)
    ensures Pow2(j + k) == Pow2(j) * Pow2(k)
  {
    if j > 0 {
      Pow2Sum(j - 1, k);
      assert Pow2(j + k) == 2 * Pow2(j - 1 + k);
    }
  }

  lemma Pow2Two()
    ensures Pow2(2) == 4
  {
  }

  lemma WordIsPow2()
    ensures Pow2(128) == WORD
  {
    hide Pow2;
    Pow2Two();
    Pow2Sum(2, 2);
    Pow2Sum(4, 4);
    Pow2Sum(8, 8);
    Pow2Sum(16, 16);
    Pow2Sum(32, 32);
    Pow2Sum(64, 64);
  }

  /** What the bitwise operations mean for numbers, without naming a bit. */
  lemma {:induction false} BitwiseLaws(a: nat, b: nat, k: nat)
    requires a < Pow2(k) && b < Pow2(k)
    ensures Bitwise(AND, a, b, k) + Bitwise(OR, a, b, k) == a + b
    ensures Bitwise(XOR, a, b, k) + 2 * Bitwise(AND, a, b, k) == a + b
    ensures Bitwise(AND, a, b, k) <= a && Bitwise(AND, a, b, k) <= b && Bitwise(AND, a, a, k) == a
  {
    if k > 0 {
      BitwiseLaws(a / 2, b / 2, k - 1);
      BitLaws(a % 2, b % 2);
    }
  }

  lemma BitLaws(a: nat, b: nat)
    requires a < 2 && b < 2
    ensures Bit(AND, a, b) + Bit(OR, a, b) == a + b && Bit(XOR, a, b) + 2 * Bit(AND, a, b) == a + b
    ensures Bit(AND, a, b) <= a && Bit(AND, a, b) <= b && Bit(AND, a, a) == a
  {
    assert a == 0 || a == 1;
  }

  function BitwiseWord(op: nat, a: nat, b: nat): (c: nat)
    ensures c < WORD
  {
    WordIsPow2();
    Bitwise(op, a, b, 128)
  }

  // ------------------------------------------------------------------- a step

  function EncodeInsn(i: Insn): (raw: seq<byte>)
    requires i.op < 16 && i.rd < 16 && i.ra < 16 && i.rb < 16
    ensures |raw| == INSN
  {
    var head: seq<byte> := [i.op, i.rd, i.ra, i.rb];
    head + Encode(i.value, 16)
  }

  /** The bytes of an instruction: operation, three registers, and the value with its low byte first. */
  lemma InsnLayout(i: Insn, k: nat)
    requires i.op < 16 && i.rd < 16 && i.ra < 16 && i.rb < 16 && k < 16
    ensures EncodeInsn(i)[..4] == [i.op, i.rd, i.ra, i.rb]
    ensures Pow256(k) > 0 && EncodeInsn(i)[4 + k] == i.value / Pow256(k) % 256
  {
    hide Encode;
    EncodedByte(i.value, 16, k);
  }

  function Fetch(mem: seq<byte>, pc: nat): Result<Insn, Fault>
    requires |mem| == RAM
  {
    if pc > RAM - INSN then Err(FetchFault(pc))
    else
      var i := Insn(mem[pc], mem[pc + 1], mem[pc + 2], mem[pc + 3], Decode(mem[pc + 4..pc + INSN]));
      if i.op > HALT || i.rd >= 16 || i.ra >= 16 || i.rb >= 16 then Err(InvalidInstruction(pc)) else Ok(i)
  }

  /** Registers after a computing instruction; the others leave them alone. */
  function Compute(i: Insn, r: seq<nat>): (r': seq<nat>)
    requires |r| == 16 && i.rd < 16 && i.ra < 16 && i.rb < 16
    ensures |r'| == 16
  {
    var a, b := r[i.ra], r[i.rb];
    if i.op == MOVI then r[i.rd := i.value]
    else if i.op == MOV then r[i.rd := a]
    else if i.op == ADD then r[i.rd := (a + b) % WORD]
    else if i.op == SUB then r[i.rd := (a - b) % WORD]
    else if AND <= i.op <= XOR then r[i.rd := BitwiseWord(i.op, a, b)]
    else r
  }

  function Target(i: Insn, zero: bool, pc: nat): nat {
    if i.op == JMP || (i.op == JZ && zero) || (i.op == JNZ && !zero) then i.value else (pc + INSN) % WORD
  }

  function Execute(i: Insn, m: Machine): Outcome
    requires Sound(m) && i.rd < 16 && i.ra < 16 && i.rb < 16
  {
    var pc := Target(i, m.zero, m.pc);
    var address := (m.r[i.ra] + i.value) % WORD;
    if i.op == LOAD8 then
      if address >= RAM then Faulted(MemoryFault(address))
      else Next(m.(pc := pc, r := m.r[i.rd := m.mem[address]]))
    else if i.op == STORE8 then
      if address >= RAM then Faulted(MemoryFault(address))
      else Next(m.(pc := pc, mem := m.mem[address := m.r[i.rb] % 256]))
    else if i.op == OUT then
      if i.value != 0 then Faulted(UnsupportedPort(i.value))
      else Next(m.(pc := pc, output := m.output + [m.r[i.ra] % 256]))
    else if i.op == HALT then Halted(Exit(i.value % 0x1_0000_0000, m.output))
    else if i.op == CMPEQ then Next(m.(pc := pc, zero := m.r[i.ra] == m.r[i.rb]))
    else Next(m.(pc := pc, r := Compute(i, m.r)))
  }

  function Step(m: Machine): Outcome
    requires Sound(m)
  {
    var i := Fetch(m.mem, m.pc);
    if i.Err? then Faulted(i.error) else Execute(i.value, m)
  }

  lemma FetchedValue(mem: seq<byte>, pc: nat)
    requires |mem| == RAM && Fetch(mem, pc).Ok?
    ensures var i := Fetch(mem, pc).value;
            i.op < 16 && i.rd < 16 && i.ra < 16 && i.rb < 16 && i.value < WORD
  {
    hide Decode, Pow256;
    Widths();
    DecodeBound(mem[pc + 4..pc + INSN]);
  }

  /** Every step keeps registers within 128 bits and memory at its size. */
  lemma StepSound(m: Machine)
    requires Sound(m)
    ensures Step(m).Next? ==> Sound(Step(m).m)
  {
    hide Fetch, BitwiseWord;
    if Fetch(m.mem, m.pc).Ok? {
      FetchedValue(m.mem, m.pc);
    }
  }

  // ------------------------------------------------------- what instructions mean

  /** Bit `k` of a number is set. */
  predicate HasBit(x: nat, k: nat)
  {
    Pow2Positive(k);
    x / Pow2(k) % 2 == 1
  }

  lemma {:induction false} Pow2Positive(k: nat)
    ensures Pow2(k) > 0
  {
    if k > 0 {
      Pow2Positive(k - 1);
    }
  }

  lemma HigherBit(x: nat, k: nat)
    requires k > 0
    ensures HasBit(x, k) <==> HasBit(x / 2, k - 1)
  {
    Pow2Positive(k - 1);
    DividesTwice(x, 2, Pow2(k - 1));
  }

  lemma {:induction false} BitwiseBit(op: nat, a: nat, b: nat, n: nat, k: nat)
    requires k < n
    ensures HasBit(Bitwise(op, a, b, n), k) <==>
            Bit(op, if HasBit(a, k) then 1 else 0, if HasBit(b, k) then 1 else 0) == 1
    decreases n
  {
    hide HasBit;
    var bit, rest := Bit(op, a % 2, b % 2), Bitwise(op, a / 2, b / 2, n - 1);
    BitIsBit(op, a % 2, b % 2);
    var c := Bitwise(op, a, b, n);
    assert c == bit + 2 * rest && c / 2 == rest && c % 2 == bit;
    if k == 0 {
      LowestBit(a);
      LowestBit(b);
      LowestBit(c);
    } else {
      HigherBit(a, k);
      HigherBit(b, k);
      HigherBit(c, k);
      BitwiseBit(op, a / 2, b / 2, n - 1, k - 1);
    }
  }

  lemma LowestBit(x: nat)
    ensures HasBit(x, 0) <==> x % 2 == 1
  {
  }

  /** AND, OR and XOR, bit by bit. */
  lemma LogicBits(i: Insn, m: Machine, k: nat)
    requires Sound(m) && AND <= i.op <= XOR && i.rd < 16 && i.ra < 16 && i.rb < 16 && k < 128
    ensures Execute(i, m).Next?
    ensures var (x, y, z) := (HasBit(m.r[i.ra], k), HasBit(m.r[i.rb], k), HasBit(Execute(i, m).m.r[i.rd], k));
            && (i.op == AND ==> (z <==> x && y))
            && (i.op == OR ==> (z <==> x || y))
            && (i.op == XOR ==> (z <==> x != y))
  {
    hide HasBit, Bitwise;
    BitwiseBit(i.op, m.r[i.ra], m.r[i.rb], 128, k);
  }

  /** Addition and subtraction: the exact result, up to one carry or borrow out of the word. */
  lemma ArithmeticWraps(i: Insn, m: Machine)
    requires Sound(m) && (i.op == ADD || i.op == SUB) && i.rd < 16 && i.ra < 16 && i.rb < 16
    ensures Execute(i, m).Next?
    ensures var (a, b, c) := (m.r[i.ra], m.r[i.rb], Execute(i, m).m.r[i.rd]);
            && c < WORD
            && (i.op == ADD ==> a + b == c || a + b == c + WORD)
            && (i.op == SUB ==> c + b == a || c + b == a + WORD)
  {
  }

  /** Computing instructions change one register, and moves fetch what they say. */
  lemma OneRegister(i: Insn, m: Machine)
    requires Sound(m) && MOVI <= i.op <= XOR && i.rd < 16 && i.ra < 16 && i.rb < 16
    ensures Execute(i, m).Next?
    ensures var m' := Execute(i, m).m;
            && (forall k :: 0 <= k < 16 && k != i.rd ==> m'.r[k] == m.r[k])
            && m' == m.(pc := (m.pc + INSN) % WORD, r := m'.r)
            && (i.op == MOVI ==> m'.r[i.rd] == i.value) && (i.op == MOV ==> m'.r[i.rd] == m.r[i.ra])
  {
  }

  /** A byte stored is the byte loaded from the same address, and from no other. */
  lemma StoredIsLoaded(store: Insn, load: Insn, m: Machine)
    requires Sound(m) && store.op == STORE8 && load.op == LOAD8
    requires store.rd < 16 && store.ra < 16 && store.rb < 16 && load.rd < 16 && load.ra < 16 && load.rb < 16
    requires Execute(store, m).Next?
    ensures var m1 := Execute(store, m).m;
            var at, from := (m.r[store.ra] + store.value) % WORD, (m.r[load.ra] + load.value) % WORD;
            && Sound(m1) && (Execute(load, m1).Next? <==> from < RAM)
            && (from < RAM ==>
                  Execute(load, m1).m.r[load.rd] == if from == at then m.r[store.rb] % 256 else m.mem[from])
  {
  }

  /** A comparison and a conditional jump: taken exactly if the registers are equal, or are not. */
  lemma CompareThenJump(compare: Insn, jump: Insn, m: Machine)
    requires Sound(m) && compare.op == CMPEQ && (jump.op == JZ || jump.op == JNZ)
    requires compare.rd < 16 && compare.ra < 16 && compare.rb < 16 && jump.rd < 16 && jump.ra < 16 && jump.rb < 16
    ensures Execute(compare, m).Next? && Sound(Execute(compare, m).m) && Execute(jump, Execute(compare, m).m).Next?
    ensures var equal, m1 := m.r[compare.ra] == m.r[compare.rb], Execute(compare, m).m;
            Execute(jump, m1).m == m1.(pc := if equal == (jump.op == JZ) then jump.value else (m1.pc + INSN) % WORD)
  {
  }

  // -------------------------------------------------------------------- a run

  /** At most `n` steps from `m` on. */
  function RunFor(m: Machine, n: nat): Result<Exit, Fault>
    requires Sound(m)
    decreases n, m
  {
    if n == 0 then Err(StepLimit)
    else
      StepSound(m);
      match Step(m)
      case Next(m') => RunFor(m', n - 1)
      case Halted(exit) => Ok(exit)
      case Faulted(fault) => Err(fault)
  }

  function ZeroRegisters(): seq<nat> {
    seq(16, _ => 0)
  }

  function Boot(image: seq<byte>): (m: Machine)
    requires |image| <= RAM
    ensures Sound(m) && m.mem[..|image|] == image
  {
    Machine(0, ZeroRegisters(), false, image + seq(RAM - |image|, _ => 0), [])
  }

  function Runs(image: seq<byte>): Result<Exit, Fault> {
    if |image| > RAM then Err(ImageTooBig) else RunFor(Boot(image), STEPS)
  }

  /** A machine starts at address zero with the image in memory, and zero everywhere else. */
  lemma BootState(image: seq<byte>, k: nat)
    requires |image| <= RAM
    ensures var m := Boot(image);
            && m.pc == 0 && !m.zero && m.output == [] && (k < 16 ==> m.r[k] == 0)
            && (k < RAM ==> m.mem[k] == if k < |image| then image[k] else 0)
  {
  }

  /** `n` steps, all of which go on. */
  function Steps(m: Machine, n: nat): (r: Option<Machine>)
    requires Sound(m)
    ensures r.Some? ==> Sound(r.value)
    decreases n, m
  {
    if n == 0 then Some(m)
    else
      StepSound(m);
      if Step(m).Next? then Steps(Step(m).m, n - 1) else None
  }

  /** It goes on for `n` steps, and the next one has this outcome. */
  predicate EndsAt(m: Machine, n: nat, outcome: Outcome)
    requires Sound(m)
  {
    Steps(m, n).Some? && Step(Steps(m, n).value) == outcome
  }

  /** A run ends as the machine does within the limit, or at the limit if it does not. */
  lemma {:induction false} RunDecided(m: Machine, limit: nat)
    requires Sound(m)
    ensures RunFor(m, limit).Ok? ==>
              exists n: nat :: n < limit && EndsAt(m, n, Halted(RunFor(m, limit).value))
    ensures RunFor(m, limit).Err? ==>
              || (exists n: nat :: n < limit && EndsAt(m, n, Faulted(RunFor(m, limit).error)))
              || (RunFor(m, limit).error == StepLimit && Steps(m, limit).Some?)
    decreases limit
  {
    hide Step, Sound;
    if limit > 0 {
      RunStep(m, limit);
      if Step(m).Next? {
        var next := Step(m).m;
        RunDecided(next, limit - 1);
        forall n: nat, outcome | EndsAt(next, n, outcome)
          ensures EndsAt(m, n + 1, outcome)
        {
          assert Steps(m, n + 1) == Steps(next, n);
        }
        assert Steps(m, limit) == Steps(next, limit - 1);
        var r := RunFor(next, limit - 1);
        if n: nat :| n < limit - 1 && r.Ok? && EndsAt(next, n, Halted(r.value)) {
          assert EndsAt(m, n + 1, Halted(r.value));
        }
        if n: nat :| n < limit - 1 && r.Err? && EndsAt(next, n, Faulted(r.error)) {
          assert EndsAt(m, n + 1, Faulted(r.error));
        }
      } else {
        assert EndsAt(m, 0, Step(m));
      }
    }
  }

  /** Too big is exactly more than the memory; otherwise the run is that of the booted machine. */
  lemma RunsDecided(image: seq<byte>)
    ensures |image| > 65536 ==> Runs(image) == Err(ImageTooBig)
    ensures |image| <= 65536 ==> Runs(image) == RunFor(Boot(image), 100_000)
  {
  }

  /** What the arrays and variables of a run stand for. */
  ghost predicate Holds(m: Machine, pc: nat, r: seq<nat>, zero: bool, mem: seq<byte>, output: seq<byte>) {
    m == Machine(pc, r, zero, mem, output) && Sound(m)
  }

  /** The emulator: registers and memory updated in place, one instruction per iteration. */
  method Run(image: seq<byte>) returns (result: Result<Exit, Fault>)
    ensures result == Runs(image)
  {
    hide RunFor, Execute, Fetch;
    if |image| > RAM {
      result := Err(ImageTooBig);
    } else {
      var mem := new byte[RAM](i => if 0 <= i < |image| then image[i] else 0);
      var r := new nat[16](_ => 0);
      var pc, zero, output, steps, done := 0, false, [], 0, false;
      ghost var m := Boot(image);
      assert mem[..] == m.mem && r[..] == m.r;
      result := Err(StepLimit);
      while steps < STEPS && !done
        invariant steps <= STEPS && mem.Length == RAM && r.Length == 16
        invariant !done ==> Holds(m, pc, r[..], zero, mem[..], output) && result == Err(StepLimit)
        invariant Runs(image) == if done then result else RunFor(m, STEPS - steps)
        decreases STEPS - steps, if done then 0 else 1
      {
        RunStep(m, STEPS - steps);
        var fetched := Fetch(mem[..], pc);
        if fetched.Err? {
          result, done := Err(fetched.error), true;
        } else {
          FetchedValue(mem[..], pc);
          var p := Perform(fetched.value, m, pc, zero, output, r, mem);
          if p.exit.Some? {
            result, done := p.exit.value, true;
          } else {
            pc, zero, output := p.pc, p.zero, p.output;
            m := Step(m).m;
          }
        }
        steps := steps + 1;
      }
      RunEnd(m);
    }
  }

  lemma RunStep(m: Machine, n: nat)
    requires Sound(m) && n > 0
    ensures Step(m).Next? ==> Sound(Step(m).m)
    ensures RunFor(m, n) == match Step(m)
                            case Next(m') => RunFor(m', n - 1)
                            case Halted(exit) => Ok(exit)
                            case Faulted(fault) => Err(fault)
  {
    StepSound(m);
  }

  lemma RunEnd(m: Machine)
    ensures Sound(m) ==> RunFor(m, 0) == Err(StepLimit)
  {
  }

  /** The variables after one instruction, or the end of the run. */
  datatype Progress = Progress(exit: Option<Result<Exit, Fault>>, pc: nat, zero: bool, output: seq<byte>)

  ghost predicate Performed(outcome: Outcome, p: Progress, r: seq<nat>, mem: seq<byte>) {
    match outcome
    case Next(m') => p.exit == None && m' == Machine(p.pc, r, p.zero, mem, p.output)
    case Halted(exit) => p.exit == Some(Ok(exit))
    case Faulted(fault) => p.exit == Some(Err(fault))
  }

  method Perform(i: Insn, ghost m: Machine, pc: nat, zero: bool, output: seq<byte>, r: array<nat>, mem: array<byte>)
    returns (p: Progress)
    requires r.Length == 16 && mem.Length == RAM && Holds(m, pc, r[..], zero, mem[..], output)
    requires i.op < 16 && i.rd < 16 && i.ra < 16 && i.rb < 16
    modifies r, mem
    ensures Performed(Execute(i, m), p, r[..], mem[..])
  {
    var next := Target(i, zero, pc);
    p := Progress(None, next, zero, output);
    if LOAD8 <= i.op <= STORE8 {
      var address := (r[i.ra] + i.value) % WORD;
      if address >= RAM {
        p := p.(exit := Some(Err(MemoryFault(address))));
      } else if i.op == LOAD8 {
        r[i.rd] := mem[address];
      } else {
        mem[address] := r[i.rb] % 256;
      }
    } else if i.op == OUT {
      if i.value != 0 {
        p := p.(exit := Some(Err(UnsupportedPort(i.value))));
      } else {
        p := p.(output := output + [r[i.ra] % 256]);
      }
    } else if i.op == HALT {
      p := p.(exit := Some(Ok(Exit(i.value % 0x1_0000_0000, output))));
    } else if i.op == CMPEQ {
      p := p.(zero := r[i.ra] == r[i.rb]);
    } else if i.op == MOVI {
      r[i.rd] := i.value;
    } else if i.op == MOV {
      r[i.rd] := r[i.ra];
    } else if i.op == ADD {
      r[i.rd] := (r[i.ra] + r[i.rb]) % WORD;
    } else if i.op == SUB {
      r[i.rd] := (r[i.ra] - r[i.rb]) % WORD;
    } else if AND <= i.op <= XOR {
      r[i.rd] := BitwiseWord(i.op, r[i.ra], r[i.rb]);
    }
  }
}
