/** The emulator on an assembled image simulates the labelled program; a `puts` prints its text. */
module X128Simulation {
  import opened Wrappers
  import opened LittleEndian
  import opened X128Machine
  import opened X128Assembler
  import opened X128Symbolic
  import opened Sequences

  // ------------------------------------------------------------- fetching

  lemma EncodedInsn(i: Insn)
    requires i.op < 16 && i.rd < 16 && i.ra < 16 && i.rb < 16 && i.value < WORD
    ensures var raw := EncodeInsn(i);
            raw[0] == i.op && raw[1] == i.rd && raw[2] == i.ra && raw[3] == i.rb && Decode(raw[4..]) == i.value
  {
    hide Encode, Decode, Pow256;
    Widths();
    RoundTrip(i.value, 16);
    assert EncodeInsn(i)[4..] == Encode(i.value, 16);
  }

  lemma PrefixSlice(s: seq<byte>, n: nat, lo: nat, hi: nat)
    requires lo <= hi <= n <= |s|
    ensures s[..n][lo..hi] == s[lo..hi]
  {
  }

  /** Where the image is intact, the emulator fetches the translation of each statement. */
  lemma FetchTranslated(body: seq<Located>, labels: Labels, image: seq<byte>, mem: seq<byte>, i: nat)
    requires Emitted(body, labels, image) && |image| <= RAM == |mem| && mem[..|image|] == image && i < |body|
    requires Translate(body[i].statement, labels).Ok? ==> Translate(body[i].statement, labels).value.value < WORD
    ensures Translate(body[i].statement, labels).Ok?
    ensures Fetch(mem, INSN * i) == Ok(Translate(body[i].statement, labels).value)
  {
    hide Translate, EncodeInsn, Decode;
    assert Placed(body, labels, image, i);
    var insn := Translate(body[i].statement, labels).value;
    EncodedInsn(insn);
    var pc := INSN * i;
    var raw := mem[pc..pc + INSN];
    PrefixSlice(mem, |image|, pc, pc + INSN);
    assert raw == image[pc..pc + INSN];
    assert mem[pc + 4..pc + INSN] == raw[4..];
    assert mem[pc] == raw[0] && mem[pc + 1] == raw[1] && mem[pc + 2] == raw[2] && mem[pc + 3] == raw[3];
  }

  lemma {:induction false} BodyPrefix(entries: seq<Entry>, k: nat)
    requires k <= |entries|
    ensures Body(entries[..k]) <= Body(entries)
  {
    if k < |entries| {
      var before := entries[..|entries| - 1];
      BodyPrefix(before, k);
      assert before[..k] == entries[..k];
    } else {
      assert entries[..k] == entries;
    }
  }

  lemma LabelsFit(entries: seq<Entry>, labels: Labels)
    requires Resolved(entries, labels) && INSN * |Body(entries)| <= RAM
    ensures forall l :: l in labels ==> labels[l] < WORD
  {
    forall l | l in labels
      ensures labels[l] < WORD
    {
      var k :| Defines(entries, k, l);
      BodyPrefix(entries, k);
    }
  }

  lemma {:induction false} ReadFits(kinds: string, args: seq<Arg>, labels: Labels, i: Insn)
    requires |kinds| == |args| && i.op < 16 && i.rd < 16 && i.ra < 16 && i.rb < 16 && i.value < WORD
    requires forall l :: l in labels ==> labels[l] < WORD
    ensures Read(kinds, args, labels, i).Ok? ==> Read(kinds, args, labels, i).value.value < WORD
    decreases |kinds|
  {
    ReadFills(kinds, args, labels, i);
    if kinds != "" && Readable(kinds[0], args[0], labels) {
      ReadFits(kinds[1..], args[1..], labels, Filled(kinds[0], args[0], labels, i));
    }
  }

  lemma TranslateFits(s: Statement, labels: Labels)
    requires forall l :: l in labels ==> labels[l] < WORD
    ensures Translate(s, labels).Ok? ==> Translate(s, labels).value.value < WORD
  {
    hide Read, Operands;
    if s.op.Some? && s.op.value <= HALT && |s.args| == |Operands(s.op.value)| {
      ReadFits(Operands(s.op.value), s.args, labels, Insn(s.op.value, 0, 0, 0, 0));
    }
  }

  /** An assembled image that fits memory and is intact in it. */
  ghost predicate Loaded(entries: seq<Entry>, labels: Labels, image: seq<byte>, m: Machine) {
    Assembled(entries, labels, image) && |image| <= RAM && Sound(m) && m.mem[..|image|] == image
  }

  lemma Fetches(entries: seq<Entry>, labels: Labels, image: seq<byte>, m: Machine, i: nat)
    requires Loaded(entries, labels, image, m) && i < |Body(entries)|
    ensures Translate(Body(entries)[i].statement, labels).Ok?
    ensures Fetch(m.mem, INSN * i) == Ok(Translate(Body(entries)[i].statement, labels).value)
    ensures INSN * (i + 1) <= RAM
  {
    hide Resolved, Translate, Body, Fetch;
    LabelsFit(entries, labels);
    TranslateFits(Body(entries)[i].statement, labels);
    FetchTranslated(Body(entries), labels, image, m.mem, i);
  }

  // ---------------------------------------------------------------- simulation

  /** The emulator's state for a state of the symbolic machine: the same, at the statement's address. */
  function Concrete(m: Machine): Machine {
    m.(pc := INSN * m.pc)
  }

  /** The emulator's answer to an outcome of the symbolic machine. */
  ghost predicate Matches(symbolic: SymbolicOutcome, outcome: Outcome) {
    match symbolic
    case Goes(m) => outcome == Next(Concrete(m))
    case Stops(exit) => outcome == Halted(exit)
    case Fails(fault) => outcome == Faulted(fault)
    case Leaves => true
  }

  predicate Computes(i: Instr) {
    i.Nothing? || i.Set? || i.Copy? || i.Combine? || i.Compare?
  }

  lemma ComputingMatches(p: Program, m: Machine, n: Insn)
    requires Sound(m) && m.pc < |p| && INSN * |p| <= RAM && RegistersFit(p[m.pc]) && Encodes(p[m.pc], n)
    requires n.rd < 16 && n.ra < 16 && n.rb < 16 && Computes(p[m.pc])
    ensures Matches(SymbolicStep(p, m), Execute(n, Concrete(m)))
  {
    hide BitwiseWord, Destination;
  }

  lemma ControlMatches(p: Program, m: Machine, n: Insn)
    requires Sound(m) && m.pc < |p| && INSN * |p| <= RAM && RegistersFit(p[m.pc]) && Encodes(p[m.pc], n)
    requires n.rd < 16 && n.ra < 16 && n.rb < 16 && !Computes(p[m.pc])
    ensures Matches(SymbolicStep(p, m), Execute(n, Concrete(m)))
  {
    hide BitwiseWord, Combined;
  }

  /** Executing an instruction that encodes a statement does what the statement does. */
  lemma ExecuteMatches(p: Program, m: Machine, n: Insn)
    requires Sound(m) && m.pc < |p| && INSN * |p| <= RAM && RegistersFit(p[m.pc]) && Encodes(p[m.pc], n)
    requires n.rd < 16 && n.ra < 16 && n.rb < 16
    ensures Matches(SymbolicStep(p, m), Execute(n, Concrete(m)))
  {
    hide SymbolicStep, Execute, Encodes, RegistersFit;
    if Computes(p[m.pc]) {
      ComputingMatches(p, m, n);
    } else {
      ControlMatches(p, m, n);
    }
  }

  /** The symbolic machine keeps its image and its bounds. */
  lemma SymbolicStepKeeps(p: Program, m: Machine)
    requires Sound(m) && m.pc < |p| && RegistersFit(p[m.pc]) && INSN * |p| <= RAM
    requires match p[m.pc] case Set(_, o) => Value(o) < WORD case _ => true
    ensures var s := SymbolicStep(p, m);
            s.Goes? ==> Sound(s.m) && s.m.pc < |p| && s.m.mem[..INSN * |p|] == m.mem[..INSN * |p|]
  {
    hide BitwiseWord;
  }

  predicate Fits(i: Instr) {
    RegistersFit(i) && (i.Set? ==> Value(i.o) < WORD)
  }

  predicate Runnable(p: Program) {
    INSN * |p| <= RAM && forall i :: 0 <= i < |p| ==> Fits(p[i])
  }

  lemma Encoded(entries: seq<Entry>, labels: Labels, image: seq<byte>, m: Machine, p: Program, i: nat)
    requires Loaded(entries, labels, image, m) && Means(entries, p) && i < |p|
    ensures Fits(p[i]) && Fetch(m.mem, INSN * i).Ok? && Encodes(p[i], Fetch(m.mem, INSN * i).value)
  {
    hide Resolved, Translate, Body, Fetch, Interpret, Emitted;
    Fetches(entries, labels, image, m, i);
    TranslateInterprets(entries, labels, Body(entries)[i].statement);
    FetchedValue(m.mem, INSN * i);
  }

  /** A program with an image that fits has a meaning, and that can be run. */
  lemma ImageMeans(entries: seq<Entry>, labels: Labels, image: seq<byte>) returns (p: Program)
    requires Assembled(entries, labels, image) && |image| <= RAM
    ensures Means(entries, p) && Runnable(p) && INSN * |p| == |image|
  {
    hide Resolved, Translate, Body, Fetch, Interpret;
    var body, m := Body(entries), Boot(image);
    forall i | 0 <= i < |body|
      ensures Interpret(body[i].statement, entries).Some?
    {
      Fetches(entries, labels, image, m, i);
      TranslateInterprets(entries, labels, body[i].statement);
    }
    p := seq(|body|, i requires 0 <= i < |body| => Interpret(body[i].statement, entries).value);
    forall i | 0 <= i < |p|
      ensures Fits(p[i])
    {
      Encoded(entries, labels, image, m, p, i);
    }
  }

  /** One step of the emulator for one statement of the program. */
  lemma StepSimulates(entries: seq<Entry>, labels: Labels, image: seq<byte>, p: Program, m: Machine)
    requires Loaded(entries, labels, image, m) && Means(entries, p) && Runnable(p) && m.pc < |p|
    ensures Matches(SymbolicStep(p, m), Step(Concrete(m)))
    ensures var s := SymbolicStep(p, m); s.Goes? ==> Loaded(entries, labels, image, s.m) && s.m.pc < |p|
  {
    hide Resolved, Fetch, Interpret, Body, SymbolicStep, Execute, Encodes;
    Encoded(entries, labels, image, m, p, m.pc);
    FetchedValue(m.mem, INSN * m.pc);
    ExecuteMatches(p, m, Fetch(m.mem, INSN * m.pc).value);
    SymbolicStepKeeps(p, m);
  }

  datatype Verdict = Ended(result: Result<Exit, Fault>) | Left

  /** At most `n` statements from `m` on. */
  function SymbolicRun(p: Program, m: Machine, n: nat): Verdict
    requires Runnable(p) && Sound(m) && m.pc < |p|
    decreases n, m
  {
    if n == 0 then Ended(Err(StepLimit))
    else
      SymbolicStepKeeps(p, m);
      match SymbolicStep(p, m)
      case Goes(m') => SymbolicRun(p, m', n - 1)
      case Stops(exit) => Ended(Ok(exit))
      case Fails(fault) => Ended(Err(fault))
      case Leaves => Left
  }

  lemma {:induction false} RunSimulates(entries: seq<Entry>, labels: Labels, image: seq<byte>, p: Program, m: Machine,
                                        n: nat)
    requires Loaded(entries, labels, image, m) && Means(entries, p) && Runnable(p) && m.pc < |p|
    ensures SymbolicRun(p, m, n).Ended? ==> RunFor(Concrete(m), n) == SymbolicRun(p, m, n).result
    decreases n
  {
    hide Step, SymbolicStep, Assembled, Means;
    if n > 0 {
      StepSimulates(entries, labels, image, p, m);
      var s := SymbolicStep(p, m);
      if s.Goes? {
        RunSimulates(entries, labels, image, p, s.m, n - 1);
      }
    }
  }

  /**
   Assembly preserves meaning: whatever the labelled program computes from the booted machine, the
   emulator computes from the image, as long as the program neither leaves nor overwrites itself.
   */
  lemma AssemblyPreservesMeaning(lines: seq<Line>, labels: Labels, image: seq<byte>) returns (p: Program)
    requires Assembled(Entries(lines), labels, image) && 0 < |image| <= RAM
    ensures Means(Entries(lines), p) && Runnable(p) && 0 < |p|
    ensures SymbolicRun(p, Boot(image), STEPS).Ended? ==> Runs(image) == SymbolicRun(p, Boot(image), STEPS).result
  {
    hide Assembled, Means, RunFor, SymbolicRun, Entries;
    p := ImageMeans(Entries(lines), labels, image);
    RunSimulates(Entries(lines), labels, image, p, Boot(image), STEPS);
    assert Concrete(Boot(image)) == Boot(image);
  }

  // ---------------------------------------------------------------------- puts

  /** The expansion of a `puts` of `text` stands in the program from statement `q` on. */
  ghost predicate Prints(body: seq<Located>, q: nat, text: seq<byte>) {
    && q + 2 * |text| <= |body|
    && forall k: nat :: k < |text| ==> PrintsByte(body, q + 2 * k, text[k])
  }

  predicate PrintsByte(body: seq<Located>, q: nat, b: byte) {
    q + 1 < |body| && body[q].statement == PutByte(b) && body[q + 1].statement == OUT_R1
  }

  /** No label is spelled like the port 0 or like a byte of the text, unless it happens to mean as much. */
  predicate NotCaptured(labels: Labels, text: seq<byte>) {
    && ("0" in labels && text != [] ==> labels["0"] == 0)
    && forall k :: 0 <= k < |text| ==> Reads(labels, text[k])
  }

  predicate Reads(labels: Labels, b: byte) {
    Decimal(b) in labels ==> labels[Decimal(b)] % 256 == b
  }

  /** What the assembler makes of a number: a label of that spelling, if there is one. */
  function Spelled(labels: Labels, b: byte): nat {
    if Decimal(b) in labels then labels[Decimal(b)] else b
  }

  function Emission(labels: Labels, text: seq<byte>): seq<byte> {
    seq(|text|, k requires 0 <= k < |text| => Spelled(labels, text[k]) % 256)
  }

  lemma PutsTranslates(labels: Labels, b: byte)
    ensures Translate(PutByte(b), labels) == Ok(Insn(MOVI, 1, 0, 0, Spelled(labels, b)))
    ensures Translate(OUT_R1, labels) == Ok(Insn(OUT, 0, 1, 0, Spelled(labels, 0)))
  {
    hide Decimal;
    var put, out := PutByte(b), OUT_R1;
    ReadAll("di", put.args, labels, Insn(MOVI, 0, 0, 0, 0));
    FilledThree("di", put.args, labels, Insn(MOVI, 0, 0, 0, 0));
    ReadAll("ia", out.args, labels, Insn(OUT, 0, 0, 0, 0));
    FilledThree("ia", out.args, labels, Insn(OUT, 0, 0, 0, 0));
  }

  /** The two statements of one byte. */
  lemma PutRuns(entries: seq<Entry>, labels: Labels, image: seq<byte>, m: Machine, q: nat, b: byte)
    requires Loaded(entries, labels, image, m) && m.pc == INSN * q && PrintsByte(Body(entries), q, b)
    ensures Steps(m, 2) ==
            if Spelled(labels, 0) != 0 then None
            else Some(m.(pc := INSN * (q + 2), r := m.r[1 := Spelled(labels, b)],
                         output := m.output + [Spelled(labels, b) % 256]))
  {
    hide Resolved, Emitted, Translate, Body, Fetch, Spelled, PutByte, Step, Steps;
    PutsTranslates(labels, b);
    Fetches(entries, labels, image, m, q);
    MoviStep(m, Spelled(labels, b));
    StepSound(m);
    var m1 := m.(pc := INSN * (q + 1), r := m.r[1 := Spelled(labels, b)]);
    assert Step(m) == Next(m1);
    Fetches(entries, labels, image, m1, q + 1);
    OutStep(m1, Spelled(labels, 0));
    StepSound(m1);
    StepsUnfold(m, 2);
    StepsUnfold(m1, 1);
    if Step(m1).Next? {
      StepsNone(Step(m1).m);
    }
  }

  lemma StepsUnfold(m: Machine, n: nat)
    requires Sound(m) && n > 0
    ensures Step(m).Next? ==> Sound(Step(m).m)
    ensures Steps(m, n) == if Step(m).Next? then Steps(Step(m).m, n - 1) else None
  {
    StepSound(m);
  }

  lemma MoviStep(m: Machine, v: nat)
    requires Sound(m) && m.pc + INSN < WORD && Fetch(m.mem, m.pc) == Ok(Insn(MOVI, 1, 0, 0, v))
    ensures Step(m) == Next(m.(pc := m.pc + INSN, r := m.r[1 := v]))
  {
    hide Fetch;
  }

  lemma OutStep(m: Machine, v: nat)
    requires Sound(m) && m.pc + INSN < WORD && Fetch(m.mem, m.pc) == Ok(Insn(OUT, 0, 1, 0, v))
    ensures Step(m) == if v != 0 then Faulted(UnsupportedPort(v))
                       else Next(m.(pc := m.pc + INSN, output := m.output + [m.r[1] % 256]))
  {
    hide Fetch;
  }

  /** What a `puts` does, whatever the labels are called. */
  lemma {:induction false} PutsRuns(entries: seq<Entry>, labels: Labels, image: seq<byte>, m: Machine, q: nat,
                                    text: seq<byte>)
    requires Loaded(entries, labels, image, m) && m.pc == INSN * q && Prints(Body(entries), q, text)
    ensures Steps(m, 2 * |text|) ==
            if text == [] then Some(m)
            else if Spelled(labels, 0) != 0 then None
            else Some(m.(pc := INSN * (q + 2 * |text|), r := m.r[1 := Spelled(labels, text[|text| - 1])],
                         output := m.output + Emission(labels, text)))
    decreases |text|
  {
    hide Assembled, Body, Spelled, Steps, Emission, PrintsByte;
    StepsNone(m);
    if text != [] {
      var b, rest := text[0], text[1..];
      PrintsRest(Body(entries), q, text);
      PutRuns(entries, labels, image, m, q, b);
      StepsAdd(m, 2, 2 * |rest|);
      EmissionHead(labels, text);
      if Spelled(labels, 0) == 0 {
        var m' := Steps(m, 2).value;
        PutsRuns(entries, labels, image, m', q + 2, rest);
        Regroup(m.output, [Spelled(labels, b) % 256], Emission(labels, rest));
        var last := text[|text| - 1];
        var want := m.(pc := INSN * (q + 2 * |text|), r := m.r[1 := Spelled(labels, last)],
                       output := m.output + Emission(labels, text));
        if rest == [] {
          assert m.output + [Spelled(labels, b) % 256] + [] == m'.output;
          assert m' == want;
        } else {
          assert rest[|rest| - 1] == last && m'.r[1 := Spelled(labels, last)] == want.r;
          assert Steps(m', 2 * |rest|) == Some(want);
        }
      }
    }
  }

  lemma PrintsRest(body: seq<Located>, q: nat, text: seq<byte>)
    requires Prints(body, q, text) && text != []
    ensures PrintsByte(body, q, text[0]) && Prints(body, q + 2, text[1..])
  {
    hide PrintsByte;
    assert PrintsByte(body, q + 2 * 0, text[0]);
    forall k: nat | k < |text| - 1
      ensures PrintsByte(body, q + 2 + 2 * k, text[1..][k])
    {
      assert PrintsByte(body, q + 2 * (k + 1), text[k + 1]);
    }
  }

  lemma EmissionHead(labels: Labels, text: seq<byte>)
    requires text != []
    ensures Emission(labels, text) == [Spelled(labels, text[0]) % 256] + Emission(labels, text[1..])
    ensures |text| == 1 ==> Emission(labels, text[1..]) == []
  {
  }

  lemma StepsNone(m: Machine)
    requires Sound(m)
    ensures Steps(m, 0) == Some(m)
  {
  }

  lemma {:induction false} StepsAdd(m: Machine, a: nat, b: nat)
    requires Sound(m)
    ensures Steps(m, a + b) == if Steps(m, a).Some? then Steps(Steps(m, a).value, b) else None
    decreases a
  {
    hide Step;
    if a > 0 {
      StepSound(m);
      if Step(m).Next? {
        StepsAdd(Step(m).m, a - 1, b);
      }
    }
  }

  /**
   A `puts` emits exactly its bytes if and only if no label captures them, and then it changes
   nothing but the output, register 1 and the program counter.
   */
  lemma PutsPrintsIff(entries: seq<Entry>, labels: Labels, image: seq<byte>, m: Machine, q: nat, text: seq<byte>)
    requires Loaded(entries, labels, image, m) && m.pc == INSN * q && Prints(Body(entries), q, text)
    ensures Steps(m, 2 * |text|).Some? && Steps(m, 2 * |text|).value.output == m.output + text
            <==> NotCaptured(labels, text)
    ensures NotCaptured(labels, text) ==>
              var m' := Steps(m, 2 * |text|).value;
              m' == m.(pc := INSN * (q + 2 * |text|), r := m.r[1 := m'.r[1]], output := m.output + text)
  {
    hide Assembled, Body, Steps, Spelled, Emission, NotCaptured;
    PutsRuns(entries, labels, image, m, q, text);
    CapturedIff(labels, text);
    var emitted := Emission(labels, text);
    assert m.output + emitted == m.output + text <==> emitted == text by {
      assert (m.output + emitted)[|m.output|..] == emitted && (m.output + text)[|m.output|..] == text;
    }
    assert m.r[1 := m.r[1]] == m.r;
    assert text == [] ==> m.output + text == m.output && Emission(labels, text) == text;
  }

  lemma CapturedIff(labels: Labels, text: seq<byte>)
    ensures NotCaptured(labels, text) <==> (text == [] || Spelled(labels, 0) == 0) && Emission(labels, text) == text
    ensures text == [] ==> Emission(labels, text) == text
  {
    hide Decimal;
    ZeroIsSpelled();
    assert Emission(labels, text) == text ==> forall k :: 0 <= k < |text| ==> Emission(labels, text)[k] == text[k];
  }

  lemma ZeroIsSpelled()
    ensures Decimal(0) == "0"
  {
  }

  // ------------------------------------------------- where an expansion stands

  lemma {:induction false} BodyConcat(a: seq<Entry>, b: seq<Entry>)
    ensures Body(a + b) == Body(a) + Body(b)
    decreases |b|
  {
    if b == [] {
      assert a + b == a;
    } else {
      var n := |b| - 1;
      BodyConcat(a, b[..n]);
      assert (a + b)[..|a + b| - 1] == a + b[..n];
    }
  }

  lemma BodyOfTwo(line: nat, a: Statement, b: Statement)
    ensures Body([Entry(line, None, Some(a)), Entry(line, None, Some(b))]) == [Located(line, a), Located(line, b)]
  {
    var one, both := [Entry(line, None, Some(a))], [Entry(line, None, Some(a)), Entry(line, None, Some(b))];
    assert both[..1] == one && one[..0] == [];
    assert Body([]) == [];
    assert Body(one) == [Located(line, a)];
  }

  lemma PrintsPair(body: seq<Located>, line: nat, b: byte)
    ensures PrintsByte(body + [Located(line, PutByte(b)), Located(line, OUT_R1)], |body|, b)
  {
  }

  lemma {:induction false} PutsBody(line: nat, text: seq<byte>)
    ensures var body := Body(PutsEntries(line, text)); |body| == 2 * |text| && Prints(body, 0, text)
    decreases |text|
  {
    hide Body, PrintsByte, PutByte;
    if text == [] {
      NoEntries();
    } else {
      var n := |text| - 1;
      PutsBody(line, text[..n]);
      var before := PutsEntries(line, text[..n]);
      var put, out := Entry(line, None, Some(PutByte(text[n]))), Entry(line, None, Some(OUT_R1));
      BodyConcat(before, [put, out]);
      BodyOfTwo(line, PutByte(text[n]), OUT_R1);
      var two := [Located(line, PutByte(text[n])), Located(line, OUT_R1)];
      var body := Body(before) + two;
      PrintsPair(Body(before), line, text[n]);
      forall k: nat | k < n
        ensures PrintsByte(body, 0 + 2 * k, text[k])
      {
        assert PrintsByte(Body(before), 0 + 2 * k, text[..n][k]);
        PrintsShifted([], Body(before), two, 2 * k, text[k]);
        assert [] + Body(before) + two == body;
      }
    }
  }

  lemma EntriesLast(lines: seq<Line>)
    requires lines != []
    ensures Entries(lines) == Entries(lines[..|lines| - 1]) + LineEntries(|lines|, lines[|lines| - 1])
  {
  }

  lemma {:induction false} EntriesPrefix(lines: seq<Line>, k: nat) returns (rest: seq<Entry>)
    requires k < |lines|
    ensures Entries(lines) == Entries(lines[..k]) + LineEntries(k + 1, lines[k]) + rest
    decreases |lines|
  {
    hide Entries, LineEntries;
    if k + 1 == |lines| {
      rest := [];
      EntriesLast(lines);
    } else {
      var before := lines[..|lines| - 1];
      var middle := EntriesPrefix(before, k);
      var last := LineEntries(|lines|, lines[|lines| - 1]);
      assert before[..k] == lines[..k] && before[k] == lines[k];
      rest := middle + last;
      Regroup(Entries(lines[..k]) + LineEntries(k + 1, lines[k]), middle, last);
      EntriesLast(lines);
    }
  }

  /** The expansion of the `puts` on line `k + 1` follows the statements of the lines above it. */
  lemma PutsStands(lines: seq<Line>, k: nat, text: seq<byte>)
    requires k < |lines| && lines[k] == Puts(Some(text))
    ensures Prints(Body(Entries(lines)), |Body(Entries(lines[..k]))|, text)
  {
    hide Entries, Body, PutsEntries, PrintsByte;
    var rest := EntriesPrefix(lines, k);
    var above, here := Entries(lines[..k]), PutsEntries(k + 1, text);
    PutsBody(k + 1, text);
    BodyConcat(above, here);
    BodyConcat(above + here, rest);
    var body, q := Body(Entries(lines)), |Body(above)|;
    forall i: nat | i < |text|
      ensures PrintsByte(body, q + 2 * i, text[i])
    {
      assert PrintsByte(Body(here), 0 + 2 * i, text[i]);
      PrintsShifted(Body(above), Body(here), Body(rest), 0 + 2 * i, text[i]);
    }
  }

  lemma PrintsShifted(a: seq<Located>, b: seq<Located>, c: seq<Located>, i: nat, x: byte)
    requires PrintsByte(b, i, x)
    ensures PrintsByte(a + b + c, |a| + i, x)
  {
  }

  lemma {:induction false} PutsNameless(line: nat, text: seq<byte>)
    ensures forall k :: 0 <= k < 2 * |text| ==> PutsEntries(line, text)[k].name == None
  {
    if text != [] {
      PutsNameless(line, text[..|text| - 1]);
    }
  }

  function Sample(): seq<Line> {
    [Code(Some("72"), None), Puts(Some([72]))]
  }

  lemma SampleEntries()
    ensures Entries(Sample()) == [Entry(1, Some("72"), None)] + PutsEntries(2, [72])
    ensures Body(Entries(Sample()[..1])) == []
  {
    hide PutsEntries;
    var lines := Sample();
    assert lines[..1] == [lines[0]] && [lines[0]][..0] == [];
    assert Entries([]) == [];
    var first := [Entry(1, Some("72"), None)];
    assert Entries([lines[0]]) == first;
    assert first[..0] == [];
    assert Body([]) == [];
  }

  /** The labels, the two statements and the image of the sample. */
  lemma SampleAssembles() returns (labels: Labels, image: seq<byte>)
    ensures AllPutsGood(Sample()) && LabelsDistinct(Entries(Sample())) && labels == map["72" := 0]
    ensures Assembled(Entries(Sample()), labels, image) && |image| == 2 * INSN
    ensures Prints(Body(Entries(Sample())), 0, [72])
  {
    hide Entries, Body, PutsEntries, Translate, EncodeInsn, PutByte;
    SampleEntries();
    PutsStands(Sample(), 1, [72]);
    PutsNameless(2, [72]);
    labels := map["72" := 0];
    SampleResolves(labels);
    SampleBody();
    var text: seq<byte> := [72];
    assert PrintsByte(Body(Entries(Sample())), 0 + 2 * 0, text[0]);
    PutsTranslates(labels, 72);
    var put, out := Translate(PutByte(72), labels).value, Translate(OUT_R1, labels).value;
    image := EncodeInsn(put) + EncodeInsn(out);
    var body := Body(Entries(Sample()));
    forall i: nat
      ensures Placed(body, labels, image, i)
    {
      assert image[..INSN] == EncodeInsn(put) && image[INSN..2 * INSN] == EncodeInsn(out);
    }
  }

  lemma SampleResolves(labels: Labels)
    requires labels == map["72" := 0]
    ensures Resolved(Entries(Sample()), labels) && LabelsDistinct(Entries(Sample()))
  {
    hide Entries, Body, PutsEntries;
    SampleEntries();
    PutsNameless(2, [72]);
    NoEntries();
    var entries := Entries(Sample());
    assert forall k, l :: Defines(entries, k, l) ==> k == 0 && l == "72";
    assert Defines(entries, 0, "72") && entries[..0] == [];
    assert Position(entries, 0) == 0;
  }

  lemma SampleBody()
    ensures |Body(Entries(Sample()))| == 2
  {
    hide Entries, Body, PutsEntries;
    SampleEntries();
    PutsBody(2, [72]);
    var first := [Entry(1, Some("72"), None)];
    BodyConcat(first, PutsEntries(2, [72]));
    assert Body(first) == [] by { NothingStated(); }
  }

  lemma NothingStated()
    ensures Body([Entry(1, Some("72"), None)]) == []
  {
    assert [Entry(1, Some("72"), None)][..0] == [];
  }

  /** Such a label can be written: the program assembles, and its `puts` of the letter H emits byte 0. */
  lemma CapturedByLabel() returns (labels: Labels, image: seq<byte>)
    ensures AllPutsGood(Sample()) && LabelsDistinct(Entries(Sample()))
    ensures Assembled(Entries(Sample()), labels, image) && |image| <= RAM && !NotCaptured(labels, [72])
    ensures Steps(Boot(image), 2).Some? && Steps(Boot(image), 2).value.output == [0]
  {
    hide Entries, Body, Steps, Assembled, NotCaptured;
    labels, image := SampleAssembles();
    var text: seq<byte> := [72];
    PutsRuns(Entries(Sample()), labels, image, Boot(image), 0, text);
    ByteSpelled();
    assert Decimal(0) !in labels && Spelled(labels, 0) == 0 by { ZeroIsSpelled(); }
    assert Emission(labels, text) == [0];
    CapturedIff(labels, text);
  }

  lemma ByteSpelled()
    ensures Decimal(72) == "72"
  {
  }

  lemma NoEntries()
    ensures Entries([]) == [] && Body([]) == []
  {
  }
}
