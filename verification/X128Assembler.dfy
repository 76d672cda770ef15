/** The two-pass x128 assembler, from tokenised lines to an image. */
module X128Assembler {
  import opened Wrappers
  import opened LittleEndian
  import opened X128Machine

  /** An operand: its text, and what it reads as when taken as a register or as a literal. */
  datatype Arg = Arg(text: string, register: Option<int>, literal: Option<int>)

  datatype Statement = Statement(op: Option<nat>, args: seq<Arg>)  // op: None for a mnemonic that does not exist

  /** A line without comment: blank, a `puts`, or an optional label and an optional statement. */
  datatype Line = Puts(text: Option<seq<byte>>) | Code(name: Option<string>, statement: Option<Statement>)

  datatype Entry = Entry(line: nat, name: Option<string>, statement: Option<Statement>)

  datatype Located = Located(line: nat, statement: Statement)

  datatype Trouble =
    InvalidPuts | DuplicateLabel(name: string) | UnknownInstruction | WrongOperands | NotRegister |
    RegisterRange(n: int) |
    BadImmediate

  datatype Error = Error(line: nat, trouble: Trouble)

  type Labels = map<string, nat>

  // ------------------------------------------------------------------ puts

  function Digit(d: nat): char
    requires d < 10
  {
    "0123456789"[d]
  }

  function Decimal(n: nat): string {
    if n < 10 then [Digit(n)] else Decimal(n / 10) + [Digit(n % 10)]
  }

  /** The number a string of decimal digits stands for. */
  function Reads(text: string): int {
    if text == "" then 0 else 10 * Reads(text[..|text| - 1]) + (text[|text| - 1] as int - '0' as int)
  }

  lemma DigitReads(d: nat)
    requires d < 10
    ensures Digit(d) as int - '0' as int == d
  {
  }

  /** A number is spelled in decimal digits, without a leading zero. */
  lemma {:induction false} DecimalReads(n: nat)
    ensures Reads(Decimal(n)) == n && Decimal(n) != "" && (n > 0 ==> Decimal(n)[0] != '0')
    ensures forall i :: 0 <= i < |Decimal(n)| ==> '0' <= Decimal(n)[i] <= '9'
    decreases n
  {
    DigitReads(n % 10);
    var text := Decimal(n);
    if n >= 10 {
      DecimalReads(n / 10);
    }
    assert text[..|text| - 1] == if n < 10 then "" else Decimal(n / 10);
  }

  function Number(n: nat): Arg {
    Arg(Decimal(n), None, Some(n))
  }

  const R1: Arg := Arg("r1", Some(1), None)

  function PutByte(b: byte): Statement {
    Statement(Some(MOVI), [R1, Number(b)])
  }

  const OUT_R1: Statement := Statement(Some(OUT), [Number(0), R1])

  /** Two statements per byte. */
  function PutsEntries(line: nat, text: seq<byte>): (entries: seq<Entry>)
    ensures |entries| == 2 * |text|
  {
    if text == [] then []
    else
      var n := |text| - 1;
      PutsEntries(line, text[..n]) + [Entry(line, None, Some(PutByte(text[n]))), Entry(line, None, Some(OUT_R1))]
  }

  predicate Malformed(line: Line) {
    line.Puts? && line.text.None?
  }

  function LineEntries(line: nat, l: Line): seq<Entry> {
    match l
    case Puts(text) => if text.None? then [] else PutsEntries(line, text.value)
    case Code(name, statement) => [Entry(line, name, statement)]
  }

  function Entries(lines: seq<Line>): seq<Entry> {
    if lines == [] then [] else Entries(lines[..|lines| - 1]) + LineEntries(|lines|, lines[|lines| - 1])
  }

  /** Every statement carries the number of the line it comes from, and lines come in order. */
  lemma {:induction false} EntriesCarryLines(lines: seq<Line>, i: nat, j: nat)
    requires i <= j < |Entries(lines)|
    ensures var e := Entries(lines)[j];
            && 1 <= e.line <= |lines| && e in LineEntries(e.line, lines[e.line - 1])
            && Entries(lines)[i].line <= e.line
    decreases |lines|
  {
    var n := |lines| - 1;
    var before, last := Entries(lines[..n]), LineEntries(|lines|, lines[n]);
    assert Entries(lines) == before + last;
    LineCarries(|lines|, lines[n]);
    if j < |before| {
      EntriesCarryLines(lines[..n], i, j);
    } else {
      assert Entries(lines)[j] == last[j - |before|];
      if i < |before| {
        EntriesCarryLines(lines[..n], i, i);
      } else {
        assert Entries(lines)[i] == last[i - |before|];
      }
    }
  }

  lemma LineCarries(line: nat, l: Line)
    ensures forall e :: e in LineEntries(line, l) ==> e.line == line
  {
    if l.Puts? && l.text.Some? {
      PutsCarry(line, l.text.value);
    }
  }

  lemma {:induction false} PutsCarry(line: nat, text: seq<byte>)
    ensures forall e :: e in PutsEntries(line, text) ==> e.line == line
  {
    if text != [] {
      PutsCarry(line, text[..|text| - 1]);
    }
  }

  /** The error names the first malformed `puts`. */
  ghost predicate BadPuts(lines: seq<Line>, e: Error) {
    exists k :: 0 <= k < |lines| && Malformed(lines[k]) && e == Error(k + 1, InvalidPuts)
                && forall j :: 0 <= j < k ==> !Malformed(lines[j])
  }

  /** Two statements for every byte of a `puts`. */
  method ExpandPuts(before: seq<Entry>, line: nat, text: seq<byte>) returns (out: seq<Entry>)
    ensures out == before + PutsEntries(line, text)
  {
    out := before;
    var k := 0;
    while k < |text|
      invariant k <= |text| && out == before + PutsEntries(line, text[..k])
    {
      assert text[..k + 1][..k] == text[..k];
      out := out + [Entry(line, None, Some(PutByte(text[k]))), Entry(line, None, Some(OUT_R1))];
      k := k + 1;
    }
    assert text[..k] == text;
  }

  /** `expanded`. */
  method Expand(lines: seq<Line>) returns (r: Result<seq<Entry>, Error>)
    ensures r.Ok? ==> r.value == Entries(lines) && forall k :: 0 <= k < |lines| ==> !Malformed(lines[k])
    ensures r.Err? ==> BadPuts(lines, r.error)
  {
    var out, n := [], 0;
    r := Ok([]);
    while n < |lines| && r.Ok?
      invariant n <= |lines|
      invariant r.Ok? ==> out == Entries(lines[..n]) && forall k :: 0 <= k < n ==> !Malformed(lines[k])
      invariant r.Err? ==> n < |lines| && Malformed(lines[n]) && r.error == Error(n + 1, InvalidPuts)
                           && forall j :: 0 <= j < n ==> !Malformed(lines[j])
      decreases |lines| - n, if r.Ok? then 1 else 0
    {
      assert lines[..n + 1][..n] == lines[..n];
      match lines[n] {
        case Puts(None) => r := Err(Error(n + 1, InvalidPuts));
        case Puts(Some(text)) =>
          out := ExpandPuts(out, n + 1, text);
          n := n + 1;
        case Code(name, statement) =>
          out := out + [Entry(n + 1, name, statement)];
          n := n + 1;
      }
    }
    if r.Ok? {
      assert lines[..n] == lines;
      r := Ok(out);
    }
  }

  // ----------------------------------------------------------------- pass one

  /** The statements of a program, in order. */
  function Body(entries: seq<Entry>): (body: seq<Located>)
    ensures |body| <= |entries|
  {
    if entries == [] then []
    else
      var e := entries[|entries| - 1];
      Body(entries[..|entries| - 1]) + (if e.statement.Some? then [Located(e.line, e.statement.value)] else [])
  }

  predicate Defines(entries: seq<Entry>, k: int, name: string) {
    0 <= k < |entries| && entries[k].name == Some(name)
  }

  /** How many statements stand before entry `k`. */
  function Position(entries: seq<Entry>, k: nat): nat
    requires k <= |entries|
  {
    |Body(entries[..k])|
  }

  /** Entry `k` defines a label again that an earlier entry has defined. */
  ghost predicate Redefines(entries: seq<Entry>, k: int) {
    0 <= k < |entries| && entries[k].name.Some? && exists j :: j < k && Defines(entries, j, entries[k].name.value)
  }

  /** `labels` maps exactly the defined labels, each to the address of the statement that follows it. */
  ghost predicate Resolved(entries: seq<Entry>, labels: Labels) {
    && (forall name :: name in labels ==> exists k :: Defines(entries, k, name))
    && (forall k, name :: Defines(entries, k, name) ==>
                           name in labels && labels[name] == INSN * Position(entries, k))
  }

  lemma ResolveMore(entries: seq<Entry>, n: nat, labels: Labels)
    requires n < |entries| && Resolved(entries[..n], labels) && !Redefines(entries, n)
    ensures var name := entries[n].name;
            Resolved(entries[..n + 1], if name.Some? then labels[name.value := INSN * |Body(entries[..n])|] else labels)
  {
    var now, next := entries[..n], entries[..n + 1];
    var name := entries[n].name;
    var labels' := if name.Some? then labels[name.value := INSN * |Body(now)|] else labels;
    assert next[..n] == now;
    forall l | l in labels'
      ensures exists k :: Defines(next, k, l)
    {
      if name == Some(l) {
        assert Defines(next, n, l);
      } else {
        var k :| Defines(now, k, l);
        assert Defines(next, k, l);
      }
    }
    forall k, l | Defines(next, k, l)
      ensures l in labels' && labels'[l] == INSN * Position(next, k)
    {
      assert next[..k] == entries[..k];
      if k < n {
        assert Defines(now, k, l) && Defines(entries, k, l) && now[..k] == next[..k];
        assert name != Some(l);
      }
    }
  }

  lemma NothingResolved()
    ensures Resolved([], map[]) && Body([]) == []
  {
  }

  lemma BodyMore(entries: seq<Entry>, n: nat)
    requires n < |entries|
    ensures Body(entries[..n + 1]) ==
            Body(entries[..n]) +
            if entries[n].statement.Some? then [Located(entries[n].line, entries[n].statement.value)] else []
  {
    assert entries[..n + 1][..n] == entries[..n];
  }

  lemma RedefinesIff(entries: seq<Entry>, n: nat, labels: Labels)
    requires n < |entries| && Resolved(entries[..n], labels)
    ensures Redefines(entries, n) <==> entries[n].name.Some? && entries[n].name.value in labels
  {
    assert forall j, l :: j < n && Defines(entries, j, l) ==> Defines(entries[..n], j, l);
    assert forall j, l :: Defines(entries[..n], j, l) ==> Defines(entries, j, l);
  }

  lemma RedefinesBounds(entries: seq<Entry>)
    ensures forall k :: Redefines(entries, k) ==> 0 <= k < |entries| && entries[k].name.Some?
  {
  }

  /** The error names the first label that is defined again. */
  ghost predicate Clash(entries: seq<Entry>, e: Error) {
    exists k :: Redefines(entries, k) && (forall j :: j < k ==> !Redefines(entries, j))
                && e == Error(entries[k].line, DuplicateLabel(entries[k].name.value))
  }

  /** The first loop of `assemble`. */
  method Collect(entries: seq<Entry>) returns (r: Result<(Labels, seq<Located>), Error>)
    ensures r.Ok? ==> Resolved(entries, r.value.0) && r.value.1 == Body(entries) && forall k :: !Redefines(entries, k)
    ensures r.Err? ==> Clash(entries, r.error)
  {
    hide Resolved, Redefines, Body;
    var labels: Labels, body, pc, n := map[], [], 0, 0;
    var clash := false;
    NothingResolved();
    RedefinesBounds(entries);
    assert entries[..n] == [];
    while n < |entries| && !clash
      invariant n <= |entries| && forall j :: j < n ==> !Redefines(entries, j)
      invariant Resolved(entries[..n], labels) && body == Body(entries[..n]) && pc == INSN * |body|
      invariant clash ==> n < |entries| && Redefines(entries, n)
      decreases |entries| - n, if clash then 0 else 1
    {
      var e := entries[n];
      RedefinesIff(entries, n, labels);
      if e.name.Some? && e.name.value in labels {
        clash := true;
      } else {
        ResolveMore(entries, n, labels);
        BodyMore(entries, n);
        if e.name.Some? {
          labels := labels[e.name.value := pc];
        }
        if e.statement.Some? {
          body, pc := body + [Located(e.line, e.statement.value)], pc + INSN;
        }
        n := n + 1;
      }
    }
    if clash {
      r := Err(Error(entries[n].line, DuplicateLabel(entries[n].name.value)));
    } else {
      assert entries[..n] == entries;
      r := Ok((labels, body));
    }
  }

  // ----------------------------------------------------------------- pass two

  function Register(a: Arg): (r: Result<nat, Trouble>)
    ensures r.Ok? ==> r.value < 16
  {
    if a.register.None? then Err(NotRegister)
    else if 0 <= a.register.value < 16 then Ok(a.register.value)
    else Err(RegisterRange(a.register.value))
  }

  /** A label first, a literal otherwise. */
  function Immediate(a: Arg, labels: Labels): Result<nat, Trouble> {
    if a.text in labels then Ok(labels[a.text])
    else if a.literal.None? then Err(BadImmediate)
    else Ok(a.literal.value % WORD)
  }

  /** Which operands an operation takes: 'd', 'a' and 'b' are registers, 'i' is the immediate. */
  function Operands(op: nat): string {
    if op == NOP then ""
    else if op == MOVI then "di"
    else if op == MOV then "da"
    else if ADD <= op <= XOR then "dab"
    else if op == CMPEQ then "ab"
    else if op == LOAD8 then "dai"
    else if op == STORE8 then "abi"
    else if op == OUT then "ia"
    else "i"
  }

  /** Operands are read from left to right into the fields of the instruction. */
  function Read(kinds: string, args: seq<Arg>, labels: Labels, i: Insn): (r: Result<Insn, Trouble>)
    requires |kinds| == |args| && i.op < 16 && i.rd < 16 && i.ra < 16 && i.rb < 16
    ensures r.Ok? ==> r.value.op == i.op && r.value.rd < 16 && r.value.ra < 16 && r.value.rb < 16
  {
    if kinds == "" then Ok(i)
    else if kinds[0] == 'i' then
      var v := Immediate(args[0], labels);
      if v.Err? then Err(v.error) else Read(kinds[1..], args[1..], labels, i.(value := v.value))
    else
      var n := Register(args[0]);
      if n.Err? then Err(n.error)
      else
        var i' := if kinds[0] == 'd' then i.(rd := n.value) else if kinds[0] == 'a' then i.(ra := n.value)
                  else i.(rb := n.value);
        Read(kinds[1..], args[1..], labels, i')
  }

  function Translate(s: Statement, labels: Labels): (r: Result<Insn, Trouble>)
    ensures r.Ok? ==>
              Some(r.value.op) == s.op && r.value.op < 16 && r.value.rd < 16 && r.value.ra < 16 && r.value.rb < 16
  {
    if s.op.None? || s.op.value > HALT then Err(UnknownInstruction)
    else if |s.args| != |Operands(s.op.value)| then Err(WrongOperands)
    else Read(Operands(s.op.value), s.args, labels, Insn(s.op.value, 0, 0, 0, 0))
  }

  ghost predicate Placed(body: seq<Located>, labels: Labels, image: seq<byte>, i: nat)
    requires |image| == INSN * |body|
  {
    i < |body| ==>
      && Translate(body[i].statement, labels).Ok?
      && image[INSN * i..INSN * i + INSN] == EncodeInsn(Translate(body[i].statement, labels).value)
  }

  /** The image holds the translation of every statement, in order. */
  ghost predicate Emitted(body: seq<Located>, labels: Labels, image: seq<byte>) {
    |image| == INSN * |body| && forall i: nat :: Placed(body, labels, image, i)
  }

  /** The error names the first statement that has no translation. */
  ghost predicate Untranslatable(body: seq<Located>, labels: Labels, e: Error) {
    exists k :: 0 <= k < |body| && Translate(body[k].statement, labels).Err?
                && e == Error(body[k].line, Translate(body[k].statement, labels).error)
                && forall j :: 0 <= j < k ==> Translate(body[j].statement, labels).Ok?
  }

  /** The second loop of `assemble`. */
  method Emit(body: seq<Located>, labels: Labels) returns (r: Result<seq<byte>, Error>)
    ensures r.Ok? ==> Emitted(body, labels, r.value)
    ensures r.Err? ==> Untranslatable(body, labels, r.error)
  {
    hide Translate, EncodeInsn;
    var image, n := [], 0;
    r := Ok([]);
    while n < |body| && r.Ok?
      invariant n <= |body|
      invariant r.Ok? ==> Emitted(body[..n], labels, image)
      invariant forall j :: 0 <= j < n ==> Translate(body[j].statement, labels).Ok?
      invariant r.Err? ==> n < |body| && Translate(body[n].statement, labels).Err?
                           && r.error == Error(body[n].line, Translate(body[n].statement, labels).error)
      decreases |body| - n, if r.Ok? then 1 else 0
    {
      var t := Translate(body[n].statement, labels);
      if t.Err? {
        r := Err(Error(body[n].line, t.error));
      } else {
        EmitMore(body, labels, image, n);
        image := image + EncodeInsn(t.value);
        n := n + 1;
      }
    }
    if r.Ok? {
      assert body[..n] == body;
      r := Ok(image);
    }
  }

  lemma EmitMore(body: seq<Located>, labels: Labels, image: seq<byte>, n: nat)
    requires n < |body| && Emitted(body[..n], labels, image) && Translate(body[n].statement, labels).Ok?
    ensures Emitted(body[..n + 1], labels, image + EncodeInsn(Translate(body[n].statement, labels).value))
  {
    hide Translate, EncodeInsn;
    var raw := EncodeInsn(Translate(body[n].statement, labels).value);
    var image', next := image + raw, body[..n + 1];
    forall i: nat
      ensures Placed(next, labels, image', i)
    {
      if i < n {
        assert Placed(body[..n], labels, image, i);
        assert image'[INSN * i..INSN * i + INSN] == image[INSN * i..INSN * i + INSN];
      } else if i == n {
        assert image'[INSN * i..INSN * i + INSN] == raw;
      }
    }
  }

  /** The image is what a label environment that resolves the program makes of its statements. */
  ghost predicate Assembled(entries: seq<Entry>, labels: Labels, image: seq<byte>) {
    Resolved(entries, labels) && Emitted(Body(entries), labels, image)
  }

  ghost predicate AllPutsGood(lines: seq<Line>) {
    forall k :: 0 <= k < |lines| ==> !Malformed(lines[k])
  }

  ghost predicate LabelsDistinct(entries: seq<Entry>) {
    forall k :: !Redefines(entries, k)
  }

  /** The error is the first one met: in a `puts`, then in the labels, then in the statements. */
  ghost predicate FirstError(lines: seq<Line>, e: Error) {
    || BadPuts(lines, e)
    || (AllPutsGood(lines) && Clash(Entries(lines), e))
    || (&& AllPutsGood(lines) && LabelsDistinct(Entries(lines))
        && exists labels :: Resolved(Entries(lines), labels) && Untranslatable(Body(Entries(lines)), labels, e))
  }

  /** `assemble`: an image of the program, or the first thing wrong with it. */
  method Assemble(lines: seq<Line>) returns (r: Result<seq<byte>, Error>)
    ensures r.Ok? ==> AllPutsGood(lines) && LabelsDistinct(Entries(lines))
                      && exists labels :: Assembled(Entries(lines), labels, r.value)
    ensures r.Err? ==> FirstError(lines, r.error)
  {
    hide Emitted, Resolved, BadPuts, Clash, Untranslatable, Entries, Body;
    var expanded := Expand(lines);
    if expanded.Err? {
      r := Err(expanded.error);
    } else {
      var collected := Collect(expanded.value);
      if collected.Err? {
        r := Err(collected.error);
      } else {
        var (labels, body) := collected.value;
        r := Emit(body, labels);
        assert r.Ok? ==> Assembled(Entries(lines), labels, r.value);
      }
    }
  }

  /** A program resolves in at most one way. */
  lemma ResolvedUnique(entries: seq<Entry>, labels: Labels, other: Labels)
    requires Resolved(entries, labels) && Resolved(entries, other)
    ensures labels == other
  {
    forall l
      ensures l in labels <==> l in other
      ensures l in labels ==> labels[l] == other[l]
    {
      if l in labels {
        var k :| Defines(entries, k, l);
      }
      if l in other {
        var k :| Defines(entries, k, l);
      }
    }
  }

  /** A program has at most one image, and none when something is wrong with it. */
  lemma ImageUnique(lines: seq<Line>, labels: Labels, image: seq<byte>)
    requires AllPutsGood(lines) && LabelsDistinct(Entries(lines)) && Assembled(Entries(lines), labels, image)
    ensures forall other, image' :: Assembled(Entries(lines), other, image') ==> image' == image
    ensures forall e :: !FirstError(lines, e)
  {
    hide Resolved, Entries, Body, Translate, EncodeInsn;
    var entries := Entries(lines);
    var body := Body(entries);
    forall other, image' | Assembled(entries, other, image')
      ensures image' == image
    {
      ResolvedUnique(entries, labels, other);
      forall i | 0 <= i < |image|
        ensures image'[i] == image[i]
      {
        var q := i / INSN;
        assert Placed(body, labels, image, q) && Placed(body, labels, image', q);
        assert image[INSN * q..INSN * q + INSN][i % INSN] == image'[INSN * q..INSN * q + INSN][i % INSN];
      }
    }
    forall k: nat | k < |body|
      ensures Translate(body[k].statement, labels).Ok?
    {
      assert Placed(body, labels, image, k);
    }
    forall e
      ensures !FirstError(lines, e)
    {
      if FirstError(lines, e) {
        var other :| Resolved(entries, other) && Untranslatable(body, other, e);
        ResolvedUnique(entries, labels, other);
      }
    }
  }
}
