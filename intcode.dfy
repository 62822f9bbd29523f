/** The Intcode interpreter of src/intcode.rs: program text is loaded into a
    fixed-length memory of integers and run from address 0. Each instruction
    writes at most one existing cell; memory never grows. Input comes from a
    sequence of integers and output is appended to a list. */
module Intcode {
  import opened Wrappers
  import opened Arith
  import opened Decimal

  // ---------------------------------------------------------------------
  // Loading program text

  /** Rust's `char::is_whitespace` (the Unicode White_Space property). */
  predicate IsWhitespace(c: char) {
    var n := c as int;
    (9 <= n <= 13) || n == 32 || n == 0x85 || n == 0xA0 || n == 0x1680
    || (0x2000 <= n <= 0x200A) || n == 0x2028 || n == 0x2029 || n == 0x202F
    || n == 0x205F || n == 0x3000
  }

  /** `str::trim_end`: drops trailing whitespace and nothing else. */
  function TrimEnd(s: string): (r: string)
    ensures r <= s
    ensures r == [] || !IsWhitespace(r[|r| - 1])
    ensures forall i :: |r| <= i < |s| ==> IsWhitespace(s[i])
  {
    if s != [] && IsWhitespace(s[|s| - 1]) then TrimEnd(s[..|s| - 1]) else s
  }

  /** `str::split` on one separator character: always at least one piece,
      and the empty string splits into one empty piece. */
  function Split(s: string, sep: char): (parts: seq<string>)
    ensures |parts| >= 1
    ensures forall i :: 0 <= i < |parts| ==> sep !in parts[i]
  {
    if s == [] then [[]]
    else
      var rest := Split(s[1..], sep);
      if s[0] == sep then [[]] + rest else [[s[0]] + rest[0]] + rest[1..]
  }

  function Join(parts: seq<string>, sep: char): string
    requires |parts| >= 1
  {
    if |parts| == 1 then parts[0] else parts[0] + [sep] + Join(parts[1..], sep)
  }

  lemma {:induction false} JoinSplit(s: string, sep: char)
    ensures Join(Split(s, sep), sep) == s
  {
    if s != [] {
      var rest := Split(s[1..], sep);
      JoinSplit(s[1..], sep);
      if s[0] != sep {
        if |rest| > 1 {
          assert Join([[s[0]] + rest[0]] + rest[1..], sep)
              == [s[0]] + rest[0] + [sep] + Join(rest[1..], sep);
        }
      }
    }
  }

  lemma {:induction false} SplitPrefix(t: string, r: string, sep: char)
    requires sep !in t
    ensures Split(t + r, sep) == [t + Split(r, sep)[0]] + Split(r, sep)[1..]
  {
    if t != [] {
      var sr := Split(r, sep);
      assert (t + r)[0] == t[0] && (t + r)[1..] == t[1..] + r;
      SplitPrefix(t[1..], r, sep);
      var rest := Split(t[1..] + r, sep);
      assert rest[0] == t[1..] + sr[0] && rest[1..] == sr[1..];
      assert [t[0]] + (t[1..] + sr[0]) == t + sr[0];
    } else {
      var sr := Split(r, sep);
      assert t + r == r && t + sr[0] == sr[0];
      assert [sr[0]] + sr[1..] == sr;
    }
  }

  lemma {:induction false} SplitJoin(parts: seq<string>, sep: char)
    requires |parts| >= 1
    requires forall i :: 0 <= i < |parts| ==> sep !in parts[i]
    ensures Split(Join(parts, sep), sep) == parts
  {
    if |parts| == 1 {
      SplitPrefix(parts[0], [], sep);
      assert parts[0] + [] == parts[0];
    } else {
      var tail := Join(parts[1..], sep);
      SplitJoin(parts[1..], sep);
      assert parts[0] + [sep] + tail == parts[0] + ([sep] + tail);
      SplitPrefix(parts[0], [sep] + tail, sep);
      assert ([sep] + tail)[1..] == tail;
      assert Split([sep] + tail, sep) == [[]] + parts[1..];
      assert parts[0] + [] == parts[0];
      assert [parts[0]] + parts[1..] == parts;
    }
  }

  /** `collect::<Result<Vec<_>, _>>()` over the parsed tokens: the first
      token that does not parse is the error. */
  function ParseTokens(tokens: seq<string>): (r: Result<seq<int>, string>)
    ensures r.Success? <==> forall i :: 0 <= i < |tokens| ==> ParseI64(tokens[i]).Some?
    ensures r.Success? ==>
              |r.value| == |tokens| &&
              forall i :: 0 <= i < |tokens| ==> ParseI64(tokens[i]) == Some(r.value[i])
    ensures r.Failure? ==>
              exists k :: 0 <= k < |tokens| && r.error == tokens[k] && ParseI64(tokens[k]).None? &&
                          forall j :: 0 <= j < k ==> ParseI64(tokens[j]).Some?
  {
    if tokens == [] then Success([])
    else match ParseI64(tokens[0])
      case None => Failure(tokens[0])
      case Some(v) =>
        var rest := ParseTokens(tokens[1..]);
        if rest.Failure? then Failure(rest.error) else Success([v] + rest.value)
  }

  /** `parse`: trim trailing whitespace, split on commas, parse each token. */
  function Parse(text: string): Result<seq<int>, string> {
    ParseTokens(Split(TrimEnd(text), ','))
  }

  /** Program text as the puzzles write it: the cells in decimal, comma-separated. */
  function Format(cells: seq<int>): string
    requires |cells| >= 1
  {
    Join(seq(|cells|, i requires 0 <= i < |cells| => ShowInt(cells[i])), ',')
  }

  lemma {:induction false} JoinEndsWithLast(parts: seq<string>, sep: char)
    requires |parts| >= 1 && |parts[|parts| - 1]| > 0
    ensures var j := Join(parts, sep); |j| > 0 && j[|j| - 1] == parts[|parts| - 1][|parts[|parts| - 1]| - 1]
  {
    if |parts| > 1 {
      JoinEndsWithLast(parts[1..], sep);
    }
  }

  /** Formatting a program and parsing it back, with or without the trailing
      newline of an input file, gives the same memory image. */
  lemma ParseFormat(cells: seq<int>)
    requires |cells| >= 1
    requires forall i :: 0 <= i < |cells| ==> InI64(cells[i])
    ensures Parse(Format(cells)) == Success(cells)
    ensures Parse(Format(cells) + "\n") == Success(cells)
  {
    var tokens := seq(|cells|, i requires 0 <= i < |cells| => ShowInt(cells[i]));
    var text := Format(cells);
    forall i | 0 <= i < |tokens| ensures ',' !in tokens[i] {
      NoCommaInShowInt(cells[i]);
    }
    JoinEndsWithLast(tokens, ',');
    assert TrimEnd(text) == text;
    assert TrimEnd(text + "\n") == text by {
      assert (text + "\n")[..|text|] == text;
    }
    SplitJoin(tokens, ',');
    ParseShownTokens(cells, tokens);
  }

  lemma NoCommaInShowInt(x: int)
    ensures ',' !in ShowInt(x)
  {
    var s := ShowInt(x);
    if x < 0 {
      assert s == "-" + ShowNat(-x);
      assert forall i :: 1 <= i < |s| ==> IsDigit(s[i]);
    }
  }

  lemma {:induction false} ParseShownTokens(cells: seq<int>, tokens: seq<string>)
    requires |tokens| == |cells|
    requires forall i :: 0 <= i < |cells| ==> InI64(cells[i]) && tokens[i] == ShowInt(cells[i])
    ensures ParseTokens(tokens) == Success(cells)
  {
    if tokens != [] {
      ParseShowInt(cells[0]);
      ParseShownTokens(cells[1..], tokens[1..]);
      assert [cells[0]] + cells[1..] == cells;
    }
  }

  // ---------------------------------------------------------------------
  // Machine state and one instruction

  datatype Fault =
    | IndexOutOfBounds        // a Vec index panic, including a negative value cast to usize
    | InvalidOpcode(instruction: int)
    | NoInput                 // the input ran out when an input instruction needed a value

  /** Memory, instruction pointer, the input still to be read and the output so far. */
  datatype Machine = Machine(mem: seq<int>, ip: int, input: seq<int>, output: seq<int>)

  datatype StepResult = Continue(next: Machine) | Halt(value: int) | Crash(fault: Fault)

  /** The operation a handler is parametrised by (`i64::add`, `i64::mul`,
      `i64::ne`, `i64::eq`, `i64::lt`). */
  datatype Operator = Add | Mul
  datatype Relation = NotEqual | Equal | Less

  function Apply(op: Operator, a: int, b: int): int {
    match op
    case Add => a + b
    case Mul => a * b
  }

  predicate Holds(rel: Relation, a: int, b: int) {
    match rel
    case NotEqual => a != b
    case Equal => a == b
    case Less => a < b
  }

  /** The opcode of an instruction: Rust's `instruction % 100`. */
  function Opcode(instruction: int): int {
    TRem(instruction, 100)
  }

  /** The mode digit of parameter k: `instruction / 10^(k+1) % 10`, truncating. */
  function Mode(instruction: int, k: nat): int {
    TRem(TDiv(instruction, Pow10(k + 1)), 10)
  }

  /** `arg`: parameter k of the instruction at ip, immediate when its mode
      digit is 1 and positional for every other digit. */
  function Arg(mem: seq<int>, ip: nat, k: nat): Result<int, Fault> {
    if ip >= |mem| || ip + k >= |mem| then Failure(IndexOutOfBounds)
    else
      var val := mem[ip + k];
      if Mode(mem[ip], k) == 1 then Success(val)
      else if 0 <= val < |mem| then Success(mem[val])
      else Failure(IndexOutOfBounds)
  }

  /** `operator_step`: add or multiply, store at the raw address in the third
      parameter, advance by 4. */
  function OperatorStep(m: Machine, op: Operator): StepResult
    requires 0 <= m.ip < |m.mem|
  {
    if m.ip + 3 >= |m.mem| then Crash(IndexOutOfBounds)
    else
      var dest := m.mem[m.ip + 3];
      var a := Arg(m.mem, m.ip, 1);
      if a.Failure? then Crash(a.error)
      else
        var b := Arg(m.mem, m.ip, 2);
        if b.Failure? then Crash(b.error)
        else if 0 <= dest < |m.mem| then
          Continue(m.(mem := m.mem[dest := Apply(op, a.value, b.value)], ip := m.ip + 4))
        else Crash(IndexOutOfBounds)
  }

  /** `store_step`: compare, store exactly 1 or 0 at the raw address in the
      third parameter, advance by 4. */
  function StoreStep(m: Machine, rel: Relation): StepResult
    requires 0 <= m.ip < |m.mem|
  {
    if m.ip + 3 >= |m.mem| then Crash(IndexOutOfBounds)
    else
      var dest := m.mem[m.ip + 3];
      var a := Arg(m.mem, m.ip, 1);
      if a.Failure? then Crash(a.error)
      else
        var b := Arg(m.mem, m.ip, 2);
        if b.Failure? then Crash(b.error)
        else if 0 <= dest < |m.mem| then
          Continue(m.(mem := m.mem[dest := if Holds(rel, a.value, b.value) then 1 else 0], ip := m.ip + 4))
        else Crash(IndexOutOfBounds)
  }

  /** `jump_step`: when the relation holds between the first parameter and 0,
      go to the second parameter (read only then); otherwise advance by 3. */
  function JumpStep(m: Machine, rel: Relation): StepResult
    requires 0 <= m.ip < |m.mem|
  {
    var a := Arg(m.mem, m.ip, 1);
    if a.Failure? then Crash(a.error)
    else if Holds(rel, a.value, 0) then
      var b := Arg(m.mem, m.ip, 2);
      if b.Failure? then Crash(b.error) else Continue(m.(ip := b.value))
    else Continue(m.(ip := m.ip + 3))
  }

  /** `input_step`: read the destination, then the next input value, then
      store it at the raw destination address; advance by 2. */
  function InputStep(m: Machine): StepResult
    requires 0 <= m.ip < |m.mem|
  {
    if m.ip + 1 >= |m.mem| then Crash(IndexOutOfBounds)
    else
      var dest := m.mem[m.ip + 1];
      if m.input == [] then Crash(NoInput)
      else if 0 <= dest < |m.mem| then
        Continue(m.(mem := m.mem[dest := m.input[0]], ip := m.ip + 2, input := m.input[1..]))
      else Crash(IndexOutOfBounds)
  }

  /** `output_step`: emit the first parameter and advance by 2. */
  function OutputStep(m: Machine): StepResult
    requires 0 <= m.ip < |m.mem|
  {
    var a := Arg(m.mem, m.ip, 1);
    if a.Failure? then Crash(a.error) else Continue(m.(ip := m.ip + 2, output := m.output + [a.value]))
  }

  /** `step`: fetch the instruction at ip and dispatch on `instruction % 100`. */
  function Step(m: Machine): StepResult {
    if !(0 <= m.ip < |m.mem|) then Crash(IndexOutOfBounds)
    else
      var op := Opcode(m.mem[m.ip]);
      if op == 1 then OperatorStep(m, Add)
      else if op == 2 then OperatorStep(m, Mul)
      else if op == 3 then InputStep(m)
      else if op == 4 then OutputStep(m)
      else if op == 5 then JumpStep(m, NotEqual)
      else if op == 6 then JumpStep(m, Equal)
      else if op == 7 then StoreStep(m, Less)
      else if op == 8 then StoreStep(m, Equal)
      else if op == 99 then Halt(m.mem[0])
      else Crash(InvalidOpcode(m.mem[m.ip]))
  }

  // ---------------------------------------------------------------------
  // Running

  /** Running is a sequence of steps; the source recurses without bound, so
      the model counts steps and reports `Running` when the fuel is spent. */
  datatype Status = Halted(value: int) | Crashed(fault: Fault) | Running
  datatype Outcome = Outcome(status: Status, final: Machine)

  function Run(m: Machine, fuel: nat): Outcome
    decreases fuel
  {
    if fuel == 0 then Outcome(Running, m)
    else match Step(m)
      case Continue(n) => Run(n, fuel - 1)
      case Halt(v) => Outcome(Halted(v), m)
      case Crash(f) => Outcome(Crashed(f), m)
  }

  /** `computer`'s preparation: a copy of the program with the overrides
      applied in list order; an address past the end panics. */
  function Load(program: seq<int>, overrides: seq<(nat, int)>): Result<seq<int>, Fault>
    decreases |overrides|
  {
    if overrides == [] then Success(program)
    else
      var before := Load(program, overrides[..|overrides| - 1]);
      var (a, v) := overrides[|overrides| - 1];
      if before.Failure? then before
      else if a < |before.value| then Success(before.value[a := v])
      else Failure(IndexOutOfBounds)
  }

  datatype Report = Report(status: Status, output: seq<int>)

  /** `computer`: load, then run from address 0 with an empty output. */
  function RunProgram(program: seq<int>, overrides: seq<(nat, int)>, input: seq<int>, fuel: nat): Report {
    var loaded := Load(program, overrides);
    if loaded.Failure? then Report(Crashed(loaded.error), [])
    else
      var o := Run(Machine(loaded.value, 0, input, []), fuel);
      Report(o.status, o.final.output)
  }

  // ---------------------------------------------------------------------
  // Properties of decoding

  /** Digit p of the decimal text of n, counted from the right from 0; 0
      beyond the text. */
  function DecimalDigit(n: nat, p: nat): nat {
    var s := ShowNat(n);
    if p < |s| then DigitValue(s[|s| - 1 - p]) else 0
  }

  lemma DivUnique(a: int, d: int, q: int, r: int)
    requires d > 0 && 0 <= r < d && a == d * q + r
    ensures a / d == q
  {
    var q', r' := a / d, a % d;
    assert d * (q - q') == r' - r;
    if q - q' >= 1 {
      MulAtLeast(d, q - q');
    } else if q' - q >= 1 {
      MulAtLeast(d, q' - q);
    }
  }

  lemma MulAtLeast(d: int, k: int)
    requires d > 0 && k >= 1
    ensures d * k >= d
  {
  }

  lemma MulAssociates(b: int, c: int, q: int)
    ensures b * (c * q) == (b * c) * q
  {
  }

  lemma MulMonotone(b: nat, x: int, y: int)
    requires x <= y
    ensures b * x <= b * y
  {
    MulDistributes(b, x, y - x);
  }

  lemma DivDiv(a: nat, b: nat, c: nat)
    requires b > 0 && c > 0
    ensures a / (b * c) == (a / b) / c
  {
    var q1, r1 := a / b, a % b;
    var q, r2 := q1 / c, q1 % c;
    assert a == b * q1 + r1;
    assert q1 == c * q + r2;
    MulDistributes(b, c * q, r2);
    MulAssociates(b, c, q);
    assert a == (b * c) * q + (b * r2 + r1);
    MulMonotone(b, r2, c - 1);
    MulDistributes(b, c, -1);
    assert b * r2 + r1 < b * c;
    DivUnique(a, b * c, q, b * r2 + r1);
  }

  /** The mode digit arithmetic of `arg` reads the decimal text: for a
      non-negative instruction, `instruction / 10^p % 10` is its p-th digit
      from the right. */
  lemma {:induction false} ModeIsDecimalDigit(n: nat, p: nat)
    ensures TRem(TDiv(n, Pow10(p)), 10) == DecimalDigit(n, p)
  {
    var s := ShowNat(n);
    if p == 0 {
      if n >= 10 {
        assert s[|s| - 1] == DigitChar(n % 10);
      }
    } else {
      DivDiv(n, 10, Pow10(p - 1));
      ModeIsDecimalDigit(n / 10, p - 1);
      if n >= 10 {
        assert s[..|s| - 1] == ShowNat(n / 10);
      }
    }
  }

  /** `arg` decoded against the decimal text of the instruction: parameter k
      is immediate iff digit k+1 is 1, and positional for every other digit. */
  lemma ArgDecode(mem: seq<int>, ip: nat, k: nat)
    requires ip + k < |mem| && mem[ip] >= 0
    ensures Arg(mem, ip, k) ==
      if DecimalDigit(mem[ip], k + 1) == 1 then Success(mem[ip + k])
      else if 0 <= mem[ip + k] < |mem| then Success(mem[mem[ip + k]])
      else Failure(IndexOutOfBounds)
  {
    ModeIsDecimalDigit(mem[ip], k + 1);
  }

  // ---------------------------------------------------------------------
  // Properties of one step

  /** Every code other than 1-8 and 99, including the negative remainders of
      negative instructions, is an invalid opcode; 99 halts with cell 0. */
  lemma StepDispatch(m: Machine)
    requires 0 <= m.ip < |m.mem|
    ensures Step(m).Halt? <==> Opcode(m.mem[m.ip]) == 99
    ensures Step(m).Halt? ==> Step(m).value == m.mem[0]
    ensures Step(m) == Crash(InvalidOpcode(m.mem[m.ip])) <==>
              !(1 <= Opcode(m.mem[m.ip]) <= 8 || Opcode(m.mem[m.ip]) == 99)
    ensures m.mem[m.ip] < 0 ==> Step(m) == Crash(InvalidOpcode(m.mem[m.ip]))
  {
  }

  /** t has the length of s and agrees with it everywhere except at a. */
  ghost predicate SameExcept(s: seq<int>, t: seq<int>, a: int) {
    |t| == |s| && forall j :: 0 <= j < |s| && j != a ==> t[j] == s[j]
  }

  /** An instruction changes neither the length of memory nor any cell but
      at most one. */
  lemma StepWritesAtMostOneCell(m: Machine)
    requires Step(m).Continue?
    ensures |Step(m).next.mem| == |m.mem|
    ensures exists a :: 0 <= a < |m.mem| && SameExcept(m.mem, Step(m).next.mem, a)
  {
    var n := Step(m).next;
    var op := Opcode(m.mem[m.ip]);
    if op == 1 || op == 2 {
      assert Step(m) == OperatorStep(m, if op == 1 then Add else Mul);
      assert SameExcept(m.mem, n.mem, m.mem[m.ip + 3]);
    } else if op == 7 || op == 8 {
      assert Step(m) == StoreStep(m, if op == 7 then Less else Equal);
      assert SameExcept(m.mem, n.mem, m.mem[m.ip + 3]);
    } else if op == 3 {
      assert Step(m) == InputStep(m);
      assert SameExcept(m.mem, n.mem, m.mem[m.ip + 1]);
    } else if op == 4 {
      assert Step(m) == OutputStep(m);
      assert SameExcept(m.mem, n.mem, m.ip);
    } else {
      assert Step(m) == JumpStep(m, if op == 5 then NotEqual else Equal);
      assert SameExcept(m.mem, n.mem, m.ip);
    }
  }

  /** The pointer moves by 4 for 1, 2, 7, 8 and by 2 for 3, 4; 5 jumps iff
      its first parameter is non-zero and 6 iff it is zero, otherwise +3. */
  lemma StepAdvance(m: Machine)
    requires 0 <= m.ip < |m.mem| && Step(m).Continue?
    ensures var op := Opcode(m.mem[m.ip]);
            var n := Step(m).next;
            && (op in {1, 2, 7, 8} ==> n.ip == m.ip + 4)
            && (op in {3, 4} ==> n.ip == m.ip + 2)
            && (op in {5, 6} ==>
                  var a := Arg(m.mem, m.ip, 1).value;
                  if (op == 5 && a != 0) || (op == 6 && a == 0)
                  then n.ip == Arg(m.mem, m.ip, 2).value
                  else n.ip == m.ip + 3)
  {
  }

  /** Codes 7 and 8 store exactly 1 or 0 at the raw address in the third
      parameter: 1 iff the first parameter is less than (7) or equal to (8)
      the second. */
  lemma StepStoresFlag(m: Machine)
    requires 0 <= m.ip < |m.mem| && Step(m).Continue?
    requires Opcode(m.mem[m.ip]) in {7, 8}
    ensures var a := Arg(m.mem, m.ip, 1).value;
            var b := Arg(m.mem, m.ip, 2).value;
            var dest := m.mem[m.ip + 3];
            var flag := if Opcode(m.mem[m.ip]) == 7 then a < b else a == b;
            0 <= dest < |m.mem| && Step(m).next.mem == m.mem[dest := if flag then 1 else 0]
  {
  }

  /** Code 3 consumes exactly one input value and stores it at the raw
      address in its parameter; code 4 appends exactly one output value; no
      other code touches input or output. */
  lemma StepInputOutput(m: Machine)
    requires 0 <= m.ip < |m.mem| && Step(m).Continue?
    ensures var op := Opcode(m.mem[m.ip]);
            var n := Step(m).next;
            && (op == 3 ==>
                  m.input != [] && n.input == m.input[1..] &&
                  n.mem == m.mem[m.mem[m.ip + 1] := m.input[0]])
            && (op == 4 ==> n.output == m.output + [Arg(m.mem, m.ip, 1).value] && n.mem == m.mem)
            && (op != 3 ==> n.input == m.input)
            && (op != 4 ==> n.output == m.output)
  {
  }

  // ---------------------------------------------------------------------
  // Properties of running

  /** Once a run has stopped, more fuel changes nothing. */
  lemma {:induction false} RunMoreFuel(m: Machine, fuel: nat, extra: nat)
    requires Run(m, fuel).status != Running
    ensures Run(m, fuel + extra) == Run(m, fuel)
    decreases fuel
  {
    if Step(m).Continue? {
      RunMoreFuel(Step(m).next, fuel - 1, extra);
    }
  }

  /** One instruction keeps the memory length, appends at most to the
      output and consumes at most the first input value. */
  lemma StepStreams(m: Machine)
    requires Step(m).Continue?
    ensures var n := Step(m).next;
            && |n.mem| == |m.mem|
            && m.output <= n.output
            && (n.input == m.input || (m.input != [] && n.input == m.input[1..]))
  {
    StepWritesAtMostOneCell(m);
    StepInputOutput(m);
  }

  /** A run keeps the memory length, only appends to the output, only
      consumes input from the front, and halts with the final cell 0. */
  lemma {:induction false} RunStreams(m: Machine, fuel: nat)
    ensures var f := Run(m, fuel).final;
            && |f.mem| == |m.mem|
            && m.output <= f.output
            && (exists k :: 0 <= k <= |m.input| && f.input == m.input[k..])
            && (Run(m, fuel).status.Halted? ==> Run(m, fuel).status.value == f.mem[0])
    decreases fuel
  {
    if fuel > 0 && Step(m).Continue? {
      var n := Step(m).next;
      StepStreams(m);
      RunStreams(n, fuel - 1);
      var f := Run(n, fuel - 1).final;
      var k :| 0 <= k <= |n.input| && f.input == n.input[k..];
      if n.input == m.input {
        assert f.input == m.input[k..];
      } else {
        assert f.input == m.input[k + 1..];
      }
    } else {
      assert m.input == m.input[0..];
      if fuel > 0 && Step(m).Halt? {
        StepDispatch(m);
      }
    }
  }

  /** The value of address a after the overrides: the last override of a,
      or the program's own cell. */
  function LastOverride(overrides: seq<(nat, int)>, a: nat, cell: int): int {
    if overrides == [] then cell
    else if overrides[|overrides| - 1].0 == a then overrides[|overrides| - 1].1
    else LastOverride(overrides[..|overrides| - 1], a, cell)
  }

  /** Loading succeeds iff every override address is in range; the copy has
      the program's length, and a later override of an address wins. */
  lemma {:induction false} LoadOverrides(program: seq<int>, overrides: seq<(nat, int)>)
    ensures Load(program, overrides).Success? <==>
              forall k :: 0 <= k < |overrides| ==> overrides[k].0 < |program|
    ensures Load(program, overrides).Success? ==>
              var mem := Load(program, overrides).value;
              |mem| == |program| &&
              forall a :: 0 <= a < |program| ==> mem[a] == LastOverride(overrides, a, program[a])
    decreases |overrides|
  {
    if overrides != [] {
      var init := overrides[..|overrides| - 1];
      LoadOverrides(program, init);
      assert forall k :: 0 <= k < |init| ==> init[k] == overrides[k];
    }
  }

  // ---------------------------------------------------------------------
  // Worked programs

  /** An instruction below 100 is its own opcode, with every parameter
      positional. */
  lemma PlainInstruction(i: int)
    requires 0 <= i < 100
    ensures Opcode(i) == i && Mode(i, 1) == 0 && Mode(i, 2) == 0
  {
    assert Pow10(2) == 100 && Pow10(3) == 1000;
    assert TDiv(i, 100) == 0 && TDiv(i, 1000) == 0;
  }

  /** Opcode 1 or 2 whose parameters decode: the sum or product goes to the
      raw address in the third parameter. */
  lemma OperatorStepDecoded(m: Machine, op: Operator)
    requires 0 <= m.ip && m.ip + 3 < |m.mem|
    requires Opcode(m.mem[m.ip]) == if op == Add then 1 else 2
    requires Arg(m.mem, m.ip, 1).Success? && Arg(m.mem, m.ip, 2).Success?
    requires 0 <= m.mem[m.ip + 3] < |m.mem|
    ensures Step(m) == Continue(m.(mem := m.mem[m.mem[m.ip + 3] := Apply(op, Arg(m.mem, m.ip, 1).value, Arg(m.mem, m.ip, 2).value)],
                                   ip := m.ip + 4))
  {
  }

  /** Opcode 1 or 2 with positional parameters in range: the sum or product
      of the two addressed cells goes to the third address. */
  lemma PositionalOperator(m: Machine, op: Operator)
    requires 0 <= m.ip && m.ip + 3 < |m.mem|
    requires m.mem[m.ip] == if op == Add then 1 else 2
    requires 0 <= m.mem[m.ip + 1] < |m.mem| && 0 <= m.mem[m.ip + 2] < |m.mem| && 0 <= m.mem[m.ip + 3] < |m.mem|
    ensures Step(m) == Continue(m.(mem := m.mem[m.mem[m.ip + 3] := Apply(op, m.mem[m.mem[m.ip + 1]], m.mem[m.mem[m.ip + 2]])],
                                   ip := m.ip + 4))
  {
    PlainInstruction(m.mem[m.ip]);
  }

  /** The reference program multiplies and adds cells 9..11 into cell 0. */
  lemma ReferenceProgram()
    ensures RunProgram([1, 9, 10, 3, 2, 3, 11, 0, 99, 30, 40, 50], [], [], 3) == Report(Halted(3500), [])
  {
    var m0 := Machine([1, 9, 10, 3, 2, 3, 11, 0, 99, 30, 40, 50], 0, [], []);
    var m1 := Machine(m0.mem[3 := 30 + 40], 4, [], []);
    var m2 := Machine(m1.mem[0 := 70 * 50], 8, [], []);
    assert Load(m0.mem, []) == Success(m0.mem);
    PositionalOperator(m0, Add);
    PositionalOperator(m1, Mul);
    HaltStep(m2);
    assert Run(m2, 1) == Outcome(Halted(3500), m2);
    assert Run(m0, 3) == Run(m2, 1);
  }

  /** `3,0,4,0,99` echoes its one input value. */
  lemma EchoProgram(x: int)
    ensures RunProgram([3, 0, 4, 0, 99], [], [x], 3) == Report(Halted(x), [x])
  {
    var m0 := Machine([3, 0, 4, 0, 99], 0, [x], []);
    var m1 := Machine([x, 0, 4, 0, 99], 2, [], []);
    var m2 := Machine([x, 0, 4, 0, 99], 4, [], [x]);
    assert Step(m0) == Continue(m1);
    assert Step(m1) == Continue(m2);
    assert Step(m2) == Halt(x);
  }

  /** With both parameters immediate, `1101,a,b,0,99` stores a+b in cell 0. */
  lemma ImmediateAdd(a: int, b: int)
    ensures RunProgram([1101, a, b, 0, 99], [], [], 2) == Report(Halted(a + b), [])
  {
    var m0 := Machine([1101, a, b, 0, 99], 0, [], []);
    var m1 := Machine(m0.mem[0 := a + b], 4, [], []);
    ImmediateAddStep(a, b);
    HaltStep(m1);
    assert Load(m0.mem, []) == Success(m0.mem);
    assert Run(m1, 1) == Outcome(Halted(a + b), m1);
  }

  lemma ImmediateAddStep(a: int, b: int)
    ensures var m0 := Machine([1101, a, b, 0, 99], 0, [], []);
            Step(m0) == Continue(Machine(m0.mem[0 := a + b], 4, [], []))
  {
    var m0 := Machine([1101, a, b, 0, 99], 0, [], []);
    ImmediateModes();
    assert Arg(m0.mem, 0, 1) == Success(a) && Arg(m0.mem, 0, 2) == Success(b);
    OperatorStepDecoded(m0, Add);
  }

  lemma ImmediateModes()
    ensures Opcode(1101) == 1 && Mode(1101, 1) == 1 && Mode(1101, 2) == 1
  {
    assert Pow10(2) == 100 && Pow10(3) == 1000;
    assert TDiv(1101, 100) == 11 && TDiv(1101, 1000) == 1;
  }

  /** Opcode 99 halts with cell 0. */
  lemma HaltStep(m: Machine)
    requires 0 <= m.ip < |m.mem| && m.mem[m.ip] == 99
    ensures Step(m) == Halt(m.mem[0])
  {
    PlainInstruction(99);
  }

  /** In `1002,4,3,4,33` the first parameter is positional and the second
      immediate: cell 4 becomes 33 * 3 = 99, which then halts. */
  lemma MixedModes()
    ensures RunProgram([1002, 4, 3, 4, 33], [], [], 2) == Report(Halted(1002), [])
  {
    var m0 := Machine([1002, 4, 3, 4, 33], 0, [], []);
    var m1 := Machine([1002, 4, 3, 4, 99], 4, [], []);
    assert Pow10(2) == 100 && Pow10(3) == 1000;
    assert Mode(1002, 1) == 0 && Mode(1002, 2) == 1;
    assert Step(m0) == Continue(m1);
    assert Step(m1) == Halt(1002);
  }

  // ---------------------------------------------------------------------
  // The interpreter over a mutable memory

  /** What one executed instruction tells the loop. */
  datatype Signal = Proceed(ip: int, input: seq<int>, output: seq<int>) | Stopped(value: int) | Faulted(fault: Fault)

  /** One instruction executed in place: reads decoded from the memory, the
      one write done on the array. */
  method ExecuteStep(mem: array<int>, ip: int, input: seq<int>, output: seq<int>) returns (s: Signal)
    modifies mem
    ensures match Step(Machine(old(mem[..]), ip, input, output))
            case Continue(n) => s == Proceed(n.ip, n.input, n.output) && mem[..] == n.mem
            case Halt(v) => s == Stopped(v) && mem[..] == old(mem[..])
            case Crash(f) => s == Faulted(f) && mem[..] == old(mem[..])
  {
    if !(0 <= ip < mem.Length) {
      return Faulted(IndexOutOfBounds);
    }
    var op := Opcode(mem[ip]);
    if op == 1 || op == 2 || op == 7 || op == 8 {
      if ip + 3 >= mem.Length {
        return Faulted(IndexOutOfBounds);
      }
      var dest := mem[ip + 3];
      var a := Arg(mem[..], ip, 1);
      if a.Failure? {
        return Faulted(a.error);
      }
      var b := Arg(mem[..], ip, 2);
      if b.Failure? {
        return Faulted(b.error);
      }
      if !(0 <= dest < mem.Length) {
        return Faulted(IndexOutOfBounds);
      }
      mem[dest] :=
        if op == 1 then Apply(Add, a.value, b.value)
        else if op == 2 then Apply(Mul, a.value, b.value)
        else if (op == 7 && Holds(Less, a.value, b.value)) || (op == 8 && Holds(Equal, a.value, b.value)) then 1
        else 0;
      s := Proceed(ip + 4, input, output);
    } else if op == 3 {
      if ip + 1 >= mem.Length {
        return Faulted(IndexOutOfBounds);
      }
      var dest := mem[ip + 1];
      if input == [] {
        return Faulted(NoInput);
      }
      if !(0 <= dest < mem.Length) {
        return Faulted(IndexOutOfBounds);
      }
      mem[dest] := input[0];
      s := Proceed(ip + 2, input[1..], output);
    } else if op == 4 {
      var a := Arg(mem[..], ip, 1);
      if a.Failure? {
        return Faulted(a.error);
      }
      s := Proceed(ip + 2, input, output + [a.value]);
    } else if op == 5 || op == 6 {
      var a := Arg(mem[..], ip, 1);
      if a.Failure? {
        return Faulted(a.error);
      }
      if Holds(if op == 5 then NotEqual else Equal, a.value, 0) {
        var b := Arg(mem[..], ip, 2);
        if b.Failure? {
          return Faulted(b.error);
        }
        s := Proceed(b.value, input, output);
      } else {
        s := Proceed(ip + 3, input, output);
      }
    } else if op == 99 {
      s := Stopped(mem[0]);
    } else {
      s := Faulted(InvalidOpcode(mem[ip]));
    }
  }

  /** `step`'s tail recursion as a loop over the instruction pointer, for at
      most `fuel` instructions, on memory updated in place. */
  method Execute(mem: array<int>, input: seq<int>, fuel: nat) returns (status: Status, output: seq<int>)
    modifies mem
    ensures var o := Run(Machine(old(mem[..]), 0, input, []), fuel);
            status == o.status && output == o.final.output && mem[..] == o.final.mem
  {
    var ip, inp, f := 0, input, fuel;
    output := [];
    while f > 0
      invariant Run(Machine(mem[..], ip, inp, output), f) == Run(Machine(old(mem[..]), 0, input, []), fuel)
      decreases f
    {
      ghost var before := Machine(mem[..], ip, inp, output);
      var s := ExecuteStep(mem, ip, inp, output);
      match s
      case Stopped(v) =>
        return Halted(v), output;
      case Faulted(fault) =>
        return Crashed(fault), output;
      case Proceed(nip, ninp, nout) =>
        assert Step(before) == Continue(Machine(mem[..], nip, ninp, nout));
        ip, inp, output := nip, ninp, nout;
        f := f - 1;
    }
    status := Running;
  }

  /** `computer`: the caller's program is cloned (it is only read here), the
      overrides are written into the clone in order, and the clone runs from
      address 0. */
  method Computer(program: array<int>, overrides: seq<(nat, int)>, input: seq<int>, fuel: nat)
    returns (status: Status, output: seq<int>)
    ensures Report(status, output) == RunProgram(program[..], overrides, input, fuel)
  {
    var mem := new int[program.Length](i reads program requires 0 <= i < program.Length => program[i]);
    assert mem[..] == program[..];
    var k := 0;
    while k < |overrides|
      invariant 0 <= k <= |overrides|
      invariant Load(program[..], overrides[..k]) == Success(mem[..])
    {
      assert overrides[..k + 1][..k] == overrides[..k];
      var (a, v) := overrides[k];
      if a >= mem.Length {
        assert Load(program[..], overrides[..k + 1]) == Failure(IndexOutOfBounds);
        LoadFailureSticks(program[..], overrides, k + 1);
        return Crashed(IndexOutOfBounds), [];
      }
      mem[a] := v;
      k := k + 1;
    }
    assert overrides[..k] == overrides;
    status, output := Execute(mem, input, fuel);
  }

  /** Once an override is out of range, loading the rest fails the same way. */
  lemma {:induction false} LoadFailureSticks(program: seq<int>, overrides: seq<(nat, int)>, k: nat)
    requires k <= |overrides| && Load(program, overrides[..k]).Failure?
    ensures Load(program, overrides) == Load(program, overrides[..k])
    decreases |overrides| - k
  {
    if k < |overrides| {
      assert overrides[..k + 1][..k] == overrides[..k];
      LoadFailureSticks(program, overrides, k + 1);
    } else {
      assert overrides[..k] == overrides;
    }
  }
}
