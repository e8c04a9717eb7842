/** I heard you like registers (2017 day 8): instructions of the form
    `b inc 5 if a > 1` change one register each, under a condition on another;
    registers start at 0.  The interpreter also tracks the largest value it
    ever stored. */
module Registers {
  import opened Wrappers
  import opened Text

  // ---------------------------------------------------------------------------
  // register_value

  /** `register_value(register)` for the register contents `regs`: a register
      never written reads as 0. */
  function Value(regs: map<string, int>, register: string): int {
    if register in regs then regs[register] else 0
  }

  // ---------------------------------------------------------------------------
  // Condition

  /** The comparison operators of `Condition.lookup`. */
  datatype Op = Lt | Le | Eq | Ge | Gt | Ne

  function OpName(op: Op): string {
    match op
    case Lt => "<"
    case Le => "<="
    case Eq => "=="
    case Ge => ">="
    case Gt => ">"
    case Ne => "!="
  }

  /** `Condition.lookup[operator]`; any other text raises KeyError (None). */
  function Lookup(operator: string): Option<Op> {
    if operator == "<" then Some(Lt)
    else if operator == "<=" then Some(Le)
    else if operator == "==" then Some(Eq)
    else if operator == ">=" then Some(Ge)
    else if operator == ">" then Some(Gt)
    else if operator == "!=" then Some(Ne)
    else None
  }

  /** The lookup table is exactly the six operator names. */
  lemma LookupNames(operator: string, op: Op)
    ensures Lookup(operator) == Some(op) <==> operator == OpName(op)
  {
  }

  function Compare(op: Op, a: int, b: int): bool {
    match op
    case Lt => a < b
    case Le => a <= b
    case Eq => a == b
    case Ge => a >= b
    case Gt => a > b
    case Ne => a != b
  }

  function Negate(op: Op): Op {
    match op
    case Lt => Ge
    case Le => Gt
    case Eq => Ne
    case Ge => Lt
    case Gt => Le
    case Ne => Eq
  }

  /** The six operators come in complementary pairs. */
  lemma NegateCompare(op: Op, a: int, b: int)
    ensures Compare(Negate(op), a, b) == !Compare(op, a, b)
    ensures Negate(Negate(op)) == op
  {
  }

  /** `Condition(clause, register, operator, value)`; `clause` is the word `if`. */
  datatype Condition = Condition(clause: string, register: string, operator: string, value: int)

  /** `Condition.satisfy`: compare the register's current value with the
      constant; an unknown operator raises KeyError. */
  function Satisfy(regs: map<string, int>, c: Condition): (r: Result<bool>)
    ensures r.Err? <==> Lookup(c.operator).None?
    ensures r.Err? ==> r.error == KeyError
    ensures r.Ok? ==> (r.value <==> Compare(Lookup(c.operator).value, Value(regs, c.register), c.value))
  {
    match Lookup(c.operator)
    case None => Err(KeyError)
    case Some(op) => Ok(Compare(op, Value(regs, c.register), c.value))
  }

  // ---------------------------------------------------------------------------
  // Instruction

  datatype Instruction = Instruction(register: string, action: string, value: int, condition: Condition)

  /** `Instruction.execute`: the value the target register gets.  It only
      reads the registers: `inc` adds, any other action subtracts, and a
      failed condition keeps the current value. */
  function Execute(regs: map<string, int>, ins: Instruction): (r: Result<int>)
    ensures r.Err? <==> Satisfy(regs, ins.condition).Err?
    ensures r.Err? ==> r.error == KeyError
    ensures r.Ok? && !Satisfy(regs, ins.condition).value ==> r.value == Value(regs, ins.register)
    ensures r.Ok? && Satisfy(regs, ins.condition).value && ins.action == "inc" ==>
      r.value == Value(regs, ins.register) + ins.value
    ensures r.Ok? && Satisfy(regs, ins.condition).value && ins.action != "inc" ==>
      r.value == Value(regs, ins.register) - ins.value
  {
    var rvalue := Value(regs, ins.register);
    match Satisfy(regs, ins.condition)
    case Err(e) => Err(e)
    case Ok(holds) =>
      if !holds then Ok(rvalue)
      else if ins.action == "inc" then Ok(rvalue + ins.value)
      else Ok(rvalue - ins.value)
  }

  // ---------------------------------------------------------------------------
  // Parsing

  /** `components = line.split(' ')`, then `Condition(*components[3:7])` and
      `Instruction(*components[0:3], condition)`: fewer than seven words is a
      TypeError (missing arguments), a non-integer amount a ValueError. */
  function ParseInstruction(line: string): Result<Instruction> {
    var c := Split(line, " ");
    if |c| < 7 then Err(TypeError)
    else
      match (ParseInt(c[6]), ParseInt(c[2]))
      case (None, _) => Err(ValueError)
      case (_, None) => Err(ValueError)
      case (Some(limit), Some(amount)) =>
        Ok(Instruction(c[0], c[1], amount, Condition(c[3], c[4], c[5], limit)))
  }

  /** The text of an instruction, its seven words separated by single spaces. */
  function Render(ins: Instruction): string {
    Join([ins.register, ins.action, DecimalString(ins.value),
          ins.condition.clause, ins.condition.register, ins.condition.operator,
          DecimalString(ins.condition.value)], " ")
  }

  /** A word of an instruction: no spaces in it. */
  predicate Word(w: string) {
    ' ' !in w
  }

  /** Parsing reads back every instruction whose names are words. */
  lemma ParseRender(ins: Instruction)
    requires Word(ins.register) && Word(ins.action)
    requires Word(ins.condition.clause) && Word(ins.condition.register) && Word(ins.condition.operator)
    ensures ParseInstruction(Render(ins)) == Ok(ins)
  {
    var amount, limit := DecimalString(ins.value), DecimalString(ins.condition.value);
    DecimalStringChars(ins.value);
    DecimalStringChars(ins.condition.value);
    var parts := [ins.register, ins.action, amount,
                  ins.condition.clause, ins.condition.register, ins.condition.operator, limit];
    SplitJoin(parts, " ");
    ParseDecimalString(ins.value);
    ParseDecimalString(ins.condition.value);
  }

  // ---------------------------------------------------------------------------
  // parse_and_exec_instructions

  /** What running a list of instructions leaves: the registers, the largest
      value stored (`max_helded`), and the exception that stopped it, if any. */
  datatype Outcome = Outcome(regs: map<string, int>, held: int, error: Option<Error>)

  /** Every line parsed on its own: parsing reads nothing but the line. */
  function Parsed(lines: seq<string>): (ps: seq<Result<Instruction>>)
    ensures |ps| == |lines| && forall i :: 0 <= i < |lines| ==> ps[i] == ParseInstruction(lines[i])
  {
    seq(|lines|, i requires 0 <= i < |lines| => ParseInstruction(lines[i]))
  }

  /** One parsed line: the target and its new value, or the exception. */
  function Step(regs: map<string, int>, p: Result<Instruction>): Result<(string, int)> {
    match p
    case Err(e) => Err(e)
    case Ok(ins) =>
      match Execute(regs, ins)
      case Err(e) => Err(e)
      case Ok(v) => Ok((ins.register, v))
  }

  /** The parsed instructions run in order from `regs0`; an exception leaves
      the registers as the earlier instructions left them. */
  function Run(regs0: map<string, int>, ps: seq<Result<Instruction>>): Outcome
    decreases |ps|
  {
    if |ps| == 0 then Outcome(regs0, 0, None)
    else
      var o := Run(regs0, ps[..|ps| - 1]);
      if o.error.Some? then o
      else
        match Step(o.regs, ps[|ps| - 1])
        case Err(e) => Outcome(o.regs, o.held, Some(e))
        case Ok((target, v)) => Outcome(o.regs[target := v], if v > o.held then v else o.held, None)
  }

  /** The writes `(register, value)` the run performs, in order. */
  function Writes(regs0: map<string, int>, ps: seq<Result<Instruction>>): seq<(string, int)>
    decreases |ps|
  {
    if |ps| == 0 then []
    else
      var o := Run(regs0, ps[..|ps| - 1]);
      var w := Writes(regs0, ps[..|ps| - 1]);
      if o.error.Some? then w
      else
        match Step(o.regs, ps[|ps| - 1])
        case Err(_) => w
        case Ok(write) => w + [write]
  }

  /** The largest of 0 and the values written. */
  function MaxWritten(ws: seq<(string, int)>): (m: int)
    ensures m >= 0
    ensures forall i :: 0 <= i < |ws| ==> ws[i].1 <= m
    ensures m == 0 || exists i :: 0 <= i < |ws| && ws[i].1 == m
    decreases |ws|
  {
    if |ws| == 0 then 0
    else
      var m := MaxWritten(ws[..|ws| - 1]);
      assert forall i :: 0 <= i < |ws| - 1 ==> ws[..|ws| - 1][i] == ws[i];
      if ws[|ws| - 1].1 > m then ws[|ws| - 1].1 else m
  }

  /** `max_helded` is the largest of 0 and every value written. */
  lemma {:induction false} RunHeld(regs0: map<string, int>, ps: seq<Result<Instruction>>)
    ensures Run(regs0, ps).held == MaxWritten(Writes(regs0, ps))
    decreases |ps|
  {
    if |ps| > 0 {
      RunHeld(regs0, ps[..|ps| - 1]);
      var w := Writes(regs0, ps[..|ps| - 1]);
      var o := Run(regs0, ps[..|ps| - 1]);
      if o.error.None? && Step(o.regs, ps[|ps| - 1]).Ok? {
        assert (w + [Step(o.regs, ps[|ps| - 1]).value])[..|w|] == w;
      }
    }
  }

  /** Each write goes to its own register and touches no other: a register
      that is never a target keeps its value, and 0 if it never had one. */
  lemma {:induction false} RunUntouched(regs0: map<string, int>, ps: seq<Result<Instruction>>, name: string)
    requires forall i :: 0 <= i < |Writes(regs0, ps)| ==> Writes(regs0, ps)[i].0 != name
    ensures Value(Run(regs0, ps).regs, name) == Value(regs0, name)
    decreases |ps|
  {
    if |ps| > 0 {
      var w := Writes(regs0, ps[..|ps| - 1]);
      var o := Run(regs0, ps[..|ps| - 1]);
      if o.error.None? && Step(o.regs, ps[|ps| - 1]).Ok? {
        var write := Step(o.regs, ps[|ps| - 1]).value;
        assert Writes(regs0, ps) == w + [write];
        assert Writes(regs0, ps)[|w|] == write;
      }
      assert forall i :: 0 <= i < |w| ==> Writes(regs0, ps)[i] == w[i];
      RunUntouched(regs0, ps[..|ps| - 1], name);
    }
  }

  /** Once an instruction has raised, later ones change nothing. */
  lemma {:induction false} RunStops(regs0: map<string, int>, ps: seq<Result<Instruction>>, k: nat)
    requires k <= |ps| && Run(regs0, ps[..k]).error.Some?
    ensures Run(regs0, ps) == Run(regs0, ps[..k])
    decreases |ps| - k
  {
    if k < |ps| {
      assert ps[..|ps| - 1][..k] == ps[..k];
      RunStops(regs0, ps[..|ps| - 1], k);
    } else {
      assert ps[..k] == ps;
    }
  }

  /** The interpreter's state: `REGISTERS`. */
  class Machine {
    var registers: map<string, int>

    constructor ()
      ensures registers == map[]
    {
      registers := map[];
    }

    /** `parse_and_exec_instructions(instructions)`: run every instruction and
        return `max_helded`; the target is written even when its condition
        fails. */
    method ParseAndExecInstructions(instructions: seq<string>) returns (r: Result<int>)
      modifies this
      ensures var o := Run(old(registers), Parsed(instructions));
        registers == o.regs &&
        (o.error.Some? ==> r == Err(o.error.value)) &&
        (o.error.None? ==> r == Ok(o.held))
    {
      ghost var regs0 := registers;
      ghost var ps := Parsed(instructions);
      var maxHelded := 0;
      for i := 0 to |instructions|
        invariant Run(regs0, ps[..i]) == Outcome(registers, maxHelded, None)
      {
        assert ps[..i + 1][..i] == ps[..i];
        var parsed := ParseInstruction(instructions[i]);
        assert parsed == ps[i];
        if parsed.Err? {
          RunStops(regs0, ps, i + 1);
          return Err(parsed.error);
        }
        var instruction := parsed.value;
        var value := Execute(registers, instruction);
        if value.Err? {
          RunStops(regs0, ps, i + 1);
          return Err(value.error);
        }
        maxHelded := if value.value > maxHelded then value.value else maxHelded;
        registers := registers[instruction.register := value.value];
      }
      assert ps[..|instructions|] == ps;
      return Ok(maxHelded);
    }
  }
}
