/** The input state machine of the calculator screen: the display string,
    the saved left operand and the pending operation, and how each button
    tap changes them. */
module Calculator {
  import opened Options
  import opened Strings

  /** The four binary operations a pending computation can hold. */
  datatype MathOperation = Divide | Multiple | Minus | Plus

  /** The buttons of the calculator; `Number` carries the digit it enters. */
  datatype CalcButtonType =
    | Clear | Inversion | Percent
    | Divide | Multiple | Minus | Plus
    | Equal | Dot
    | Number(number: int)
  {
    /** The four operator buttons. */
    predicate IsOperator()
    {
      Divide? || Multiple? || Minus? || Plus?
    }
  }

  const InitialStringValue: seq<char> := "0"
  const DefaultEmptyValue: real := 0.0
  const NegativeNumberSymbol: seq<char> := "-"
  const NumberDividerSymbol: seq<char> := "."
  const ZeroIntegerPartNumberSymbol: seq<char> := "0."
  /** A digit is still appended to a display of this many characters. */
  const MaxCountBeforeDigit: nat := 15

  /** The button panel only ever sends the digits 0 to 9. */
  predicate ValidButton(b: CalcButtonType)
  {
    b.Number? ==> 0 <= b.number <= 9
  }

  predicate IsDigit(c: char)
  {
    '0' <= c <= '9'
  }

  /** `"\(number)"` for a single decimal digit. */
  function DigitString(n: int): (r: seq<char>)
    requires 0 <= n <= 9
    ensures |r| == 1 && IsDigit(r[0]) && r[0] as int - '0' as int == n
  {
    [('0' as int + n) as char]
  }

  /** The label shown on a button. */
  function Title(b: CalcButtonType): (r: seq<char>)
    requires ValidButton(b)
    ensures |r| >= 1
    ensures b.Number? <==> |r| == 1 && IsDigit(r[0])
  {
    match b
    case Clear => "AC"
    case Inversion => "±"
    case Percent => "%"
    case Divide => "÷"
    case Multiple => "x"
    case Minus => "-"
    case Plus => "+"
    case Equal => "="
    case Dot => "."
    case Number(n) => DigitString(n)
  }

  /** The floating-point library the screen relies on, left uninterpreted:
      `Double(String)` (which may fail), the four `Double` operators and the
      default rendering `"\(result)"`. `real` only carries the values. */
  datatype Numerics = Numerics(
    parse: seq<char> -> Option<real>,
    div: (real, real) -> real,
    mul: (real, real) -> real,
    sub: (real, real) -> real,
    add: (real, real) -> real,
    format: real -> seq<char>)

  /** The three fields of the screen. */
  datatype State = State(display: seq<char>, buffer: real, op: Option<MathOperation>)

  /** The state a freshly created screen starts in. */
  function Initial(): State
  {
    State(InitialStringValue, DefaultEmptyValue, None)
  }

  /** `currentValue`: the display read as a number, 0.0 when it does not parse. */
  function CurrentValue(lib: Numerics, s: seq<char>): (r: real)
    ensures lib.parse(s).Some? ==> r == lib.parse(s).value
    ensures lib.parse(s).None? ==> r == DefaultEmptyValue
  {
    lib.parse(s).GetOr(DefaultEmptyValue)
  }

  /** The operation an operator button selects. */
  function OperationOf(b: CalcButtonType): MathOperation
    requires b.IsOperator()
  {
    match b
    case Divide => MathOperation.Divide
    case Multiple => MathOperation.Multiple
    case Minus => MathOperation.Minus
    case Plus => MathOperation.Plus
  }

  /** The new state after one tap on button `b`. */
  function Tap(lib: Numerics, st: State, b: CalcButtonType): (r: State)
    requires ValidButton(b)
    ensures !b.IsOperator() && !b.Equal? ==> r.buffer == st.buffer && r.op == st.op
    ensures b.IsOperator() ==> r.op == Some(OperationOf(b))
    ensures b.Equal? ==> r.op == None
  {
    match b
    case Clear => st.(display := InitialStringValue)
    case Inversion =>
      if HasPrefix(st.display, NegativeNumberSymbol)
      then st.(display := TrimPrefix(st.display, NegativeNumberSymbol))
      else st.(display := NegativeNumberSymbol + st.display)
    case Percent =>
      st.(display := lib.format(lib.div(CurrentValue(lib, st.display), 100.0)))
    case Divide => State(InitialStringValue, CurrentValue(lib, st.display), Some(MathOperation.Divide))
    case Multiple => State(InitialStringValue, CurrentValue(lib, st.display), Some(MathOperation.Multiple))
    case Minus => State(InitialStringValue, CurrentValue(lib, st.display), Some(MathOperation.Minus))
    case Plus => State(InitialStringValue, CurrentValue(lib, st.display), Some(MathOperation.Plus))
    case Equal =>
      (match st.op
       case None => st
       case Some(op) =>
         var value := CurrentValue(lib, st.display);
         var result :=
           match op
           case Divide => lib.div(st.buffer, value)
           case Multiple => lib.mul(st.buffer, value)
           case Minus => lib.sub(st.buffer, value)
           case Plus => lib.add(st.buffer, value);
         State(lib.format(result), DefaultEmptyValue, None))
    case Dot =>
      if NumberDividerSymbol[0] in st.display then st
      else st.(display := st.display + NumberDividerSymbol)
    case Number(n) =>
      if |st.display| <= MaxCountBeforeDigit then st.(display := AppendDigit(st.display, n))
      else st
  }

  /** The display after appending digit `n`: one leading "0" is trimmed
      unless the result starts with "0.". */
  function AppendDigit(s: seq<char>, n: int): (r: seq<char>)
    requires 0 <= n <= 9
    ensures |s| <= |r| <= |s| + 1
    ensures var t := s + DigitString(n);
      if HasPrefix(t, "0") && !HasPrefix(t, "0.") then "0" + r == t else r == t
  {
    var t := s + DigitString(n);
    if !HasPrefix(t, ZeroIntegerPartNumberSymbol) then TrimPrefix(t, InitialStringValue) else t
  }

  /** The screen object: its fields are updated in place by `HandleTap`. */
  class CalculatorScreen {
    const lib: Numerics
    var display: seq<char>
    var buffer: real
    var op: Option<MathOperation>

    /** The abstract value of the screen's fields. */
    function Snapshot(): State
      reads this
    {
      State(display, buffer, op)
    }

    constructor (lib: Numerics)
      ensures this.lib == lib
      ensures Snapshot() == Initial()
    {
      this.lib := lib;
      display := InitialStringValue;
      buffer := DefaultEmptyValue;
      op := None;
    }

    /** `handleTap(buttonType:)`. */
    method HandleTap(buttonType: CalcButtonType)
      requires ValidButton(buttonType)
      modifies this
      ensures Snapshot() == Tap(lib, old(Snapshot()), buttonType)
    {
      match buttonType
      case Clear =>
        display := InitialStringValue;
      case Inversion =>
        if HasPrefix(display, NegativeNumberSymbol) {
          display := TrimPrefix(display, NegativeNumberSymbol);
        } else {
          display := NegativeNumberSymbol + display;
        }
      case Percent =>
        var result := lib.div(CurrentValue(lib, display), 100.0);
        display := lib.format(result);
      case Divide =>
        buffer := CurrentValue(lib, display);
        display := InitialStringValue;
        op := Some(MathOperation.Divide);
      case Multiple =>
        buffer := CurrentValue(lib, display);
        display := InitialStringValue;
        op := Some(MathOperation.Multiple);
      case Minus =>
        buffer := CurrentValue(lib, display);
        display := InitialStringValue;
        op := Some(MathOperation.Minus);
      case Plus =>
        buffer := CurrentValue(lib, display);
        display := InitialStringValue;
        op := Some(MathOperation.Plus);
      case Equal =>
        if op.None? {
          return;
        }
        var result: real;
        match op.value {
          case Divide => result := lib.div(buffer, CurrentValue(lib, display));
          case Multiple => result := lib.mul(buffer, CurrentValue(lib, display));
          case Minus => result := lib.sub(buffer, CurrentValue(lib, display));
          case Plus => result := lib.add(buffer, CurrentValue(lib, display));
        }
        display := lib.format(result);
        buffer := DefaultEmptyValue;
        op := None;
      case Dot =>
        if NumberDividerSymbol[0] in display {
          return;
        }
        display := display + NumberDividerSymbol;
      case Number(number) =>
        if |display| > MaxCountBeforeDigit {
          return;
        }
        display := display + DigitString(number);
        if !HasPrefix(display, ZeroIntegerPartNumberSymbol) {
          display := TrimPrefix(display, InitialStringValue);
        }
    }
  }
}
