/** What the calculator's transitions promise: the effect of each button, the
    invariants of the display, and properties of whole sequences of taps. */
module CalculatorProperties {
  import opened Options
  import opened Strings
  import opened Calculator

  // ---------------------------------------------------------------------
  // Sequences of taps

  predicate AllValid(bs: seq<CalcButtonType>)
  {
    forall i :: 0 <= i < |bs| ==> ValidButton(bs[i])
  }

  /** The state after tapping the buttons `bs` in order, starting from `st`. */
  function Run(lib: Numerics, st: State, bs: seq<CalcButtonType>): State
    requires AllValid(bs)
    decreases |bs|
  {
    if bs == [] then st else Run(lib, Tap(lib, st, bs[0]), bs[1..])
  }

  // ---------------------------------------------------------------------
  // Display shapes

  /** The number of decimal separators in `s`. */
  function Separators(s: seq<char>): nat
  {
    multiset(s)[NumberDividerSymbol[0]]
  }

  /** Digits and separators only, starting with a digit, at most one separator. */
  predicate IsUnsignedLiteral(s: seq<char>)
  {
    |s| > 0 && IsDigit(s[0]) &&
    (forall i :: 0 <= i < |s| ==> IsDigit(s[i]) || s[i] == '.') &&
    Separators(s) <= 1
  }

  /** An unsigned literal with an optional leading minus sign, such as "0",
      "-12", "3." or "-0.25". */
  predicate IsDecimalLiteral(s: seq<char>)
  {
    IsUnsignedLiteral(s) || (|s| > 0 && s[0] == '-' && IsUnsignedLiteral(s[1..]))
  }

  // ---------------------------------------------------------------------
  // Button labels

  /** Different buttons carry different labels. */
  lemma TitleInjective(a: CalcButtonType, b: CalcButtonType)
    requires ValidButton(a) && ValidButton(b) && Title(a) == Title(b)
    ensures a == b
  {
  }

  // ---------------------------------------------------------------------
  // One tap at a time
  //
  // ClearEffect, PercentEffect, OperatorEffect and EqualsEffect record the
  // transition table of the screen as it is; they are not derived facts.

  /** Clear resets the display only; the operand and the pending operation stay. */
  lemma ClearEffect(lib: Numerics, st: State)
    ensures Tap(lib, st, Clear) == State("0", st.buffer, st.op)
  {
  }

  /** Inversion removes exactly one leading "-" if there is one, and
      otherwise prepends one. */
  lemma InversionEffect(lib: Numerics, st: State)
    ensures var r := Tap(lib, st, Inversion);
      r.buffer == st.buffer && r.op == st.op &&
      (HasPrefix(st.display, "-") ==> "-" + r.display == st.display) &&
      (!HasPrefix(st.display, "-") ==> r.display == "-" + st.display)
  {
  }

  /** Two inversions restore the display exactly when it does not start
      with "--" (in particular whenever it does not start with "-"). */
  lemma InversionTwice(lib: Numerics, st: State)
    ensures Tap(lib, Tap(lib, st, Inversion), Inversion) == st
            <==> !HasPrefix(st.display, "--")
  {
  }

  /** Percent shows the display's value divided by 100 and changes nothing else. */
  lemma PercentEffect(lib: Numerics, st: State)
    ensures Tap(lib, st, Percent)
            == st.(display := lib.format(lib.div(CurrentValue(lib, st.display), 100.0)))
  {
  }

  /** An operator resets the display to "0", saves the display's value and
      replaces any pending operation by its own. */
  lemma OperatorEffect(lib: Numerics, st: State, b: CalcButtonType)
    requires b.IsOperator()
    ensures Tap(lib, st, b) == State("0", CurrentValue(lib, st.display), Some(OperationOf(b)))
  {
  }

  /** Equals without a pending operation changes nothing; with one it shows
      the result, and resets the operand and the operation. */
  lemma EqualsEffect(lib: Numerics, st: State)
    ensures st.op.None? ==> Tap(lib, st, Equal) == st
    ensures st.op.Some? ==> Tap(lib, st, Equal).buffer == 0.0 && Tap(lib, st, Equal).op == None
    ensures st.op == Some(MathOperation.Divide) ==>
      Tap(lib, st, Equal).display == lib.format(lib.div(st.buffer, CurrentValue(lib, st.display)))
    ensures st.op == Some(MathOperation.Multiple) ==>
      Tap(lib, st, Equal).display == lib.format(lib.mul(st.buffer, CurrentValue(lib, st.display)))
    ensures st.op == Some(MathOperation.Minus) ==>
      Tap(lib, st, Equal).display == lib.format(lib.sub(st.buffer, CurrentValue(lib, st.display)))
    ensures st.op == Some(MathOperation.Plus) ==>
      Tap(lib, st, Equal).display == lib.format(lib.add(st.buffer, CurrentValue(lib, st.display)))
  {
  }

  /** Dot does nothing when the display has a separator, and otherwise
      appends exactly one, leaving it with exactly one. */
  lemma DotEffect(lib: Numerics, st: State)
    ensures '.' in st.display ==> Tap(lib, st, Dot) == st
    ensures '.' !in st.display ==>
      Tap(lib, st, Dot) == st.(display := st.display + ".") &&
      Separators(Tap(lib, st, Dot).display) == 1
  {
  }

  /** Pressing Dot twice is the same as pressing it once. */
  lemma DotIdempotent(lib: Numerics, st: State)
    ensures Tap(lib, Tap(lib, st, Dot), Dot) == Tap(lib, st, Dot)
  {
  }

  /** A digit on a display longer than 15 characters changes nothing;
      otherwise only the display changes, by appending the digit and then
      removing one leading "0" exactly when the result starts with "0" but
      not with "0.". */
  lemma DigitEffect(lib: Numerics, st: State, n: int)
    requires 0 <= n <= 9
    ensures |st.display| > 15 ==> Tap(lib, st, Number(n)) == st
    ensures |st.display| <= 15 ==>
      var r := Tap(lib, st, Number(n));
      var t := st.display + DigitString(n);
      r.buffer == st.buffer && r.op == st.op &&
      (if HasPrefix(t, "0") && !HasPrefix(t, "0.")
       then "0" + r.display == t
       else r.display == t)
  {
  }

  /** A digit press grows the display by at most one character, so from at
      most 15 characters the result has at most 16. */
  lemma DigitLength(lib: Numerics, st: State, n: int)
    requires 0 <= n <= 9
    ensures |st.display| <= |Tap(lib, st, Number(n)).display| <= |st.display| + 1
    ensures |st.display| <= 15 ==> |Tap(lib, st, Number(n)).display| <= 16
  {
  }

  /** From the display "0" a digit gives exactly that digit ("0" for 0). */
  lemma DigitFromZero(lib: Numerics, st: State, n: int)
    requires 0 <= n <= 9 && st.display == "0"
    ensures Tap(lib, st, Number(n)).display == DigitString(n)
  {
    var t := st.display + DigitString(n);
    assert t[1] != '.';
    assert !HasPrefix(t, "0.") && HasPrefix(t, "0");
    assert t[1..] == DigitString(n);
  }

  /** A display that starts with "0." is never trimmed by a digit. */
  lemma DigitAfterZeroPoint(lib: Numerics, st: State, n: int)
    requires 0 <= n <= 9 && HasPrefix(st.display, "0.") && |st.display| <= 15
    ensures Tap(lib, st, Number(n)).display == st.display + DigitString(n)
  {
  }

  // ---------------------------------------------------------------------
  // Invariants of the display

  lemma SeparatorsAppend(s: seq<char>, t: seq<char>)
    ensures Separators(s + t) == Separators(s) + Separators(t)
  {
  }

  lemma SeparatorsDrop(s: seq<char>)
    requires |s| > 0
    ensures Separators(s[1..]) <= Separators(s)
  {
    assert s == [s[0]] + s[1..];
    SeparatorsAppend([s[0]], s[1..]);
  }

  /** The buttons that only edit the display text or select an operator. */
  predicate IsEntryButton(b: CalcButtonType)
  {
    !b.Percent? && !b.Equal?
  }

  /** Digits, Dot, Inversion, Clear and the operators keep "at most one
      separator" on the display. */
  lemma TapKeepsOneSeparator(lib: Numerics, st: State, b: CalcButtonType)
    requires ValidButton(b) && IsEntryButton(b) && Separators(st.display) <= 1
    ensures Separators(Tap(lib, st, b).display) <= 1
  {
    var d := st.display;
    match b
    case Inversion =>
      if HasPrefix(d, "-") {
        SeparatorsDrop(d);
      } else {
        SeparatorsAppend("-", d);
      }
    case Dot =>
      if '.' !in d {
        SeparatorsAppend(d, ".");
      }
    case Number(n) =>
      if |d| <= 15 {
        var t := d + DigitString(n);
        SeparatorsAppend(d, DigitString(n));
        if HasPrefix(t, "0") && !HasPrefix(t, "0.") {
          SeparatorsDrop(t);
        }
      }
    case _ =>
  }

  lemma DigitKeepsDecimalLiteral(d: seq<char>, n: int)
    requires 0 <= n <= 9 && IsDecimalLiteral(d)
    ensures IsDecimalLiteral(AppendDigit(d, n))
  {
    var t := d + DigitString(n);
    SeparatorsAppend(d, DigitString(n));
    assert IsDecimalLiteral(t) by {
      if !IsUnsignedLiteral(d) {
        assert t[1..] == d[1..] + DigitString(n);
        SeparatorsAppend(d[1..], DigitString(n));
      }
    }
    if HasPrefix(t, "0") && !HasPrefix(t, "0.") {
      // the integer part has at least two digits, so one remains
      assert |t| >= 2 && IsDigit(t[1]);
      SeparatorsDrop(t);
      assert AppendDigit(d, n) == t[1..];
    }
  }

  /** The display stays a decimal literal under every button except Percent
      and Equals, whose output is the library's rendering of a number. */
  lemma TapKeepsDecimalLiteral(lib: Numerics, st: State, b: CalcButtonType)
    requires ValidButton(b) && IsEntryButton(b) && IsDecimalLiteral(st.display)
    ensures IsDecimalLiteral(Tap(lib, st, b).display)
  {
    var d := st.display;
    match b
    case Inversion =>
      if !HasPrefix(d, "-") {
        assert ("-" + d)[1..] == d;
      }
    case Dot =>
      if '.' !in d {
        var t := d + ".";
        SeparatorsAppend(d, ".");
        if !IsUnsignedLiteral(d) {
          assert |d| > 0 && d[0] == '-' && IsUnsignedLiteral(d[1..]);
          assert t[1..] == d[1..] + ".";
          SeparatorsAppend(d[1..], ".");
          assert IsUnsignedLiteral(t[1..]);
        }
      }
    case Number(n) =>
      if |d| <= 15 {
        DigitKeepsDecimalLiteral(d, n);
      }
    case _ =>
  }

  /** The saved operand is 0.0 whenever no operation is pending. */
  predicate OperandIsReset(st: State)
  {
    st.op.None? ==> st.buffer == DefaultEmptyValue
  }

  /** Every tap keeps the operand reset while no operation is pending: only
      an operator sets an operand, together with its operation, and Equals
      clears both. */
  lemma TapKeepsOperandReset(lib: Numerics, st: State, b: CalcButtonType)
    requires ValidButton(b) && OperandIsReset(st)
    ensures OperandIsReset(Tap(lib, st, b))
  {
  }

  // ---------------------------------------------------------------------
  // Whole sequences of taps

  /** Any sequence of taps keeps the operand reset while no operation is pending. */
  lemma {:induction false} RunKeepsOperandReset(lib: Numerics, st: State, bs: seq<CalcButtonType>)
    requires AllValid(bs) && OperandIsReset(st)
    ensures OperandIsReset(Run(lib, st, bs))
    decreases |bs|
  {
    if bs != [] {
      TapKeepsOperandReset(lib, st, bs[0]);
      RunKeepsOperandReset(lib, Tap(lib, st, bs[0]), bs[1..]);
    }
  }

  /** From a fresh screen, whatever is tapped, the operand is 0.0 whenever no
      operation is pending. */
  lemma OperandResetFromInitial(lib: Numerics, bs: seq<CalcButtonType>)
    requires AllValid(bs)
    ensures Run(lib, Initial(), bs).op.None? ==> Run(lib, Initial(), bs).buffer == 0.0
  {
    RunKeepsOperandReset(lib, Initial(), bs);
  }

  /** Only an operator or Equals changes the operand or the pending operation. */
  lemma {:induction false} RunKeepsOperand(lib: Numerics, st: State, bs: seq<CalcButtonType>)
    requires AllValid(bs)
    requires forall i :: 0 <= i < |bs| ==> !bs[i].IsOperator() && !bs[i].Equal?
    ensures Run(lib, st, bs).buffer == st.buffer && Run(lib, st, bs).op == st.op
    decreases |bs|
  {
    if bs != [] {
      RunKeepsOperand(lib, Tap(lib, st, bs[0]), bs[1..]);
    }
  }

  /** Repeated digit entry never takes the display beyond 16 characters. */
  lemma {:induction false} RunDigitsBounded(lib: Numerics, st: State, bs: seq<CalcButtonType>)
    requires AllValid(bs) && |st.display| <= 16
    requires forall i :: 0 <= i < |bs| ==> bs[i].Number?
    ensures |Run(lib, st, bs).display| <= 16
    decreases |bs|
  {
    if bs != [] {
      var next := Tap(lib, st, bs[0]);
      assert |next.display| <= 16 by {
        DigitLength(lib, st, bs[0].number);
      }
      RunDigitsBounded(lib, next, bs[1..]);
    }
  }

  /** Without Percent and Equals the display stays a decimal literal, with
      at most one separator. */
  lemma {:induction false} RunKeepsDecimalLiteral(lib: Numerics, st: State, bs: seq<CalcButtonType>)
    requires AllValid(bs) && IsDecimalLiteral(st.display)
    requires forall i :: 0 <= i < |bs| ==> IsEntryButton(bs[i])
    ensures IsDecimalLiteral(Run(lib, st, bs).display)
    ensures Separators(Run(lib, st, bs).display) <= 1
    decreases |bs|
  {
    if bs != [] {
      TapKeepsDecimalLiteral(lib, st, bs[0]);
      RunKeepsDecimalLiteral(lib, Tap(lib, st, bs[0]), bs[1..]);
    } else {
      assert IsUnsignedLiteral(st.display) || IsUnsignedLiteral(st.display[1..]);
      if !IsUnsignedLiteral(st.display) {
        SeparatorsDrop(st.display);
        assert Separators(st.display) == Separators(st.display[1..]) by {
          assert st.display == "-" + st.display[1..];
          SeparatorsAppend("-", st.display[1..]);
        }
      }
    }
  }

  // ---------------------------------------------------------------------
  // Scenarios

  /** Sixteen presses of 1 from the initial state fill 16 characters: the
      guard admits a digit while the display has at most 15. */
  lemma SixteenDigits(lib: Numerics)
    ensures Run(lib, Initial(), seq(16, _ => Number(1))).display == seq(16, _ => '1')
  {
    var ones := seq(16, _ => Number(1));
    var st := Tap(lib, Initial(), Number(1));
    DigitFromZero(lib, Initial(), 1);
    assert st.display == seq(1, _ => '1');
    assert ones[1..] == seq(15, _ => Number(1));
    SixteenDigitsFrom(lib, st, 1);
  }

  lemma {:induction false} SixteenDigitsFrom(lib: Numerics, st: State, k: nat)
    requires 1 <= k <= 16 && st.display == seq(k, _ => '1')
    ensures Run(lib, st, seq(16 - k, _ => Number(1))).display == seq(16, _ => '1')
    decreases 16 - k
  {
    if k < 16 {
      var bs := seq(16 - k, _ => Number(1));
      var next := Tap(lib, st, Number(1));
      var t := st.display + DigitString(1);
      assert t[0] == '1' && !HasPrefix(t, "0") && !HasPrefix(t, "0.");
      assert t == seq(k + 1, _ => '1');
      assert bs[1..] == seq(16 - (k + 1), _ => Number(1));
      SixteenDigitsFrom(lib, next, k + 1);
    }
  }

  /** "0", Dot, "5" from the initial state shows "0.5": the leading zero is
      kept once a separator follows it. */
  lemma ZeroPointFive(lib: Numerics)
    ensures Run(lib, Initial(), [Number(0), Dot, Number(5)]).display == "0.5"
  {
  }

  /** 2 + 3 = shows the library's rendering of the sum of the two parsed
      operands, and leaves no pending operation. */
  lemma TwoPlusThree(lib: Numerics)
    ensures Run(lib, Initial(), [Number(2), CalcButtonType.Plus, Number(3), Equal])
      == State(lib.format(lib.add(CurrentValue(lib, "2"), CurrentValue(lib, "3"))), 0.0, None)
  {
    var bs := [Number(2), CalcButtonType.Plus, Number(3), Equal];
    var s1 := Tap(lib, Initial(), Number(2));
    DigitFromZero(lib, Initial(), 2);
    var s2 := Tap(lib, s1, CalcButtonType.Plus);
    var s3 := Tap(lib, s2, Number(3));
    DigitFromZero(lib, s2, 3);
    assert bs[1..] == [CalcButtonType.Plus, Number(3), Equal];
    assert bs[1..][1..] == [Number(3), Equal];
    assert bs[1..][1..][1..] == [Equal];
  }

  /** Clear in the middle of a computation keeps the saved operand: the next
      Equals still applies the pending operation to it. */
  lemma ClearKeepsPendingComputation(lib: Numerics, st: State, b: CalcButtonType)
    requires b.IsOperator()
    ensures Run(lib, st, [b, Clear, Equal]).buffer == 0.0
    ensures Run(lib, st, [b, Clear, Equal]).op == None
    ensures b.Divide? ==>
      Run(lib, st, [b, Clear, Equal]).display
      == lib.format(lib.div(CurrentValue(lib, st.display), CurrentValue(lib, "0")))
    ensures b.Multiple? ==>
      Run(lib, st, [b, Clear, Equal]).display
      == lib.format(lib.mul(CurrentValue(lib, st.display), CurrentValue(lib, "0")))
    ensures b.Minus? ==>
      Run(lib, st, [b, Clear, Equal]).display
      == lib.format(lib.sub(CurrentValue(lib, st.display), CurrentValue(lib, "0")))
    ensures b.Plus? ==>
      Run(lib, st, [b, Clear, Equal]).display
      == lib.format(lib.add(CurrentValue(lib, st.display), CurrentValue(lib, "0")))
  {
    var bs := [b, Clear, Equal];
    var s1 := Tap(lib, st, b);
    OperatorEffect(lib, st, b);
    var s2 := Tap(lib, s1, Clear);
    assert s2 == State("0", CurrentValue(lib, st.display), Some(OperationOf(b)));
    assert bs[1..] == [Clear, Equal] && bs[1..][1..] == [Equal];
    assert Run(lib, st, bs) == Run(lib, s2, [Equal]);
  }

  /** A sign toggle on "5" shows "-5", and a second one shows "5" again. */
  lemma ToggleFive(lib: Numerics, st: State)
    requires st.display == "5"
    ensures Tap(lib, st, Inversion).display == "-5"
    ensures Tap(lib, Tap(lib, st, Inversion), Inversion) == st
  {
    assert st.display[0] != '-';
    InversionTwice(lib, st);
  }
}
