/** Decimal output. */
module BvDecimal {
  import opened Bits
  import opened Limbs
  import opened BitVectors
  import opened BvOps
  import opened BvShift
  import opened BvArith

  predicate IsDigits(s: string) {
    forall i :: 0 <= i < |s| ==> '0' <= s[i] <= '9'
  }

  /** The number a decimal numeral stands for. */
  ghost function DecValue(s: string): int {
    if s == [] then 0 else 10 * DecValue(s[..|s| - 1]) + (s[|s| - 1] as int - '0' as int)
  }

  /** A numeral without leading zeros. */
  ghost predicate IsNumeral(s: string) {
    s != [] && IsDigits(s) && (s[0] == '0' ==> |s| == 1)
  }

  /** Every number has exactly one numeral. */
  lemma {:induction false} NumeralUnique(s: string, t: string)
    requires IsNumeral(s) && IsNumeral(t) && DecValue(s) == DecValue(t)
    ensures s == t
  {
    NumeralBound(s);
    NumeralBound(t);
    LastDigit(s);
    LastDigit(t);
    if |s| > 1 && |t| > 1 {
      NumeralUnique(s[..|s| - 1], t[..|t| - 1]);
      assert s == s[..|s| - 1] + [s[|s| - 1]] && t == t[..|t| - 1] + [t[|t| - 1]];
    } else if |s| == 1 && |t| == 1 {
      assert s[..0] == [] && t[..0] == [];
    }
  }

  /** Longer numerals start with a digit that is not zero. */
  lemma {:induction false} NumeralBound(s: string)
    requires IsNumeral(s)
    ensures DecValue(s) >= 0 && (|s| > 1 ==> DecValue(s) >= 10) && (|s| == 1 ==> DecValue(s) < 10)
    ensures s[0] != '0' ==> DecValue(s) > 0
  {
    if |s| > 1 {
      NumeralBound(s[..|s| - 1]);
    } else {
      assert s[..0] == [];
    }
  }

  lemma {:induction false} DigitsNonNegative(s: string)
    requires IsDigits(s)
    ensures DecValue(s) >= 0
  {
    if s != [] {
      DigitsNonNegative(s[..|s| - 1]);
    }
  }

  lemma LastDigit(s: string)
    requires s != [] && IsDigits(s)
    ensures DecValue(s) % 10 == s[|s| - 1] as int - '0' as int
    ensures DecValue(s) / 10 == DecValue(s[..|s| - 1])
  {
    hide DecValue;
    DecUnfold(s);
    DigitsNonNegative(s[..|s| - 1]);
  }

  lemma DecUnfold(s: string)
    ensures DecValue(s) == if s == [] then 0 else 10 * DecValue(s[..|s| - 1]) + (s[|s| - 1] as int - '0' as int)
  {
  }

  lemma DecSnoc(s: string, c: char)
    ensures DecValue(s + [c]) == 10 * DecValue(s) + (c as int - '0' as int)
  {
    assert (s + [c])[..|s|] == s;
  }

  /** The position of the highest bit that is set, or -1. */
  method GetFirstOneBitIdx(v: BV) returns (i: int)
    requires Wf(v)
    ensures -1 <= i < v.width && Value(v) < Pow2(i + 1) && (i >= 0 ==> Pow2(i) <= Value(v))
  {
    hide Pow2, LVal, GetBit, TestBit;
    ValueBound(v);
    Pow2Is2();
    i := v.width - 1;
    while true
      invariant 0 <= i < v.width && Value(v) < Pow2(i + 1)
      decreases i
    {
      GetBitIs(v, i);
      HighBit(Value(v), i);
      if GetBit(v, i) {
        break;
      }
      if i == 0 {
        return -1;
      }
      i := i - 1;
    }
  }

  lemma HighBit(x: nat, i: nat)
    requires x < Pow2(i + 1)
    ensures TestBit(x, i) <==> x >= Pow2(i)
  {
    hide Pow2;
    Pow2Unfold(i + 1);
    if x >= Pow2(i) {
      DivModUnique(x, Pow2(i), 1, x - Pow2(i));
    } else {
      DivModUnique(x, Pow2(i), 0, x);
    }
  }

  /** The character of a remainder, from its bits. */
  method Digit(rem: BV) returns (ch: char)
    requires Wf(rem) && Value(rem) < 10
    ensures '0' <= ch <= '9' && ch as int - '0' as int == Value(rem)
  {
    hide Pow2, LVal, GetBit, TestBit;
    var code: nat := 0;
    var i := GetFirstOneBitIdx(rem);
    DivModUnique(Value(rem), Pow2(i + 1), 0, Value(rem));
    while i >= 0
      invariant -1 <= i < rem.width && code == Quotient(Value(rem), Pow2(i + 1))
    {
      GetBitIs(rem, i);
      NextPrefix(Value(rem), i);
      code := 2 * code;
      if GetBit(rem, i) {
        code := code + 1;
      }
      i := i - 1;
    }
    Pow2Is2();
    DivModUnique(Value(rem), 1, Value(rem), 0);
    ch := (code + '0' as int) as char;
  }

  /** The characters pushed so far are the digits of `x` that `rest` lacks. */
  ghost predicate Printed(x: nat, rest: nat, stack: string) {
    && IsDigits(stack)
    && DecAppend(rest, stack) == x
    && (rest == 0 && stack != [] ==> stack[|stack| - 1] != '0')
  }

  /** The number whose numeral is that of `high` followed by the digits of the
      stack, from its top to its bottom. */
  ghost function DecAppend(high: int, stack: string): int
    decreases |stack|
  {
    if stack == [] then high
    else DecAppend(10 * high + (stack[|stack| - 1] as int - '0' as int), stack[..|stack| - 1])
  }

  lemma PrintStep(x: nat, rest: nat, stack: string, ch: char)
    requires Printed(x, rest, stack) && rest > 0
    requires '0' <= ch <= '9' && ch as int - '0' as int == rest % 10
    ensures Printed(x, rest / 10, stack + [ch])
  {
    assert (stack + [ch])[..|stack|] == stack;
  }

  ghost function Reversed(s: string): string {
    if s == [] then [] else [s[|s| - 1]] + Reversed(s[..|s| - 1])
  }

  lemma {:induction false} ReversedFacts(s: string)
    requires IsDigits(s)
    ensures |Reversed(s)| == |s| && IsDigits(Reversed(s)) && (s != [] ==> Reversed(s)[0] == s[|s| - 1])
  {
    if s != [] {
      ReversedFacts(s[..|s| - 1]);
    }
  }

  lemma {:induction false} ReversedValue(head: string, stack: string)
    ensures DecValue(head + Reversed(stack)) == DecAppend(DecValue(head), stack)
    decreases |stack|
  {
    hide DecValue;
    if stack == [] {
      assert head + [] == head;
    } else {
      var c, rest := stack[|stack| - 1], stack[..|stack| - 1];
      DecSnoc(head, c);
      ReversedValue(head + [c], rest);
      assert head + ([c] + Reversed(rest)) == head + [c] + Reversed(rest);
    }
  }

  lemma ReversedPrefix(stack: string, p: nat)
    requires 0 < p <= |stack|
    ensures Reversed(stack[..p]) == [stack[p - 1]] + Reversed(stack[..p - 1])
  {
    assert stack[..p][..p - 1] == stack[..p - 1];
  }

  /** The decimal numeral of the value. */
  method ToDecChar(v: BV) returns (res: string)
    requires Wf(v)
    ensures IsNumeral(res) && DecValue(res) == Value(v)
  {
    hide Pow2, LVal, Wf, UdivVal, UremVal, Printed, IsDigits, DecAppend, Reversed;
    var zero := IsZero(v);
    if zero {
      ZeroNumeral();
      return "0";
    }
    var stack: string := "";
    var ten, tmp;
    PositiveWidth(v);
    if v.width < 4 {
      ten := FromUint64(10, 4);
      tmp := Uext(v, 4 - v.width);
      TenFits(4);
    } else {
      ten := FromUint64(10, v.width);
      tmp := v;
      TenFits(v.width);
    }
    ghost var x := Value(v);
    StartPrint(x);
    zero := false;
    while !zero
      invariant Wf(tmp) && Wf(ten) && tmp.width == ten.width && Value(ten) == 10
      invariant Printed(x, Value(tmp), stack) && (zero <==> Value(tmp) == 0) && (stack == "" ==> Value(tmp) == x)
      decreases Value(tmp)
    {
      DivByTen(tmp.width, Value(tmp));
      var div := Udiv(tmp, ten);
      var rem := Urem(tmp, ten);
      var ch := Digit(rem);
      PrintStep(x, Value(tmp), stack, ch);
      stack := stack + [ch];
      tmp := div;
      zero := IsZero(tmp);
    }
    res := "";
    var p := |stack|;
    ReversedEnds(stack);
    while p > 0
      invariant 0 <= p <= |stack| && res + Reversed(stack[..p]) == Reversed(stack)
    {
      p := p - 1;
      ReversedPrefix(stack, p + 1);
      assert res + ([stack[p]] + Reversed(stack[..p])) == res + [stack[p]] + Reversed(stack[..p]);
      res := res + [stack[p]];
    }
    PrintEnd(x, stack, res);
  }

  lemma PositiveWidth(v: BV)
    requires Wf(v)
    ensures v.width > 0
  {
  }

  lemma ZeroNumeral()
    ensures IsNumeral("0") && DecValue("0") == 0
  {
    assert "0"[..0] == [];
  }

  lemma TenFits(w: nat)
    requires w >= 4
    ensures 10 % Pow2(w) == 10
  {
    hide Pow2;
    Pow2Is4();
    Pow2Mono(4, w);
    DivModUnique(10, Pow2(w), 0, 10);
  }

  lemma StartPrint(x: nat)
    ensures Printed(x, x, "")
  {
  }

  lemma DivByTen(w: nat, x: nat)
    ensures UdivVal(w, x, 10) == x / 10 && UremVal(x, 10) == x % 10
  {
  }

  lemma ReversedEnds(stack: string)
    ensures "" + Reversed(stack[..|stack|]) == Reversed(stack) && Reversed(stack[..0]) == ""
  {
    assert stack[..|stack|] == stack;
  }

  lemma PrintEnd(x: nat, stack: string, res: string)
    requires x > 0 && Printed(x, 0, stack) && res + Reversed(stack[..0]) == Reversed(stack)
    ensures IsNumeral(res) && DecValue(res) == x
  {
    ReversedEnds(stack);
    assert res == Reversed(stack);
    ReversedFacts(stack);
    ReversedValue("", stack);
    assert "" + Reversed(stack) == Reversed(stack);
  }
}
