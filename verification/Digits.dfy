/**
 Printing a number in a base from 2 to 36 (dbgputn, hal.x86/debug.c:118-138): the digits are
 written backwards into a buffer of 65 characters.
 */
module Digits {
  import opened Machine

  const DIGITS: string := "0123456789ABCDEFGHIJKLMNOPQRSTUVWXYZ"
  const BUFFER: nat := 64

  function DigitValue(c: char): int {
    if '0' <= c <= '9' then c as int - '0' as int else c as int - 'A' as int + 10
  }

  function Power(base: nat, n: nat): nat {
    if n == 0 then 1 else base * Power(base, n - 1)
  }

  // The number that a string of digits stands for.
  function Eval(s: string, base: nat): int {
    if s == "" then 0 else DigitValue(s[0]) * Power(base, |s| - 1) + Eval(s[1..], base)
  }

  // The last digit counts once and every other one `base` times as much as the next.
  lemma {:induction false} LastDigitIsOnes(s: string, c: char, base: nat)
    ensures Eval(s + [c], base) == Eval(s, base) * base + DigitValue(c)
  {
    hide DigitValue;
    if s != "" {
      LastDigitIsOnes(s[1..], c, base);
      assert (s + [c])[1..] == s[1..] + [c];
      Distributes(DigitValue(s[0]), Power(base, |s| - 1), Eval(s[1..], base), base);
    }
  }

  lemma Distributes(d: int, p: int, rest: int, base: int)
    ensures (d * p + rest) * base == d * (base * p) + rest * base
  {
  }

  predicate IsDigit(c: char, base: nat) {
    ('0' <= c <= '9' || 'A' <= c <= 'Z') && DigitValue(c) < base
  }

  lemma DigitRoundTrip(d: nat)
    requires d < 36
    ensures |DIGITS| == 36 && DigitValue(DIGITS[d]) == d && IsDigit(DIGITS[d], d + 1)
  {
    if d < 10 {
      assert DIGITS[..10] == "0123456789";
    }
  }

  lemma OneMoreDigit(x: nat, base: nat, s: string, c: char)
    requires base >= 2 && DigitValue(c) == x % base
    ensures x * Power(base, |s|) + Eval(s, base) == x / base * Power(base, |s| + 1) + Eval([c] + s, base)
  {
    var q, r, p := x / base, x % base, Power(base, |s|);
    assert x == q * base + r;
    assert x * p == q * (base * p) + r * p;
    assert ([c] + s)[1..] == s;
  }

  lemma {:induction false} Halves(x: nat, y: nat, base: nat, n: nat)
    requires base >= 2 && x < Power(2, n) && y == x / base
    ensures n > 0 ==> y < Power(2, n - 1)
    ensures n == 0 ==> x == 0
    ensures y <= x
  {
    assert base * y <= x && 2 * y <= base * y;
  }

  // With digits s already written, `rest` is what remains to be printed of x.
  ghost predicate Printing(x: nat, base: nat, rest: nat, s: string) {
    && x == rest * Power(base, |s|) + Eval(s, base)
    && |s| <= 32 && rest < Power(2, 32 - |s|) && rest <= x
    && (forall c <- s :: IsDigit(c, base))
    && (s == "" ==> rest == x)
    && (s != "" && rest == 0 ==> if x == 0 then s == "0" else s[0] != '0')
  }

  lemma PrintingStarts(x: u32, base: nat)
    requires 2 <= base <= 36
    ensures Printing(x, base, x, "")
  {
    PowerOf32();
  }

  // Writing c, the last digit of `rest`, leaves q to print.
  ghost predicate LastDigit(rest: nat, base: nat, q: nat, c: char) {
    base >= 2 && q == rest / base && DigitValue(c) == rest % base && IsDigit(c, base)
  }

  lemma PrintingGoesOn(x: nat, base: nat, rest: nat, q: nat, s: string, c: char)
    requires 2 <= base <= 36 && Printing(x, base, rest, s) && (s == "" || rest != 0) && LastDigit(rest, base, q, c)
    ensures |s| < 32 && Printing(x, base, q, [c] + s)
  {
    OneMoreDigit(rest, base, s, c);
    Halves(rest, q, base, 32 - |s|);
    Leading(rest, base, c);
    PrintingAdds(x, base, rest, q, s, c);
  }

  lemma PrintingAdds(x: nat, base: nat, rest: nat, q: nat, s: string, c: char)
    requires base <= 36 && Printing(x, base, rest, s) && (s == "" || rest != 0) && IsDigit(c, base)
    requires |s| < 32 && q < Power(2, 31 - |s|) && q <= rest
    requires rest * Power(base, |s|) + Eval(s, base) == q * Power(base, |s| + 1) + Eval([c] + s, base)
    requires (q == 0 && rest != 0 ==> c != '0') && (rest == 0 ==> c == '0' && q == 0)
    ensures Printing(x, base, q, [c] + s)
  {
    hide Eval, Power, DigitValue, IsDigit;
  }

  lemma Leading(rest: nat, base: nat, c: char)
    requires 2 <= base <= 36 && DigitValue(c) == rest % base && IsDigit(c, base)
    ensures rest / base == 0 && rest != 0 ==> c != '0'
    ensures rest == 0 ==> c == '0' && rest / base == 0
  {
    if rest / base == 0 { assert rest % base == rest; }
  }

  function Quotient(rest: nat, base: nat): nat
    requires base > 0
  {
    rest / base
  }

  // digits[x % base]
  function LastDigitOf(rest: nat, base: nat): (c: char)
    requires 2 <= base <= 36
    ensures LastDigit(rest, base, Quotient(rest, base), c)
  {
    DigitRoundTrip(rest % base);
    DIGITS[rest % base]
  }

  // The string printed evaluates to x, has no leading zero and never leaves the buffer. A
  // base above 36 prints nothing. (Base 0 divides by zero, base 1 never ends and a negative
  // base reads outside the table of digits.)
  method Dbgputn(x: u32, base: nat) returns (out: string)
    requires base >= 2
    ensures base > 36 ==> out == ""
    ensures base <= 36 ==>
              && 1 <= |out| <= 32 && Eval(out, base) == x
              && (if x == 0 then out == "0" else out[0] != '0')
              && forall c <- out :: IsDigit(c, base)
  {
    out := "";
    if base > 36 { return; }
    hide Eval, Power, Printing, LastDigit, IsDigit, Quotient, LastDigitOf;
    var buf := new char[BUFFER + 1];
    for i := 0 to BUFFER { buf[i] := '\0'; }
    var p, rest: nat, more := BUFFER, x, true;
    buf[p] := '\0';
    PrintingStarts(x, base);
    while more
      invariant 0 <= p <= BUFFER && BUFFER - p <= 32
      invariant Printing(x, base, rest, buf[p..BUFFER])
      invariant more <==> p == BUFFER || rest != 0
      decreases p
    {
      ghost var digits := buf[p..BUFFER];
      var digit, q := LastDigitOf(rest, base), Quotient(rest, base);
      PrintingGoesOn(x, base, rest, q, digits, digit);
      p := p - 1;
      buf[p] := digit;
      rest := q;
      more := rest != 0;
      assert buf[p..BUFFER] == [buf[p]] + digits;
    }
    out := buf[p..BUFFER];
    PrintingEnds(x, base, out);
  }

  lemma PrintingEnds(x: nat, base: nat, s: string)
    requires Printing(x, base, 0, s) && s != ""
    ensures Eval(s, base) == x && |s| <= 32 && (if x == 0 then s == "0" else s[0] != '0')
    ensures forall c <- s :: IsDigit(c, base)
  {
  }

  lemma PowerOf32()
    ensures Power(2, 32) == WORD
  {
    assert Power(2, 8) == 0x100;
    assert Power(2, 16) == 0x1_0000;
    assert Power(2, 24) == 0x100_0000;
  }
}
