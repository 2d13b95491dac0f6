/** Unsigned integers as text: `from_str_radix` and the `{}` and `{:x}` printers. */
module Numbers {
  import opened Bytes

  /** Largest `usize` of a 64-bit target. */
  const USIZE_MAX: nat := 0xFFFF_FFFF_FFFF_FFFF

  /** The value of a digit in any radix up to 16; other octets get a value no radix admits. */
  function DigitValue(c: Byte): nat
  {
    if '0' <= c <= '9' then c as int - '0' as int
    else if 'a' <= c <= 'f' then c as int - 'a' as int + 10
    else if 'A' <= c <= 'F' then c as int - 'A' as int + 10
    else 16
  }

  predicate AllDigits(s: seq<Byte>, radix: nat)
  {
    forall i :: 0 <= i < |s| ==> DigitValue(s[i]) < radix
  }

  /** Left-to-right conversion that gives up at the first bad digit or overflow. */
  function Accumulate(s: seq<Byte>, radix: nat, acc: nat): Option<nat>
  {
    if s == [] then Some(acc)
    else if DigitValue(s[0]) >= radix then None
    else
      var next := acc * radix + DigitValue(s[0]);
      if next > USIZE_MAX then None else Accumulate(s[1..], radix, next)
  }

  function StripPlus(s: seq<Byte>): seq<Byte>
  {
    if s != [] && s[0] == '+' then s[1..] else s
  }

  /** `usize::from_str_radix`: one leading `+` is accepted, no digits at all is an error. */
  function ParseUsize(s: seq<Byte>, radix: nat): Option<nat>
  {
    var digits := StripPlus(s);
    if digits == [] then None else Accumulate(digits, radix, 0)
  }

  // ----- What the conversion means -----

  function Pow(b: nat, e: nat): nat
  {
    if e == 0 then 1 else b * Pow(b, e - 1)
  }

  /** Positional value: digit `i` of `n` counts `radix` to the power `n - 1 - i`. */
  function Value(s: seq<Byte>, radix: nat): nat
  {
    if s == [] then 0 else DigitValue(s[0]) * Pow(radix, |s| - 1) + Value(s[1..], radix)
  }

  /** Value of `s` behind the digits that made `acc`. */
  function ValueAfter(acc: nat, s: seq<Byte>, radix: nat): nat { acc * Pow(radix, |s|) + Value(s, radix) }

  /** Taking in one more digit does not change the final value, and never exceeds it. */
  lemma Horner(acc: nat, radix: nat, s: seq<Byte>)
    requires 0 < radix && s != []
    ensures var next := acc * radix + DigitValue(s[0]);
            ValueAfter(acc, s, radix) == ValueAfter(next, s[1..], radix) >= next
  {
    var p, d := Pow(radix, |s| - 1), DigitValue(s[0]);
    PowPositive(radix, |s| - 1);
    MulRegroup(acc, radix, p);
    MulDistribute(acc * radix, d, p);
    MulGrows(acc * radix + d, p);
  }

  lemma NothingAfter(acc: nat, radix: nat)
    ensures ValueAfter(acc, [], radix) == acc
  {
    assert Pow(radix, 0) == 1;
  }

  lemma MulRegroup(a: nat, b: nat, c: nat)
    ensures a * (b * c) == (a * b) * c
  {
  }

  lemma MulDistribute(a: nat, b: nat, c: nat)
    ensures (a + b) * c == a * c + b * c
  {
  }

  lemma MulGrows(a: nat, b: nat)
    requires 0 < b
    ensures a <= a * b
  {
  }

  lemma {:induction false} PowPositive(b: nat, e: nat)
    requires 0 < b
    ensures 0 < Pow(b, e)
  {
    if e > 0 { PowPositive(b, e - 1); }
  }

  lemma AllDigitsCons(s: seq<Byte>, radix: nat)
    requires s != []
    ensures AllDigits(s, radix) <==> DigitValue(s[0]) < radix && AllDigits(s[1..], radix)
  {
    assert forall i :: 0 < i < |s| ==> s[i] == s[1..][i - 1];
  }

  lemma {:induction false} AccumulateMeaning(s: seq<Byte>, radix: nat, acc: nat)
    requires acc <= USIZE_MAX && 0 < radix <= 16
    ensures Accumulate(s, radix, acc) == Checked(s, radix, ValueAfter(acc, s, radix))
  {
    hide ValueAfter;
    if s == [] {
      NothingAfter(acc, radix);
    } else {
      var d := DigitValue(s[0]);
      var next := acc * radix + d;
      Horner(acc, radix, s);
      AllDigitsCons(s, radix);
      if d < radix && next <= USIZE_MAX {
        AccumulateMeaning(s[1..], radix, next);
      }
    }
  }

  function Checked(s: seq<Byte>, radix: nat, v: nat): Option<nat>
  {
    if AllDigits(s, radix) && v <= USIZE_MAX then Some(v) else None
  }

  /** The conversion succeeds exactly on a non-empty run of digits (after at most one `+`)
      whose positional value fits, and then returns that value. */
  lemma ParseUsizeMeaning(s: seq<Byte>, radix: nat)
    requires 0 < radix <= 16
    ensures var digits := StripPlus(s);
            ParseUsize(s, radix) ==
            if digits != [] && AllDigits(digits, radix) && Value(digits, radix) <= USIZE_MAX
            then Some(Value(digits, radix)) else None
  {
    AccumulateMeaning(StripPlus(s), radix, 0);
  }

  // ----- Printing -----

  function DigitByte(d: nat): (c: Byte)
    requires d < 16
    ensures DigitValue(c) == d && c != '+'
  {
    if d < 10 then ('0' as int + d) as char else ('a' as int + d - 10) as char
  }

  /** `format!("{}", n)` for radix 10 and `format!("{:x}", n)` for radix 16. */
  function Print(n: nat, radix: nat): (s: seq<Byte>)
    requires 2 <= radix <= 16
    ensures s != [] && AllDigits(s, radix)
    decreases n
  {
    if n < radix then [DigitByte(n)]
    else
      Quotient(n, radix);
      Print(n / radix, radix) + [DigitByte(n % radix)]
  }

  lemma Quotient(n: nat, radix: nat)
    requires 2 <= radix <= n
    ensures 0 <= n / radix < n && 0 <= n % radix < radix && n == n / radix * radix + n % radix
  {
  }

  lemma {:induction false} ValueSnoc(s: seq<Byte>, c: Byte, radix: nat)
    ensures Value(s + [c], radix) == Value(s, radix) * radix + DigitValue(c)
  {
    if s == [] {
      assert [] + [c] == [c] && [c][1..] == [];
      assert Pow(radix, 0) == 1;
    } else {
      assert (s + [c])[1..] == s[1..] + [c];
      ValueSnoc(s[1..], c, radix);
      SnocArithmetic(DigitValue(s[0]), radix, Pow(radix, |s| - 1), Value(s[1..], radix));
    }
  }

  lemma SnocArithmetic(d: nat, radix: nat, p: nat, v: nat)
    ensures d * (radix * p) + v * radix == (d * p + v) * radix
  {
    MulRegroup(d, p, radix);
    MulDistribute(d * p, v, radix);
  }

  lemma {:induction false} PrintValue(n: nat, radix: nat)
    requires 2 <= radix <= 16
    ensures Value(Print(n, radix), radix) == n
    decreases n
  {
    if n < radix {
      ValueSnoc([], DigitByte(n), radix);
      assert [] + [DigitByte(n)] == [DigitByte(n)];
    } else {
      Quotient(n, radix);
      PrintValue(n / radix, radix);
      ValueSnoc(Print(n / radix, radix), DigitByte(n % radix), radix);
    }
  }

  /** Parsing inverts printing for every `usize`. */
  lemma ParsePrint(n: nat, radix: nat)
    requires 2 <= radix <= 16 && n <= USIZE_MAX
    ensures ParseUsize(Print(n, radix), radix) == Some(n)
  {
    var s := Print(n, radix);
    PrintValue(n, radix);
    assert DigitValue(s[0]) < radix && DigitValue('+') == 16;
    ParseUsizeMeaning(s, radix);
  }
}
