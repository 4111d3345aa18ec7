// kitoa of source/kernel/tools/klib.c: a number written into a buffer, lowest digit first, then reversed in
// place.
module Kitoa {
  const WORD_SIZE := 0x1_0000_0000

  // Position 15 is the digit 0: remainders may be negative.
  const DIGITS: string := "FEDCBA9876543210123456789ABCDEF"

  function Div(a: nat, b: nat): nat
    requires b > 0
  {
    a / b
  }

  function Mod(a: nat, b: nat): nat
    requires b > 0
  {
    a % b
  }

  // C's division and remainder: rounding toward zero
  function Quotient(a: int, b: nat): int
    requires b > 0
  {
    if a >= 0 then Div(a, b) else 0 - Div(-a, b)
  }

  function Remainder(a: int, b: nat): int
    requires b > 0
  {
    if a >= 0 then Mod(a, b) else 0 - Mod(-a, b)
  }

  lemma Division(n: nat, base: nat)
    requires Supported(base)
    ensures Div(n, base) * base + Mod(n, base) == n && Mod(n, base) < base
    ensures Div(n, base) == 0 <==> n < base
    ensures n < base ==> Mod(n, base) == n
    ensures 2 * Div(n, base) <= n
  {
    if base == 2 {
    } else if base == 8 {
    } else if base == 10 {
    } else {
    }
  }

  predicate Supported(base: int) {
    base == 2 || base == 8 || base == 10 || base == 16
  }

  predicate IsInt(num: int) {
    -0x8000_0000 <= num < 0x8000_0000
  }

  // (uint32_t)num
  function Unsigned(num: int): nat {
    num % WORD_SIZE
  }

  // ---- What is to be written ----

  function Digit(d: nat): char
    requires d < 16
  {
    "0123456789ABCDEF"[d]
  }

  // n in positional notation, without leading zeros
  function Numeral(n: nat, base: nat): (s: string)
    requires Supported(base)
    ensures |s| > 0
  {
    Division(n, base);
    (if n < base then "" else Numeral(Div(n, base), base)) + [Digit(Mod(n, base))]
  }

  function Formatted(num: int, base: int): string {
    if !Supported(base) then ""
    else if num < 0 && base == 10 then "-" + Numeral(-num, 10)
    else Numeral(Unsigned(num), base)
  }

  // ---- Reading it back ----

  function DigitValue(c: char): int {
    if '0' <= c <= '9' then c as int - '0' as int
    else if 'A' <= c <= 'F' then c as int - 'A' as int + 10
    else -1
  }

  function Value(s: string, base: nat): int {
    if s == "" then 0 else Value(s[..|s| - 1], base) * base + DigitValue(s[|s| - 1])
  }

  function SignedValue(s: string, base: nat): int {
    if s != "" && s[0] == '-' then -Value(s[1..], base) else Value(s, base)
  }

  lemma {:induction false} NumeralValue(n: nat, base: nat)
    requires Supported(base)
    ensures Value(Numeral(n, base), base) == n
  {
    hide Div, Mod;
    Division(n, base);
    var s := Numeral(n, base);
    if n >= base {
      NumeralValue(Div(n, base), base);
      assert s[..|s| - 1] == Numeral(Div(n, base), base);
    } else {
      assert s[..|s| - 1] == "";
    }
    DigitBack(Mod(n, base));
  }

  lemma DigitBack(d: nat)
    requires d < 16
    ensures DigitValue(Digit(d)) == d && (d > 0 ==> Digit(d) != '0')
  {
  }

  lemma {:induction false} NumeralShape(n: nat, base: nat)
    requires Supported(base)
    ensures var s := Numeral(n, base);
            && (n > 0 ==> s[0] != '0') && (n == 0 ==> s == "0")
            && forall i :: 0 <= i < |s| ==> 0 <= DigitValue(s[i]) < base
  {
    hide Div, Mod, Digit, DigitValue;
    Division(n, base);
    DigitBack(Mod(n, base));
    if n >= base {
      NumeralShape(Div(n, base), base);
    } else if n == 0 {
      assert Digit(0) == '0' by { ZeroDigit(); }
    }
  }

  lemma ZeroDigit()
    ensures Digit(0) == '0'
  {
  }

  lemma {:induction false} NumeralLength(n: nat, base: nat, k: nat)
    requires Supported(base) && n < Power(2, k) && k >= 1
    ensures |Numeral(n, base)| <= k
  {
    hide Div, Mod, Digit;
    Division(n, base);
    if n >= base {
      NumeralLength(Div(n, base), base, k - 1);
    }
  }

  function Power(b: nat, k: nat): nat {
    if k == 0 then 1 else b * Power(b, k - 1)
  }

  // Reading back what is written gives the number, but in bases 2, 8 and 16 a negative one comes back as its 32-bit
  // two's complement.
  lemma RoundTrip(num: int, base: int)
    requires IsInt(num) && Supported(base)
    ensures SignedValue(Formatted(num, base), base) == if base == 10 || num >= 0 then num else num + 0x1_0000_0000
  {
    hide Numeral, SignedValue, Unsigned;
    UnsignedIs(num);
    if num < 0 && base == 10 {
      MinusBack(-num);
    } else {
      NumeralBack(Unsigned(num), base);
    }
  }

  lemma UnsignedIs(num: int)
    requires IsInt(num)
    ensures Unsigned(num) == if num >= 0 then num else num + 0x1_0000_0000
  {
  }

  lemma MinusBack(n: nat)
    ensures SignedValue("-" + Numeral(n, 10), 10) == 0 - n
  {
    NumeralValue(n, 10);
    hide Numeral, Value;
    assert ("-" + Numeral(n, 10))[1..] == Numeral(n, 10);
  }

  lemma NumeralBack(n: nat, base: nat)
    requires Supported(base)
    ensures SignedValue(Numeral(n, base), base) == n
  {
    NumeralValue(n, base);
    NumeralShape(n, base);
    hide Numeral, Value;
    assert DigitValue('-') == -1;
  }

  // No leading zeros, and never more than 32 digits: 33 characters with the NUL are enough.
  lemma FormattedShape(num: int, base: int)
    requires IsInt(num)
    ensures |Formatted(num, base)| <= 32
    ensures var s := if num < 0 && base == 10 then Numeral(-num, 10) else Formatted(num, base);
            |s| > 1 ==> s[0] != '0'
    ensures !Supported(base) <==> Formatted(num, base) == ""
  {
    hide Numeral, Unsigned, Power;
    if num < 0 && base == 10 {
      NumeralShape(-num, 10);
      NumeralLength10(-num);
    } else if Supported(base) {
      NumeralShape(Unsigned(num), base);
      Powers();
      UnsignedBound(num);
      NumeralLength(Unsigned(num), base, 32);
    }
  }

  lemma UnsignedBound(num: int)
    ensures Unsigned(num) < WORD_SIZE
  {
  }

  lemma Powers()
    ensures Power(2, 32) == WORD_SIZE
  {
    assert Power(2, 8) == 0x100;
    assert Power(2, 16) == 0x1_0000;
    assert Power(2, 24) == 0x100_0000;
  }

  lemma NumeralLength10(n: nat)
    requires n <= 0x8000_0000
    ensures |Numeral(n, 10)| <= 31
  {
    if n >= 10 {
      assert Power(2, 8) == 0x100;
      assert Power(2, 16) == 0x1_0000;
      assert Power(2, 24) == 0x100_0000;
      assert Power(2, 30) == 0x4000_0000;
      NumeralLength(n / 10, 10, 30);
    }
  }

  // ---- Writing it ----

  function Reversed(s: string): (r: string)
    ensures |r| == |s| && forall i :: 0 <= i < |s| ==> r[i] == s[|s| - 1 - i]
  {
    if s == "" then "" else Reversed(s[1..]) + [s[0]]
  }

  // The digits of n, lowest first
  function Lowest(n: nat, base: nat): string
    requires Supported(base)
  {
    Division(n, base);
    [Digit(Mod(n, base))] + if n < base then "" else Lowest(Div(n, base), base)
  }

  lemma {:induction false} LowestReversed(n: nat, base: nat)
    requires Supported(base)
    ensures Reversed(Lowest(n, base)) == Numeral(n, base)
  {
    hide Div, Mod, Digit;
    Division(n, base);
    if n >= base {
      LowestReversed(Div(n, base), base);
    }
    assert Lowest(n, base)[1..] == if n < base then "" else Lowest(Div(n, base), base);
  }

  // What the table yields for a remainder of either sign
  lemma TableDigit(r: int)
    requires -16 < r < 16
    ensures DIGITS[r + 15] == Digit(if r < 0 then -r else r)
  {
  }

  // The same for a number that is not positive
  lemma NegativeDigit(n: int, base: nat)
    requires Supported(base) && n <= 0
    ensures 0 <= Remainder(n, base) + 15 < 31 && DIGITS[Remainder(n, base) + 15] == Digit(Mod(-n, base))
    ensures Quotient(n, base) == 0 - Div(-n, base) <= 0
  {
    Division(-n, base);
    Division(0, base);
    hide Digit, Div, Mod;
    TableDigit(Remainder(n, base));
  }

  // s with w written at from
  function Put(s: string, from: nat, w: string): (r: string)
    requires from + |w| <= |s|
    ensures |r| == |s|
  {
    s[..from] + w + s[from + |w|..]
  }

  lemma PutNext(s: string, from: nat, w: string, c: char)
    requires from + |w| < |s|
    ensures Put(s, from, w)[from + |w| := c] == Put(s, from, w + [c])
  {
  }

  // *p = ch
  method Store(buf: array<char>, p: nat, ch: char)
    requires p < buf.Length
    modifies buf
    ensures buf[..] == old(buf[..])[p := ch]
  {
    buf[p] := ch;
  }

  // The loop for a negative number
  method PutNegative(buf: array<char>, from: nat, num: int, base: nat) returns (to: nat)
    requires Supported(base) && num < 0 && from + |Lowest(-num, base)| <= buf.Length
    modifies buf
    ensures to == from + |Lowest(-num, base)|
    ensures buf[..] == Put(old(buf[..]), from, Lowest(-num, base))
  {
    hide Digit, Div, Mod, Lowest, Put, Remainder, Quotient, Written;
    ghost var was, w := buf[..], "";
    to := from;
    var rest := num;
    var more := true;
    PutNothing(was, from);
    WrittenNothing(-num, base);
    while more
      invariant from <= to == from + |w| <= buf.Length && rest <= 0 && (more || rest == 0)
      invariant Written(Lowest(-num, base), w, -rest, more, base)
      invariant buf[..] == Put(was, from, w)
      decreases more, -rest
    {
      WrittenNext(Lowest(-num, base), w, -rest, base);
      NegativeDigit(rest, base);
      var ch := DIGITS[Remainder(rest, base) + 15];
      PutNext(was, from, w, ch);
      Store(buf, to, ch);
      w := w + [ch];
      to := to + 1;
      rest := Quotient(rest, base);
      more := rest != 0;
    }
    WrittenAll(Lowest(-num, base), w, -rest, base);
  }

  // The loop for a number taken as unsigned
  method PutUnsigned(buf: array<char>, from: nat, num: nat, base: nat) returns (to: nat)
    requires Supported(base) && from + |Lowest(num, base)| <= buf.Length
    modifies buf
    ensures to == from + |Lowest(num, base)|
    ensures buf[..] == Put(old(buf[..]), from, Lowest(num, base))
  {
    hide Digit, Div, Mod, Lowest, Put, Remainder, Quotient, Written;
    ghost var was, w := buf[..], "";
    to := from;
    var rest: nat := num;
    var more := true;
    PutNothing(was, from);
    WrittenNothing(num, base);
    while more
      invariant from <= to == from + |w| <= buf.Length && (more || rest == 0)
      invariant Written(Lowest(num, base), w, rest, more, base)
      invariant buf[..] == Put(was, from, w)
      decreases more, rest
    {
      WrittenNext(Lowest(num, base), w, rest, base);
      TableDigit(Mod(rest, base));
      var ch := DIGITS[Mod(rest, base) + 15];
      PutNext(was, from, w, ch);
      Store(buf, to, ch);
      w := w + [ch];
      to := to + 1;
      rest := Div(rest, base);
      more := rest != 0;
    }
    WrittenAll(Lowest(num, base), w, rest, base);
  }

  lemma PutNothing(s: string, from: nat)
    requires from <= |s|
    ensures Put(s, from, "") == s
  {
  }

  // Of the digits all, w has been written; if more is to come, it is those of n.
  ghost predicate Written(all: string, w: string, n: nat, more: bool, base: nat)
    requires Supported(base)
  {
    all == if more then w + Lowest(n, base) else w
  }

  lemma WrittenNothing(n: nat, base: nat)
    requires Supported(base)
    ensures Written(Lowest(n, base), "", n, true, base)
  {
    hide Lowest;
    assert "" + Lowest(n, base) == Lowest(n, base);
  }

  lemma WrittenAll(all: string, w: string, n: nat, base: nat)
    requires Supported(base) && Written(all, w, n, false, base)
    ensures w == all
  {
  }

  lemma LowestStep(n: nat, base: nat)
    requires Supported(base)
    ensures Mod(n, base) < 16
    ensures Lowest(n, base) == [Digit(Mod(n, base))] + if n < base then "" else Lowest(Div(n, base), base)
  {
    Division(n, base);
    hide Div, Mod, Digit;
  }

  lemma Appended(w: string, c: char, rest: string)
    ensures w + ([c] + rest) == (w + [c]) + rest && |w + ([c] + rest)| > |w| && (w + [c]) + "" == w + [c]
  {
  }

  lemma WrittenNext(all: string, w: string, n: nat, base: nat)
    requires Supported(base) && Written(all, w, n, true, base)
    ensures |w| < |all| && Mod(n, base) < 16 && Div(n, base) <= n && (n > 0 ==> Div(n, base) < n)
    ensures Written(all, w + [Digit(Mod(n, base))], Div(n, base), Div(n, base) != 0, base)
  {
    Division(n, base);
    LowestStep(n, base);
    hide Div, Mod, Digit, Lowest;
    Appended(w, Digit(Mod(n, base)), if n < base then "" else Lowest(Div(n, base), base));
  }

  // s is was with what is outside of [start, p] and inside of [from, to) turned around.
  ghost predicate PartReversed(was: string, s: string, from: nat, to: nat, start: nat, p: int) {
    && |s| == |was| && from <= start <= to <= |was| && start - from == to - 1 - p
    && forall i :: 0 <= i < |was| ==>
         s[i] == was[if from <= i < to && !(start <= i <= p) then from + (to - 1 - i) else i]
  }

  lemma PartReversedNext(was: string, s: string, from: nat, to: nat, start: nat, p: int)
    requires PartReversed(was, s, from, to, start, p) && start < p
    ensures PartReversed(was, s[start := s[p]][p := s[start]], from, to, start + 1, p - 1)
  {
  }

  lemma AllReversed(was: string, s: string, from: nat, to: nat, start: nat, p: int)
    requires PartReversed(was, s, from, to, start, p) && start >= p
    ensures s == Put(was, from, Reversed(was[from..to]))
  {
    var w := was[from..to];
    var r := Put(was, from, Reversed(w));
    forall i | 0 <= i < |was|
      ensures s[i] == r[i]
    {
      if from <= i < to {
        assert r[i] == Reversed(w)[i - from] == w[to - 1 - i];
      }
    }
  }

  method Swap(buf: array<char>, i: nat, j: nat)
    requires i < buf.Length && j < buf.Length
    modifies buf
    ensures var s := old(buf[..]); buf[..] == s[i := s[j]][j := s[i]]
  {
    var ch := buf[i];
    buf[i] := buf[j];
    buf[j] := ch;
  }

  // The characters from..to turned around, from both ends to the middle
  method ReverseInPlace(buf: array<char>, from: nat, to: nat)
    requires from < to <= buf.Length
    modifies buf
    ensures buf[..] == Put(old(buf[..]), from, Reversed(old(buf[..])[from..to]))
  {
    ghost var was := buf[..];
    var start, p := from, to - 1;
    assert PartReversed(was, buf[..], from, to, start, p);
    hide PartReversed, Put, Reversed;
    while start < p
      invariant from <= start <= p + 1 <= to
      invariant PartReversed(was, buf[..], from, to, start, p)
    {
      PartReversedNext(was, buf[..], from, to, start, p);
      Swap(buf, start, p);
      start, p := start + 1, p - 1;
    }
    AllReversed(was, buf[..], from, to, start, p);
  }

  lemma PutLast(s: string, sign: string, w: string)
    requires |sign + w| < |s|
    ensures Put(Put(s, 0, sign), |sign|, w) == Put(s, 0, sign + w)
    ensures Put(s, 0, sign + w)[|sign + w| := '\0'] == Put(s, 0, sign + w + "\0")
    ensures Put(s, 0, sign + w + "\0")[|sign|..|sign + w|] == w
  {
  }

  lemma PutFront(s: string, sign: string, w: string)
    requires |sign + w| < |s|
    ensures Put(s, 0, sign + w + "\0") == sign + w + ("\0" + s[|sign + w| + 1..])
  {
  }

  lemma PutMiddle(x: string, y: string, z: string, w: string)
    requires |w| == |y|
    ensures Put(x + y + z, |x|, w) == x + w + z
  {
    assert (x + y + z)[..|x|] == x && (x + y + z)[|x| + |y|..] == z;
  }

  lemma PutReversed(s: string, sign: string, w: string)
    requires |sign + w| < |s|
    ensures Put(Put(s, 0, sign + w + "\0"), |sign|, Reversed(w)) == Put(s, 0, sign + Reversed(w) + "\0")
  {
    hide Put;
    var r := Reversed(w);
    hide Reversed;
    PutFront(s, sign, w);
    PutFront(s, sign, r);
    PutMiddle(sign, w, "\0" + s[|sign + w| + 1..], r);
  }

  lemma Finished(s: string, sign: string, w: string)
    requires |sign + w| < |s|
    ensures var a := Put(Put(s, 0, sign), |sign|, w)[|sign + w| := '\0'];
            && a[|sign|..|sign + w|] == w
            && Put(a, |sign|, Reversed(w)) == Put(s, 0, sign + Reversed(w) + "\0")
  {
    PutLast(s, sign, w);
    PutReversed(s, sign, w);
    hide Put, Reversed;
  }

  // The text is the sign and the digits written lowest first, turned around.
  lemma FormattedParts(num: int, base: int, sign: string, w: string)
    requires Supported(base)
    requires if num < 0 && base == 10 then sign == "-" && w == Lowest(-num, base)
             else sign == "" && w == Lowest(Unsigned(num), base)
    ensures Formatted(num, base) == sign + Reversed(w) && |sign + w| == |Formatted(num, base)|
  {
    hide Lowest, Numeral, Reversed, Unsigned;
    LowestReversed(if num < 0 && base == 10 then -num else Unsigned(num), base);
  }

  // The sign, and the digits w lowest first
  method PutNumber(buf: array<char>, num: int, base: nat, ghost sign: string, ghost w: string)
    returns (start: nat, p: nat)
    requires IsInt(num) && Supported(base) && |sign + w| < buf.Length
    requires if num < 0 && base == 10 then sign == "-" && w == Lowest(-num, base)
             else sign == "" && w == Lowest(Unsigned(num), base)
    modifies buf
    ensures start == |sign| && p == |sign + w|
    ensures buf[..] == Put(Put(old(buf[..]), 0, sign), start, w)
  {
    hide *;
    PutNothing(buf[..], 0);
    assert "" + ['-'] == "-";
    if num < 0 && base == 10 {
      PutNext(buf[..], 0, "", '-');
      Store(buf, 0, '-');
      start := 1;
      p := PutNegative(buf, 1, num, base);
    } else {
      start := 0;
      p := PutUnsigned(buf, 0, Unsigned(num), base);
    }
  }

  // The number as text, and a NUL; nothing behind the NUL is written.
  method Itoa(buf: array<char>, num: int, base: int)
    requires IsInt(num) && |Formatted(num, base)| < buf.Length
    modifies buf
    ensures buf[..] == Put(old(buf[..]), 0, Formatted(num, base) + "\0")
  {
    ghost var was := buf[..];
    if base != 2 && base != 8 && base != 10 && base != 16 {
      PutNothing(was, 0);
      PutNext(was, 0, "", '\0');
      Store(buf, 0, '\0');
      return;
    }
    ghost var sign := if num < 0 && base == 10 then "-" else "";
    ghost var w := if num < 0 && base == 10 then Lowest(-num, 10) else Lowest(Unsigned(num), base);
    FormattedParts(num, base, sign, w);
    hide Put, Lowest, Numeral, Reversed, Unsigned, Formatted;
    var start, p := PutNumber(buf, num, base, sign, w);
    Finished(was, sign, w);
    Store(buf, p, '\0');
    ReverseInPlace(buf, start, p);
  }
}
