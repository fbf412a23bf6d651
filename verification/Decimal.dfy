/** The two decimal printers: serial_put_dec of boot/common/jz_serial.c and dump_dec of boot/common/debug.c. */
module Decimal {
  import opened MachineInt

  function Digit(d: nat): char
    requires d < 10
  {
    '0' + d as char
  }

  predicate AllDigits(s: string) {
    forall i :: 0 <= i < |s| ==> '0' <= s[i] <= '9'
  }

  /** The decimal notation of d */
  function Notation(d: nat): (s: string)
    ensures |s| > 0 && AllDigits(s)
  {
    if d < 10 then [Digit(d)] else Notation(d / 10) + [Digit(d % 10)]
  }

  /** The k low decimal digits of d */
  function LowDigits(d: nat, k: nat): (s: string)
    ensures |s| == k
  {
    if k == 0 then "" else LowDigits(d / 10, k - 1) + [Digit(d % 10)]
  }

  function Parse(s: string): nat
    requires AllDigits(s)
    decreases |s|
  {
    if s == "" then 0 else 10 * Parse(s[..|s| - 1]) + (s[|s| - 1] - '0') as nat
  }

  function Pow10(k: nat): (p: nat)
    ensures p > 0
  {
    if k == 0 then 1 else 10 * Pow10(k - 1)
  }

  // ----- the notation -----

  /** Reading the notation gives the number back. */
  lemma {:induction false} ParseNotation(d: nat)
    ensures Parse(Notation(d)) == d
  {
    if d >= 10 {
      ParseNotation(d / 10);
      var s := Notation(d);
      assert s[..|s| - 1] == Notation(d / 10);
    } else {
      assert Notation(d)[..0] == "";
    }
  }

  lemma {:induction false} NoLeadingZero(d: nat)
    requires d > 0
    ensures Notation(d)[0] != '0'
  {
    if d >= 10 {
      NoLeadingZero(d / 10);
    }
  }

  lemma {:induction false} NotationIsLowDigits(d: nat)
    ensures Notation(d) == LowDigits(d, |Notation(d)|)
  {
    if d < 10 {
      assert LowDigits(d, 1) == LowDigits(d / 10, 0) + [Digit(d % 10)];
    } else {
      NotationIsLowDigits(d / 10);
    }
  }

  /** d has more than k digits exactly when it is at least 10^k. */
  lemma {:induction false} DigitCount(d: nat, k: nat)
    requires k > 0
    ensures |Notation(d)| > k <==> d >= Pow10(k)
    decreases k
  {
    if k == 1 {
      assert Pow10(1) == 10;
      if d >= 10 {
        assert |Notation(d)| == |Notation(d / 10)| + 1;
      }
    } else if d >= 10 {
      DigitCount(d / 10, k - 1);
      DivAtLeast(d, Pow10(k - 1));
    }
  }

  lemma DivAtLeast(d: nat, p: nat)
    ensures d / 10 >= p <==> d >= 10 * p
  {}

  // ----- C's signed arithmetic -----

  /** x / 10 on int, which truncates toward zero */
  function Tenth(x: int): int {
    if x >= 0 then x / 10 else -((-x) / 10)
  }

  function Magnitude(x: int): nat {
    if x >= 0 then x else -x
  }

  lemma MagnitudeOfTenth(x: int)
    ensures Magnitude(Tenth(x)) == Magnitude(x) / 10
  {}

  // ----- serial_put_dec: least digit first, stored backwards -----

  /** The counting loop: the index of the last digit of x */
  method LastIndex(d: int) returns (j: nat)
    ensures j + 1 == |Notation(Magnitude(d))|
  {
    j := 0;
    var x := Tenth(d);
    MagnitudeOfTenth(d);
    while x != 0
      invariant |Notation(Magnitude(d))| == j + 1 + (if x == 0 then 0 else |Notation(Magnitude(x))|)
      decreases Magnitude(x)
    {
      MagnitudeOfTenth(x);
      j := j + 1;
      x := Tenth(x);
    }
  }

  lemma FillStep(rest: nat, k: nat, tail: string)
    requires k > 0
    ensures LowDigits(rest, k) + tail == LowDigits(rest / 10, k - 1) + ([Digit(rest % 10)] + tail)
  {}

  /** The filling loop: the digits of d from index j down to 0 */
  method FillDigits(c: array<char>, d: nat, j: nat)
    requires j < c.Length
    modifies c
    ensures c[..j + 1] == LowDigits(d, j + 1)
  {
    var rest := d;
    var i := j;
    while i >= 0
      invariant -1 <= i <= j
      invariant LowDigits(d, j + 1) == LowDigits(rest, i + 1) + c[i + 1..j + 1]
      decreases i
    {
      ghost var filled := c[i + 1..j + 1];
      FillStep(rest, i + 1, filled);
      c[i] := Digit(rest % 10);
      assert c[i..j + 1] == [Digit(rest % 10)] + filled;
      rest := rest / 10;
      i := i - 1;
    }
  }

  /** The text handed to serial_puts: as many low digits of d as the signed copy of d has, and a newline. */
  method SerialPutDec(d: nat) returns (text: string)
    requires d < WORD
    ensures text == LowDigits(d, |Notation(Magnitude(Signed(d)))|) + "\n"
  {
    var c := new char[16];
    var j := LastIndex(Signed(d));
    AtMostTen(Magnitude(Signed(d)));
    FillDigits(c, d, j);
    c[j + 1] := '\n';
    c[j + 2] := '\0';
    text := c[..j + 2];
  }

  lemma AtMostTen(d: nat)
    requires d <= WORD
    ensures |Notation(d)| <= 10
  {
    DigitCount(d, 10);
    Pow10At10();
  }

  lemma Pow10At10()
    ensures Pow10(9) == 1_000_000_000 && Pow10(10) == 10_000_000_000
  {
    assert Pow10(3) == 1_000;
    assert Pow10(6) == 1_000_000;
  }

  /** serial_put_dec prints the decimal notation exactly for d up to 2^32 - 10^9. */
  lemma SerialPutDecCorrectIff(d: nat)
    requires d < WORD
    ensures LowDigits(d, |Notation(Magnitude(Signed(d)))|) == Notation(d) <==> d <= WORD - 1_000_000_000
  {
    var m := Magnitude(Signed(d));
    NotationIsLowDigits(d);
    if d >= 0x8000_0000 {
      Pow10At10();
      AtMostTen(d);
      AtMostTen(m);
      DigitCount(d, 9);
      DigitCount(m, 9);
      assert |Notation(d)| == 10;
    }
  }

  lemma {:induction false} LowDigitsOfMod(d: nat, k: nat)
    ensures LowDigits(d, k) == LowDigits(d % Pow10(k), k)
  {
    if k == 0 {
    } else {
      LowDigitsOfMod(d / 10, k - 1);
      DivMod(d, Pow10(k - 1));
    }
  }

  lemma {:induction false} ParseSnoc(s: string, t: nat)
    requires AllDigits(s) && t < 10
    ensures AllDigits(s + [Digit(t)]) && Parse(s + [Digit(t)]) == 10 * Parse(s) + t
  {
    assert (s + [Digit(t)])[..|s|] == s;
  }

  lemma MoreDigits(d: nat, q: nat, p: nat, tenfold: nat, x: nat)
    requires d / 10 == q * p + x && tenfold == 10 * p && x < p
    ensures d == q * tenfold + (10 * x + d % 10) && 10 * x + d % 10 < tenfold
  {
    assert q * tenfold == 10 * (q * p);
  }

  lemma {:induction false} AboveLowDigits(d: nat, k: nat) returns (q: nat)
    ensures AllDigits(LowDigits(d, k)) && Parse(LowDigits(d, k)) < Pow10(k)
    ensures d == q * Pow10(k) + Parse(LowDigits(d, k))
  {
    if k == 0 {
      q := d;
    } else {
      q := AboveLowDigits(d / 10, k - 1);
      assert LowDigits(d, k) == LowDigits(d / 10, k - 1) + [Digit(d % 10)];
      ParseSnoc(LowDigits(d / 10, k - 1), d % 10);
      MoreDigits(d, q, Pow10(k - 1), Pow10(k), Parse(LowDigits(d / 10, k - 1)));
    }
  }

  /** Reading the k low digits of d gives d modulo 10^k. */
  lemma {:induction false} ParseLowDigits(d: nat, k: nat)
    ensures AllDigits(LowDigits(d, k)) && Parse(LowDigits(d, k)) == d % Pow10(k)
  {
    var q := AboveLowDigits(d, k);
    DivisionUnique(d, Pow10(k), q, Parse(LowDigits(d, k)));
  }

  lemma DivMod(d: nat, p: nat)
    requires p > 0
    ensures d % (10 * p) / 10 == d / 10 % p
    ensures d % (10 * p) % 10 == d % 10
  {
    var q, r := d / 10 / p, d / 10 % p;
    var x := 10 * r + d % 10;
    assert d / 10 == q * p + r;
    assert d == (10 * p) * q + x by {
      assert (10 * p) * q == 10 * (q * p);
    }
    DivisionUnique(d, 10 * p, q, x);
  }

  /** The smallest number it misprints, 3294967297, loses its first digit. */
  lemma SerialPutDecMisprints(d: nat, e: nat)
    requires d == WORD - 1_000_000_000 + 1 && e == d - 3_000_000_000
    ensures LowDigits(d, |Notation(Magnitude(Signed(d)))|) == Notation(e)
  {
    var m := Magnitude(Signed(d));
    Pow10At10();
    assert Pow10(8) == 100_000_000;
    DigitCount(m, 8);
    DigitCount(m, 9);
    DigitCount(e, 8);
    DigitCount(e, 9);
    LowDigitsOfMod(d, 9);
    NotationIsLowDigits(e);
  }

  // ----- dump_dec: most significant digit first -----

  lemma Tens(p: nat, a: nat, b: nat)
    requires b < 10
    ensures p * (10 * a + b) == (10 * p) * a + p * b
    ensures p * b + p <= 10 * p
  {
    assert p * b <= p * 9;
  }

  lemma TenthOfQuotient(m: nat, p: nat)
    requires p > 0
    ensures m / p / 10 == m / (10 * p)
  {
    var q, r := m / p, m % p;
    Tens(p, q / 10, q % 10);
    DivisionUnique(m, 10 * p, q / 10, p * (q % 10) + r);
  }

  /** The inner loop of dump_dec: num without its i - 1 low digits, and 10^(i - 1) */
  method DropDigits(num: int, i: nat) returns (tmp: int, mul: nat)
    requires i > 0
    ensures Magnitude(tmp) == Magnitude(num) / Pow10(i - 1)
    ensures (num >= 0 ==> tmp >= 0) && (num <= 0 ==> tmp <= 0)
    ensures mul == Pow10(i - 1)
  {
    tmp, mul := num, 1;
    var j := 1;
    while j < i
      invariant 1 <= j <= i && mul == Pow10(j - 1)
      invariant Magnitude(tmp) == Magnitude(num) / Pow10(j - 1)
      invariant (num >= 0 ==> tmp >= 0) && (num <= 0 ==> tmp <= 0)
    {
      MagnitudeOfTenth(tmp);
      TenthOfQuotient(Magnitude(num), Pow10(j - 1));
      tmp := Tenth(tmp);
      mul := mul * 10;
      j := j + 1;
    }
  }

  lemma LeadingDigit(m: nat, k: nat)
    requires k == |Notation(m)|
    ensures m > 0 ==> 0 < m / Pow10(k - 1) < 10
    ensures m < Pow10(k)
  {
    DigitCount(m, k);
    if k > 1 {
      DigitCount(m, k - 1);
    }
    if m > 0 {
      AtLeastOnce(m, Pow10(k - 1));
    }
  }

  lemma AtLeastOnce(m: nat, p: nat)
    requires p <= m < 10 * p && p > 0
    ensures 0 < m / p < 10
  {
    TenthOfQuotient(m, p);
    ModLess(m, 10 * p);
  }

  lemma ModLess(d: nat, p: nat)
    requires d < p
    ensures d % p == d && d / p == 0
  {
    DivisionUnique(d, p, 0, d);
  }

  function Quotient(x: nat, p: nat): (q: nat)
    requires p > 0
    ensures q == x / p
  {
    x / p
  }

  lemma TopDigit(num: nat, p: nat, t: nat)
    requires p > 0 && num < 10 * p && t == num / p
    ensures t < 10 && 0 <= num - t * p < p
  {
    TenthOfQuotient(num, p);
    ModLess(num, 10 * p);
    assert num == t * p + num % p;
  }

  lemma MoveDigit(done: nat, p: nat, t: nat)
    ensures (10 * done + t) * p == done * (10 * p) + t * p
  {}

  lemma LowDigitsSnoc(done: nat, t: nat, k: nat)
    requires t < 10
    ensures LowDigits(10 * done + t, k + 1) == LowDigits(done, k) + [Digit(t)]
  {}

  lemma DigitTable(tmp: nat)
    requires tmp < 10
    ensures "0123456789"[tmp] == Digit(tmp)
  {}

  /** The digit above the i - 1 low ones, and what is left of num without it */
  function HighDigit(num: nat, i: nat): nat
    requires i > 0 && num < WORD
  {
    Quotient(Magnitude(Signed(num)), Pow10(i - 1))
  }

  function WithoutHigh(num: nat, i: nat): int
    requires i > 0 && num < WORD
  {
    num - HighDigit(num, i) * Pow10(i - 1)
  }

  /** One pass of the outer loop of dump_dec: the character sent and what is left of num */
  method SendDigit(num: nat, i: nat) returns (ok: bool, c: char, rest: nat)
    requires i > 0 && num < WORD && HighDigit(num, i) < 10
    ensures Signed(num) >= 0 ==> ok && c == Digit(HighDigit(num, i)) && rest == WithoutHigh(num, i)
    ensures Signed(num) < 0 && HighDigit(num, i) > 0 ==> !ok
  {
    var alpha := "0123456789";
    var tmp, mul := DropDigits(Signed(num), i);
    ok, c, rest := 0 <= tmp < |alpha|, ' ', num;
    if ok {
      DigitTable(tmp);
      c := alpha[tmp];
      Leftover(num, tmp, mul);
      rest := (num - tmp * mul) % WORD;
    }
  }

  lemma Leftover(num: nat, tmp: nat, mul: nat)
    requires mul > 0 && num < WORD
    ensures tmp == num / mul ==> 0 <= num - tmp * mul < WORD && (num - tmp * mul) % WORD == num - tmp * mul
  {
    if tmp == num / mul {
      assert num == mul * tmp + num % mul;
      ModLess(num - tmp * mul, WORD);
    }
  }

  method CountDigits(num: int) returns (cnt: nat)
    ensures cnt == |Notation(Magnitude(num))|
  {
    cnt := 1;
    var tmp := Tenth(num);
    MagnitudeOfTenth(num);
    while tmp != 0
      invariant |Notation(Magnitude(num))| == cnt + (if tmp == 0 then 0 else |Notation(Magnitude(tmp))|)
      decreases Magnitude(tmp)
    {
      MagnitudeOfTenth(tmp);
      cnt := cnt + 1;
      tmp := Tenth(tmp);
    }
  }

  /** With i digits to go, text is the part of d above them and num is what they spell. */
  ghost predicate Printed(d: nat, done: nat, num: nat, i: nat, cnt: nat, text: string) {
    num <= d && num < Pow10(i) && d == done * Pow10(i) + num && i <= cnt && text == LowDigits(done, cnt - i)
  }

  lemma PrintedNext(d: nat, done: nat, num: nat, i: nat, cnt: nat, text: string, t: nat)
    requires i > 0 && Printed(d, done, num, i, cnt, text) && t == num / Pow10(i - 1)
    ensures t < 10 && 0 <= num - t * Pow10(i - 1)
    ensures Printed(d, 10 * done + t, num - t * Pow10(i - 1), i - 1, cnt, text + [Digit(t)])
  {
    TopDigit(num, Pow10(i - 1), t);
    MoveDigit(done, Pow10(i - 1), t);
    LowDigitsSnoc(done, t, cnt - i);
  }

  /** The invariant of the outer loop: from 2^31 on it ends in its first pass. */
  ghost predicate Underway(d: nat, done: nat, num: nat, i: nat, cnt: nat, text: string)
    requires d < WORD
  {
    if d < 0x8000_0000 then Printed(d, done, num, i, cnt, text)
    else num == d && i == cnt == |Notation(Magnitude(Signed(d)))|
  }

  lemma Start(d: nat, cnt: nat)
    requires d < WORD && cnt == |Notation(Magnitude(Signed(d)))|
    ensures cnt >= 1 && Underway(d, 0, d, cnt, cnt, "")
  {
    LeadingDigit(Magnitude(Signed(d)), cnt);
  }

  lemma {:induction false} End(d: nat, done: nat, num: nat, cnt: nat, text: string)
    requires d < WORD && cnt == |Notation(Magnitude(Signed(d)))| && Underway(d, done, num, 0, cnt, text)
    ensures d < 0x8000_0000 && text == Notation(d)
  {
    if d < 0x8000_0000 {
      assert Pow10(0) == 1 && done == d;
      NotationIsLowDigits(d);
    }
  }

  /** The next pass */
  lemma PassDigit(d: nat, done: nat, num: nat, i: nat, cnt: nat, text: string)
    requires num <= d < WORD && i >= 1 && Underway(d, done, num, i, cnt, text)
    ensures HighDigit(num, i) < 10
    ensures d < 0x8000_0000 ==> 0 <= WithoutHigh(num, i) <= d
    ensures d < 0x8000_0000 ==>
      Underway(d, 10 * done + HighDigit(num, i), WithoutHigh(num, i), i - 1, cnt, text + [Digit(HighDigit(num, i))])
    ensures d >= 0x8000_0000 ==> num == d && HighDigit(num, i) > 0
  {
    if d < 0x8000_0000 {
      PrintedNext(d, done, num, i, cnt, text, HighDigit(num, i));
    } else {
      LeadingDigit(Magnitude(Signed(d)), cnt);
    }
  }

  /** The characters sent, until the digit table is read outside its bounds (ok is then false). */
  method DumpDec(d: nat) returns (ok: bool, text: string)
    requires d < WORD
    ensures ok <==> d < 0x8000_0000
    ensures ok ==> text == Notation(d)
  {
    var num: nat := d;
    var cnt := CountDigits(Signed(num));
    Start(d, cnt);
    ok, text := true, "";
    var i := cnt;
    ghost var done: nat := 0;
    while i >= 1
      invariant 0 <= i <= cnt
      invariant num <= d && Underway(d, done, num, i, cnt, text)
      decreases i
    {
      PassDigit(d, done, num, i, cnt, text);
      ghost var t := HighDigit(num, i);
      var c;
      ok, c, num := SendDigit(num, i);
      if !ok {
        return;
      }
      done := 10 * done + t;
      text := text + [c];
      i := i - 1;
    }
    End(d, done, num, cnt, text);
  }

  /** Below 2^31 the two printers print the same digits. */
  method PrintersAgree(d: nat) returns (serial: string, debug: string)
    requires d < 0x8000_0000
    ensures serial == debug + "\n"
  {
    serial := SerialPutDec(d);
    var ok;
    ok, debug := DumpDec(d);
    SerialPutDecCorrectIff(d);
  }
}
