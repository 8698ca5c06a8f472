/** Printing of numbers in base 8, 10 and 16, and the width and precision that precede the conversion letter. */
module NumberPrinting {
  import opened Arithmetic
  import opened Sequences
  import opened Words
  import opened Wrappers

  const BUFFER_SIZE: nat := 40

  /** The bases and correction factors that the print functions use. */
  predicate Notation(base: nat, corr: nat) {
    base == 8 || base == 10 || (base == 16 && (corr == 0x60 || corr == 0x40))
  }

  /** The calls of the print functions for %d, %u, %x, %X and %o. */
  lemma NotationsPrinted()
    ensures Notation(10, 0) && Notation(16, 0x60) && Notation(16, 0x40) && Notation(8, 0)
    ensures forall base, corr :: Notation(base, corr) ==> base == 8 || base == 10 || base == 16
  {
  }

  function DigitChar(d: nat, base: nat, corr: nat): char
    requires Notation(base, corr) && d < base
  {
    if d <= 9 then (d + '0' as int) as char else (d + corr - 9) as char
  }

  /** The digits are those of the notation, in order. */
  lemma DigitCharIs(d: nat, base: nat, corr: nat)
    requires Notation(base, corr) && d < base
    ensures DigitChar(d, base, corr) == (if corr == 0x40 then "0123456789ABCDEF" else "0123456789abcdef")[d]
  {
  }

  /** The digit that a character stands for. */
  function DigitValue(c: char, base: nat, corr: nat): (d: Option<nat>)
    requires Notation(base, corr)
    ensures d.Some? ==> d.value < base && DigitChar(d.value, base, corr) == c
  {
    var plain, letter := c as int - '0' as int, c as int - corr + 9;
    if 0 <= plain <= 9 && plain < base then Some(plain)
    else if 10 <= letter < base then Some(letter)
    else None
  }

  /** The number that a text stands for, read from left to right. */
  function ReadNumber(text: string, base: nat, corr: nat): Option<nat>
    requires Notation(base, corr)
  {
    if text == "" then Some(0)
    else
      match (ReadNumber(text[..|text| - 1], base, corr), DigitValue(text[|text| - 1], base, corr))
      case (Some(high), Some(low)) => Some(base * high + low)
      case _ => None
  }

  /** The digits of n, without leading zeros except for zero itself. */
  function Digits(n: nat, base: nat, corr: nat): (text: string)
    requires Notation(base, corr)
    ensures |text| > 0
  {
    if n < base then [DigitChar(n, base, corr)]
    else Digits(n / base, base, corr) + [DigitChar(n % base, base, corr)]
  }

  /** Each digit, counted from the left, is that of the number's expansion in the base. */
  lemma {:induction false} DigitAt(n: nat, base: nat, corr: nat, i: nat)
    requires Notation(base, corr) && i < |Digits(n, base, corr)|
    ensures Digits(n, base, corr)[i] ==
            DigitChar(n / Power(base, |Digits(n, base, corr)| - 1 - i) % base, base, corr)
    decreases n
  {
    hide DigitChar;
    var k := |Digits(n, base, corr)| - 1;
    if n >= base && i < k {
      QuotientSmaller(n, base);
      DigitAt(n / base, base, corr, i);
      DivDiv(n, base, Power(base, k - 1 - i));
    }
  }

  function Repeated(c: char, count: int): (text: string)
    ensures |text| == (if count > 0 then count else 0)
  {
    seq(if count > 0 then count else 0, _ => c)
  }

  /** The digits of n, filled up with zeros to the given precision. */
  function Numeral(n: nat, base: nat, corr: nat, precision: int): string
    requires Notation(base, corr)
  {
    var digits := Digits(n, base, corr);
    Repeated('0', precision - |digits|) + digits
  }

  /** Reading the digits gives the number back. */
  lemma {:induction false} ReadDigits(n: nat, base: nat, corr: nat)
    requires Notation(base, corr)
    ensures ReadNumber(Digits(n, base, corr), base, corr) == Some(n)
    decreases n
  {
    hide ReadNumber, DigitValue, DigitChar;
    if n < base {
      ReadNothing(base, corr);
      ReadOneMore("", n, base, corr);
      assert "" + [DigitChar(n, base, corr)] == [DigitChar(n, base, corr)];
    } else {
      ReadDigits(n / base, base, corr);
      ReadOneMore(Digits(n / base, base, corr), n % base, base, corr);
    }
  }

  lemma ReadNothing(base: nat, corr: nat)
    requires Notation(base, corr)
    ensures ReadNumber("", base, corr) == Some(0)
  {
  }

  lemma ReadOneMore(text: string, d: nat, base: nat, corr: nat)
    requires Notation(base, corr) && d < base && ReadNumber(text, base, corr).Some?
    ensures ReadNumber(text + [DigitChar(d, base, corr)], base, corr) ==
            Some(base * ReadNumber(text, base, corr).value + d)
  {
    DigitRead(d, base, corr);
    hide Notation, DigitChar, DigitValue;
    var all := text + [DigitChar(d, base, corr)];
    assert all[..|all| - 1] == text && all[|all| - 1] == DigitChar(d, base, corr);
  }

  lemma DigitRead(d: nat, base: nat, corr: nat)
    requires Notation(base, corr) && d < base
    ensures DigitValue(DigitChar(d, base, corr), base, corr) == Some(d)
  {
  }

  /** Leading zeros do not change the number. */
  lemma {:induction false} ReadZeros(k: int, text: string, base: nat, corr: nat)
    requires Notation(base, corr)
    ensures ReadNumber(Repeated('0', k) + text, base, corr) == ReadNumber(text, base, corr)
    decreases |text|, k
  {
    var all := Repeated('0', k) + text;
    if text != "" {
      ReadZeros(k, text[..|text| - 1], base, corr);
      assert all[..|all| - 1] == Repeated('0', k) + text[..|text| - 1];
    } else if k > 0 {
      ReadZeros(k - 1, text, base, corr);
      assert all[..|all| - 1] == Repeated('0', k - 1) + text;
    }
  }

  lemma NumeralReadsBack(n: nat, base: nat, corr: nat, precision: int)
    requires Notation(base, corr)
    ensures ReadNumber(Numeral(n, base, corr, precision), base, corr) == Some(n)
    ensures |Numeral(n, base, corr, precision)| ==
            if precision > |Digits(n, base, corr)| then precision else |Digits(n, base, corr)|
  {
    var digits := Digits(n, base, corr);
    ReadDigits(n, base, corr);
    ReadZeros(precision - |digits|, digits, base, corr);
  }

  /** A text is determined by its length and the number it stands for. */
  lemma {:induction false} ReadingIsInjective(s: string, t: string, base: nat, corr: nat)
    requires Notation(base, corr) && |s| == |t|
    requires ReadNumber(s, base, corr).Some? && ReadNumber(s, base, corr) == ReadNumber(t, base, corr)
    ensures s == t
  {
    if s != "" {
      var k := |s| - 1;
      var m, n := ReadNumber(s[..k], base, corr).value, ReadNumber(t[..k], base, corr).value;
      var d, e := DigitValue(s[k], base, corr).value, DigitValue(t[k], base, corr).value;
      DivModUnique(base * m + d, base, m, d);
      DivModUnique(base * n + e, base, n, e);
      ReadingIsInjective(s[..k], t[..k], base, corr);
      assert s == s[..k] + [s[k]] && t == t[..k] + [t[k]];
    }
  }

  /** No shorter text stands for the same number. */
  lemma {:induction false} DigitsAreFewest(text: string, n: nat, base: nat, corr: nat)
    requires Notation(base, corr) && text != "" && ReadNumber(text, base, corr) == Some(n)
    ensures |Digits(n, base, corr)| <= |text|
    decreases |text|
  {
    if n >= base {
      var k := |text| - 1;
      var high, low := ReadNumber(text[..k], base, corr).value, DigitValue(text[k], base, corr).value;
      DivModUnique(n, base, high, low);
      DigitsAreFewest(text[..k], high, base, corr);
    }
  }

  /** At most k digits are needed below 8^k. */
  lemma {:induction false} DigitsFit(n: nat, base: nat, corr: nat, k: nat)
    requires Notation(base, corr) && k > 0 && n < Pow2(3 * k)
    ensures |Digits(n, base, corr)| <= k
  {
    if n >= base {
      assert n == base * (n / base) + n % base;
      assert Pow2(3 * k) == 2 * Pow2(3 * k - 1) == 4 * Pow2(3 * k - 2) == 8 * Pow2(3 * k - 3);
      DigitsFit(n / base, base, corr, k - 1);
    }
  }

  lemma ElevenDigits(n: nat, base: nat, corr: nat)
    requires Notation(base, corr) && n < TWO32
    ensures |Digits(n, base, corr)| <= 11
  {
    PowerOfTwo32();
    DigitsFit(n, base, corr, 11);
  }

  lemma PowerOfTwo32()
    ensures Pow2(33) >= TWO32
  {
    assert Pow2(11) == 0x800;
    assert Pow2(22) == 0x40_0000;
  }

  // ---------- What is printed ----------

  predicate IsNegative(v: int, sign: int) {
    sign == 1 && v < 0
  }

  /** The unsigned number printed for v: its magnitude, or its value modulo 2^32. */
  function Magnitude(v: int, sign: int): (n: nat)
    requires -0x8000_0000 <= v < TWO32
    ensures n < TWO32
  {
    if IsNegative(v, sign) then -v else v % TWO32
  }

  function Shown(v: int, base: nat, corr: nat, sign: int, precision: int): string
    requires Notation(base, corr) && -0x8000_0000 <= v < TWO32
  {
    (if IsNegative(v, sign) then "-" else "") + Numeral(Magnitude(v, sign), base, corr, precision)
  }

  /** The number of spaces in front: the sign is not counted if zeros were filled in. */
  function Padding(v: int, base: nat, corr: nat, sign: int, width: int, precision: int): int
    requires Notation(base, corr) && -0x8000_0000 <= v < TWO32
  {
    var digits := |Digits(Magnitude(v, sign), base, corr)|;
    width - if precision > digits then precision else digits + if IsNegative(v, sign) then 1 else 0
  }

  lemma MagnitudeIs(v: int, sign: int)
    requires -0x8000_0000 <= v < TWO32
    ensures Magnitude(v, sign) == (if sign == 1 && v < 0 then -v else v % TWO32)
    ensures IsNegative(v, sign) <==> sign == 1 && v < 0
  {
  }

  lemma PaddingIs(v: int, base: nat, corr: nat, sign: int, width: int, precision: int)
    requires Notation(base, corr) && -0x8000_0000 <= v < TWO32
    ensures var digits := |Digits(Magnitude(v, sign), base, corr)|;
            Padding(v, base, corr, sign, width, precision) ==
            width - if precision > digits then precision else digits + if IsNegative(v, sign) then 1 else 0
  {
  }

  function Printed(v: int, base: nat, corr: nat, sign: int, width: int, precision: int): string
    requires Notation(base, corr) && -0x8000_0000 <= v < TWO32
  {
    Repeated(' ', Padding(v, base, corr, sign, width, precision)) + Shown(v, base, corr, sign, precision)
  }

  lemma PrintedParts(before: string, v: int, base: nat, corr: nat, sign: int, width: int, precision: int)
    requires Notation(base, corr) && -0x8000_0000 <= v < TWO32
    ensures var spaces := Repeated(' ', Padding(v, base, corr, sign, width, precision));
            var shown := Shown(v, base, corr, sign, precision);
            && before + spaces + shown == before + Printed(v, base, corr, sign, width, precision)
            && |spaces| + |shown| == |Printed(v, base, corr, sign, width, precision)|
  {
  }

  /** The signed number that a padded text stands for. */
  function ReadPrinted(text: string, base: nat, corr: nat): Option<int>
    requires Notation(base, corr)
  {
    if text != "" && text[0] == ' ' then ReadPrinted(text[1..], base, corr)
    else
      var negative := text != "" && text[0] == '-';
      match ReadNumber(if negative then text[1..] else text, base, corr)
      case Some(n) => Some((if negative then -1 else 1) * n)
      case None => None
  }

  lemma {:induction false} SpacesSkipped(k: int, text: string, base: nat, corr: nat)
    requires Notation(base, corr) && text != "" && text[0] != ' '
    ensures ReadPrinted(Repeated(' ', k) + text, base, corr) == ReadPrinted(text, base, corr)
    decreases k
  {
    var all := Repeated(' ', k) + text;
    if k > 0 {
      SpacesSkipped(k - 1, text, base, corr);
      assert all[1..] == Repeated(' ', k - 1) + text;
    } else {
      assert all == text;
    }
  }

  lemma {:induction false} DigitsStartWithDigit(n: nat, base: nat, corr: nat)
    requires Notation(base, corr)
    ensures Digits(n, base, corr)[0] != ' ' && Digits(n, base, corr)[0] != '-'
    decreases n
  {
    if n >= base {
      DigitsStartWithDigit(n / base, base, corr);
    }
  }

  /** Whatever the width and the precision, the number printed reads back with its sign. */
  lemma PrintedReadsBack(v: int, base: nat, corr: nat, sign: int, width: int, precision: int)
    requires Notation(base, corr) && -0x8000_0000 <= v < TWO32
    ensures ReadPrinted(Printed(v, base, corr, sign, width, precision), base, corr) ==
            Some(if sign == 1 && v < 0 then v else v % TWO32)
  {
    hide ReadNumber, Digits, Notation, Padding;
    var n := Magnitude(v, sign);
    var numeral, shown := Numeral(n, base, corr, precision), Shown(v, base, corr, sign, precision);
    DigitsStartWithDigit(n, base, corr);
    NumeralReadsBack(n, base, corr, precision);
    assert IsNegative(v, sign) ==> shown[1..] == numeral;
    assert !IsNegative(v, sign) ==> shown == numeral;
    SpacesSkipped(Padding(v, base, corr, sign, width, precision), shown, base, corr);
  }

  /** The width is met exactly, unless a sign stands in front of filled-in zeros: then it is one too many. */
  lemma PrintedWidth(v: int, base: nat, corr: nat, sign: int, width: int, precision: int)
    requires Notation(base, corr) && -0x8000_0000 <= v < TWO32
    ensures var shown := |Shown(v, base, corr, sign, precision)|;
            var printed := |Printed(v, base, corr, sign, width, precision)|;
            var digits := |Digits(Magnitude(v, sign), base, corr)|;
            && (printed == (if width > shown then width else shown) <==>
                !(sign == 1 && v < 0 && digits < precision < width))
            && (sign == 1 && v < 0 && digits < precision < width ==> printed == width + 1)
  {
  }

  /** The case exists within the buffer: %4.3d prints " -005" for -5, which is five characters wide. */
  lemma WidthExceeded()
    ensures Printed(-5, 10, 0, 1, 4, 3) == " -005"
    ensures 3 + (if IsNegative(-5, 1) then 1 else 0) < BUFFER_SIZE
  {
    var digits := Digits(5, 10, 0);
    assert digits == "5";
    assert Repeated('0', 2) + digits == "005";
    assert Repeated(' ', 1) + ("-" + "005") == " -005";
  }

  // ---------- Reversal in place ----------

  /** The characters before the terminator. */
  ghost predicate Terminated(s: seq<char>, len: nat) {
    len < |s| && s[len] == '\0' && forall i :: 0 <= i < len ==> s[i] != '\0'
  }

  method StrLen(str: array<char>, ghost bound: nat) returns (len: nat)
    requires Terminated(str[..], bound)
    ensures len == bound
  {
    len := 0;
    while str[len] != '\0'
      invariant len <= bound
      decreases bound - len
    {
      len := len + 1;
    }
  }

  method StrRev(str: array<char>, ghost len: nat)
    requires Terminated(str[..], len)
    modifies str
    ensures str[..len] == Reversed(old(str[..len])) && str[len..] == old(str[len..])
    ensures Terminated(str[..], len)
  {
    hide Reversed;
    ghost var was := str[..len];
    var n := StrLen(str, len);
    var i, j: int := 0, n - 1;
    while i < j
      invariant 0 <= i <= n && j == n - 1 - i && i <= j + 2
      invariant forall k :: 0 <= k < i ==> str[k] == was[n - 1 - k] && str[n - 1 - k] == was[k]
      invariant forall k :: i <= k < n - i ==> str[k] == was[k]
      invariant str[n..] == old(str[n..])
    {
      str[i], str[j] := str[j], str[i];
      i := i + 1;
      j := j - 1;
    }
    ReversedFrom(was, str[..len]);
    assert str[n] == str[n..][0];
  }

  // ---------- The digit buffer ----------

  /** The digits that the remaining quotient contributes. */
  function HighDigits(n: nat, base: nat, corr: nat): string
    requires Notation(base, corr)
  {
    if n > 0 then Digits(n, base, corr) else ""
  }

  lemma DigitsStep(n: nat, base: nat, corr: nat)
    requires Notation(base, corr) && n > 0
    ensures HighDigits(n, base, corr) == HighDigits(n / base, base, corr) + [DigitChar(n % base, base, corr)]
  {
    if n < base {
      DivModUnique(n, base, 0, n);
    } else {
      assert n == base * (n / base) + n % base;
    }
  }

  lemma WrittenStep(high: string, c: char, before: string)
    ensures high + Reversed(before + [c]) == high + [c] + Reversed(before)
  {
    ReversedSnoc(before, c);
  }

  lemma QuotientSmaller(n: nat, base: nat)
    requires n > 0 && base > 1
    ensures 0 <= n / base < n
  {
    var q := n / base;
    assert n == base * q + n % base;
    MultipleOutsideRange(base, q);
    ProductAtMost(q, 2, base);
  }

  /** The digits are produced in reverse order. */
  method WriteDigits(s1: array<char>, n: nat, base: nat, corr: nat) returns (cntr: nat)
    requires Notation(base, corr) && |Digits(n, base, corr)| <= s1.Length
    modifies s1
    ensures cntr == |Digits(n, base, corr)| && Reversed(s1[..cntr]) == Digits(n, base, corr)
  {
    hide Digits, DigitChar, Reversed;
    var temp := n;
    cntr := 0;
    if temp == 0 {
      s1[cntr] := '0';
      cntr := cntr + 1;
      ZeroDigit(base, corr, s1[..cntr]);
    }
    while temp > 0
      invariant temp >= 0 && cntr <= s1.Length
      invariant HighDigits(temp, base, corr) + Reversed(s1[..cntr]) == Digits(n, base, corr)
      decreases temp
    {
      DigitsStep(temp, base, corr);
      QuotientSmaller(temp, base);
      var i1 := temp % base;
      temp := temp / base;
      WrittenStep(HighDigits(temp, base, corr), DigitChar(i1, base, corr), s1[..cntr]);
      ghost var before := s1[..cntr];
      s1[cntr] := DigitChar(i1, base, corr);
      cntr := cntr + 1;
      assert s1[..cntr] == before + [DigitChar(i1, base, corr)];
    }
    assert "" + Reversed(s1[..cntr]) == Reversed(s1[..cntr]);
  }

  lemma ZeroDigit(base: nat, corr: nat, text: string)
    requires Notation(base, corr) && text == "0"
    ensures HighDigits(0, base, corr) + Reversed(text) == Digits(0, base, corr)
  {
    assert text[..0] == "";
  }

  /** Zeros are added until there are as many digits as the precision asks for. */
  method FillUp(s1: array<char>, used: nat, precision: int) returns (cntr: nat)
    requires used <= s1.Length && precision <= s1.Length
    modifies s1
    ensures used <= cntr <= s1.Length && (cntr == used || cntr == precision)
    ensures Reversed(s1[..cntr]) == Repeated('0', precision - used) + old(Reversed(s1[..used]))
  {
    hide Reversed, Repeated;
    ghost var low := Reversed(s1[..used]);
    NothingFilled(precision - used, low);
    cntr := used;
    while precision - cntr > 0
      invariant used <= cntr <= s1.Length && (cntr == used || cntr <= precision)
      invariant Reversed(s1[..cntr]) == Repeated('0', cntr - used) + low
    {
      ghost var before := s1[..cntr];
      OneMoreZero(before, cntr - used, low);
      s1[cntr] := '0';
      cntr := cntr + 1;
      assert s1[..cntr] == before + ['0'];
    }
  }

  lemma NothingFilled(k: int, low: string)
    ensures Repeated('0', 0) + low == low && (k <= 0 ==> Repeated('0', k) == Repeated('0', 0))
  {
  }

  lemma OneMoreZero(before: string, k: nat, low: string)
    requires Reversed(before) == Repeated('0', k) + low
    ensures Reversed(before + ['0']) == Repeated('0', k + 1) + low
  {
    ReversedSnoc(before, '0');
    assert ['0'] + Repeated('0', k) == Repeated('0', k + 1);
  }

  /** The sign and the terminator end the reversed text. */
  method Finish(s1: array<char>, used: nat, neg: nat) returns (cntr: nat)
    requires used + neg < s1.Length && neg <= 1
    modifies s1
    ensures cntr == used + neg && s1[cntr] == '\0'
    ensures Reversed(s1[..cntr]) == (if neg == 1 then "-" else "") + old(Reversed(s1[..used]))
  {
    cntr := used;
    if neg == 1 {
      ReversedSnoc(s1[..cntr], '-');
      ghost var before := s1[..cntr];
      s1[cntr] := '-';
      cntr := cntr + 1;
      assert s1[..cntr] == before + ['-'];
    }
    ghost var text := s1[..cntr];
    s1[cntr] := '\0';
    assert s1[..cntr] == text;
  }

  /** Neither a terminator nor a newline occurs. */
  ghost predicate Plain(text: string) {
    forall i :: 0 <= i < |text| ==> text[i] != '\0' && text[i] != '\n'
  }

  lemma {:induction false} DigitsPlain(n: nat, base: nat, corr: nat)
    requires Notation(base, corr)
    ensures Plain(Digits(n, base, corr))
    decreases n
  {
    if n >= base {
      DigitsPlain(n / base, base, corr);
    }
  }

  lemma ShownPlain(v: int, base: nat, corr: nat, sign: int, precision: int)
    requires Notation(base, corr) && -0x8000_0000 <= v < TWO32
    ensures Plain(Shown(v, base, corr, sign, precision))
  {
    DigitsPlain(Magnitude(v, sign), base, corr);
  }

  lemma PlainReversed(s: string)
    requires Plain(Reversed(s))
    ensures Plain(s)
  {
    forall i | 0 <= i < |s|
      ensures s[i] != '\0' && s[i] != '\n'
    {
      ReversedAt(s, |s| - 1 - i);
    }
  }

  /** Zeros, sign and terminator are added to the digits, and the text is put in the right order. */
  method Compose(s1: array<char>, used: nat, precision: int, neg: nat,
                 ghost v: int, ghost base: nat, ghost corr: nat, ghost sign: int)
    returns (cntr: nat)
    requires Notation(base, corr) && -0x8000_0000 <= v < TWO32 && neg == (if IsNegative(v, sign) then 1 else 0)
    requires used + neg < s1.Length && precision + neg < s1.Length
    requires used == |Digits(Magnitude(v, sign), base, corr)|
    requires Reversed(s1[..used]) == Digits(Magnitude(v, sign), base, corr)
    modifies s1
    ensures Terminated(s1[..], cntr) && s1[..cntr] == Shown(v, base, corr, sign, precision)
    ensures '\n' !in Shown(v, base, corr, sign, precision)
  {
    hide Digits, Reversed, Repeated, Magnitude;
    cntr := FillUp(s1, used, precision);
    cntr := Finish(s1, cntr, neg);
    ShownPlain(v, base, corr, sign, precision);
    PlainReversed(s1[..cntr]);
    StrRev(s1, cntr);
  }

  // ---------- Width and precision ----------

  /** Puts a carriage return before every newline. */
  function Expanded(text: string): string {
    if text == "" then ""
    else Expanded(text[..|text| - 1]) + (if text[|text| - 1] == '\n' then "\r\n" else [text[|text| - 1]])
  }

  lemma ExpandedSnoc(text: string, c: char)
    ensures Expanded(text + [c]) == Expanded(text) + Expanded([c])
  {
    assert (text + [c])[..|text|] == text && [c][..0] == "";
  }

  /** A text is sent character by character. */
  lemma {:induction false} ExpandedConcat(text: string, more: string)
    ensures Expanded(text + more) == Expanded(text) + Expanded(more)
  {
    hide Expanded;
    ExpandedChars();
    if more == "" {
      assert text + more == text;
    } else {
      var n := |more| - 1;
      ExpandedConcat(text, more[..n]);
      assert text + more == text + more[..n] + [more[n]] && more == more[..n] + [more[n]];
      ExpandedSnoc(text + more[..n], more[n]);
      ExpandedSnoc(more[..n], more[n]);
    }
  }

  /** A newline is sent as two characters, any other as itself. */
  lemma ExpandedChars()
    ensures Expanded("") == "" && forall c: char :: Expanded([c]) == if c == '\n' then "\r\n" else [c]
  {
    forall c: char
      ensures Expanded([c]) == if c == '\n' then "\r\n" else [c]
    {
      assert [c][..0] == "";
    }
  }

  lemma {:induction false} ExpandedPlain(text: string)
    requires '\n' !in text
    ensures Expanded(text) == text
  {
    if text != "" {
      ExpandedPlain(text[..|text| - 1]);
    }
  }

  /** The number of decimal digits at the start of a text. */
  function DigitRun(text: string): (k: nat)
    ensures k <= |text| && (k < |text| ==> !('0' <= text[k] <= '9'))
    ensures forall i :: 0 <= i < k ==> '0' <= text[i] <= '9'
  {
    if text == "" || !('0' <= text[0] <= '9') then 0 else 1 + DigitRun(text[1..])
  }

  lemma {:induction false} DigitRunIs(text: string, k: nat)
    requires k <= |text| && (k < |text| ==> !('0' <= text[k] <= '9'))
    requires forall i :: 0 <= i < k ==> '0' <= text[i] <= '9'
    ensures DigitRun(text) == k
  {
    if k > 0 {
      DigitRunIs(text[1..], k - 1);
    }
  }

  /** What a width and precision text asks for; the result is -1 for a malformed one, which is echoed from there on. */
  datatype Format = Format(width: nat, precision: nat, result: int, echoed: string)

  function Decimal(text: string): nat {
    match ReadNumber(text, 10, 0)
    case Some(n) => n
    case None => 0
  }

  function ParseFormat(text: string, flag: int): Format {
    var w := DigitRun(text);
    var width := Decimal(text[..w]);
    if text == "" && flag == 1 then Format(0, 3, 0, "")
    else if w == |text| then Format(width, 0, width, "")
    else if text[w] != '.' then Format(width, 0, -1, text[w..])
    else ParsePrecision(width, text[w + 1..])
  }

  function ParsePrecision(width: nat, text: string): (f: Format)
    ensures f.width == width
  {
    var p := DigitRun(text);
    Format(width, Decimal(text[..p]), if p == |text| then 0 else -1, text[p..])
  }

  lemma Parsed(text: string, flag: int, i: nat)
    requires (text != "" || flag != 1) && i <= |text| && (i < |text| ==> !('0' <= text[i] <= '9'))
    requires forall k :: 0 <= k < i ==> '0' <= text[k] <= '9'
    ensures var width := Decimal(text[..i]);
            ParseFormat(text, flag) ==
            if i == |text| then Format(width, 0, width, "")
            else if text[i] != '.' then Format(width, 0, -1, text[i..])
            else ParsePrecision(width, text[i + 1..])
  {
    DigitRunIs(text, i);
  }

  lemma ParsedPrecision(width: nat, text: string, p: nat)
    requires p <= |text| && (p < |text| ==> !('0' <= text[p] <= '9'))
    requires forall k :: 0 <= k < p ==> '0' <= text[k] <= '9'
    ensures ParsePrecision(width, text) == Format(width, Decimal(text[..p]), if p == |text| then 0 else -1, text[p..])
  {
    DigitRunIs(text, p);
  }

  lemma EmptyParsed()
    ensures ParseFormat("", 1) == Format(0, 3, 0, "")
  {
  }

  /** Only decimal digits read as a decimal number. */
  lemma {:induction false} DecimalHasDigits(text: string, i: nat)
    requires ReadNumber(text, 10, 0).Some? && i < |text|
    ensures '0' <= text[i] <= '9'
  {
    if i < |text| - 1 {
      DecimalHasDigits(text[..|text| - 1], i);
    }
  }

  lemma RunOfDecimal(number: string, rest: string)
    requires ReadNumber(number, 10, 0).Some? && (rest != "" ==> !('0' <= rest[0] <= '9'))
    ensures DigitRun(number + rest) == |number| && (number + rest)[..|number|] == number
  {
    forall i | 0 <= i < |number|
      ensures '0' <= (number + rest)[i] <= '9'
    {
      DecimalHasDigits(number, i);
    }
    DigitRunIs(number + rest, |number|);
  }

  /** Digits alone are the width; digits before anything but a point are a malformed text, echoed from there on. */
  lemma WidthExactly(digits: string, rest: string, flag: int)
    requires ReadNumber(digits, 10, 0).Some?
    requires rest != "" ==> !('0' <= rest[0] <= '9') && rest[0] != '.'
    ensures var width := ReadNumber(digits, 10, 0).value;
            ParseFormat(digits + rest, flag) ==
            if digits == "" && rest == "" && flag == 1 then Format(0, 3, 0, "")
            else if rest == "" then Format(width, 0, width, "")
            else Format(width, 0, -1, rest)
  {
    hide ReadNumber, DigitRun;
    ReadNothing(10, 0);
    RunOfDecimal(digits, rest);
    assert (digits + rest)[|digits|..] == rest;
  }

  /** Behind a point digits are the precision, and anything else is echoed in the same way. */
  lemma PrecisionExactly(digits: string, more: string, rest: string, flag: int)
    requires ReadNumber(digits, 10, 0).Some? && ReadNumber(more, 10, 0).Some?
    requires rest != "" ==> !('0' <= rest[0] <= '9')
    ensures ParseFormat(digits + "." + more + rest, flag) ==
            Format(ReadNumber(digits, 10, 0).value, ReadNumber(more, 10, 0).value,
                   if rest == "" then 0 else -1, rest)
  {
    hide ReadNumber, DigitRun, ParseFormat, ParsePrecision;
    var behind := more + rest;
    var text := digits + "." + more + rest;
    TextParts(digits, more, rest);
    AllDigits(digits, "." + behind);
    AllDigits(more, rest);
    Parsed(text, flag, |digits|);
    ParsedPrecision(ReadNumber(digits, 10, 0).value, behind, |more|);
  }

  lemma TextParts(digits: string, more: string, rest: string)
    ensures var text, behind := digits + "." + more + rest, more + rest;
            && text == digits + ("." + behind) && text[|digits|] == '.'
            && text[..|digits|] == digits && text[|digits| + 1..] == behind
            && behind[..|more|] == more && behind[|more|..] == rest
  {
  }

  lemma AllDigits(number: string, rest: string)
    requires ReadNumber(number, 10, 0).Some?
    ensures forall k :: 0 <= k < |number| ==> '0' <= (number + rest)[k] <= '9'
  {
    hide ReadNumber;
    forall k | 0 <= k < |number|
      ensures '0' <= (number + rest)[k] <= '9'
    {
      DecimalHasDigits(number, k);
    }
  }

  /** A printed width alone is understood as that width. */
  lemma WidthUnderstood(width: nat, i: int, flag: int)
    ensures ParseFormat(Numeral(width, 10, 0, i), flag) == Format(width, 0, width, "")
  {
    hide ReadNumber, DigitRun, ParseFormat;
    var w := Numeral(width, 10, 0, i);
    NumeralReadsBack(width, 10, 0, i);
    WidthExactly(w, "", flag);
    assert w + "" == w;
  }

  /** A printed width, a point and a printed precision are understood as those two numbers. */
  lemma FormatUnderstood(width: nat, precision: nat, i: int, j: int, flag: int)
    ensures ParseFormat(Numeral(width, 10, 0, i) + "." + Numeral(precision, 10, 0, j), flag) ==
            Format(width, precision, 0, "")
  {
    hide ReadNumber, Numeral, ParseFormat;
    var w, p := Numeral(width, 10, 0, i), Numeral(precision, 10, 0, j);
    NumeralReadsBack(width, 10, 0, i);
    NumeralReadsBack(precision, 10, 0, j);
    PrecisionExactly(w, p, "", flag);
    assert w + "." + p + "" == w + "." + p;
  }

  lemma ReadPrefix(text: string, i: nat, v: nat)
    requires i < |text| && '0' <= text[i] <= '9' && ReadNumber(text[..i], 10, 0) == Some(v)
    ensures ReadNumber(text[..i + 1], 10, 0) == Some(v * 10 + (text[i] as int - '0' as int))
  {
    assert text[..i + 1][..i] == text[..i];
  }

  lemma NoSpace(sent: string, gap: int)
    ensures sent + Repeated(' ', 0) == sent && (gap <= 0 ==> Repeated(' ', gap) == Repeated(' ', 0))
  {
  }

  lemma OneMoreSpace(sent: string, k: nat)
    ensures sent + Repeated(' ', k) + Expanded([' ']) == sent + Repeated(' ', k + 1)
  {
    ExpandedPlain([' ']);
    assert Repeated(' ', k) + [' '] == Repeated(' ', k + 1);
  }

  // ---------- The printer ----------

  /** The global state of the print functions: width, precision, characters counted and characters sent. */
  class Printer {
    var leftVal: int
    var rightVal: int
    var count: int
    var output: string

    constructor ()
      ensures leftVal == rightVal == count == 0 && output == ""
    {
      leftVal, rightVal, count, output := 0, 0, 0, "";
    }

    method PutChar(c: char)
      modifies this`output
      ensures output == old(output) + if c == '\n' then "\r\n" else [c]
      ensures output == old(output) + Expanded([c])
    {
      if c == '\n' {
        output := output + ['\r'];
      }
      output := output + [c];
      assert [c][..0] == "";
    }

    method Puts(s: array<char>, ghost len: nat)
      requires Terminated(s[..], len)
      modifies this`output
      ensures output == old(output) + Expanded(s[..len])
    {
      var i := 0;
      while s[i] != '\0'
        invariant i <= len
        invariant output == old(output) + Expanded(s[..i])
        decreases len - i
      {
        ExpandedSnoc(s[..i], s[i]);
        PutChar(s[i]);
        assert s[..i + 1] == s[..i] + [s[i]];
        i := i + 1;
      }
    }

    /** Sends spaces while the width is not reached. */
    method Pad(cntr: nat, neg: nat)
      modifies this`leftVal, this`output, this`count
      ensures var gap := old(leftVal) - if rightVal > cntr then rightVal else cntr + neg;
              && output == old(output) + Repeated(' ', gap) && count == old(count) + |Repeated(' ', gap)|
              && leftVal == old(leftVal) - |Repeated(' ', gap)|
    {
      hide Repeated, Expanded;
      NoSpace(output, leftVal - if rightVal > cntr then rightVal else cntr + neg);
      while leftVal - (if rightVal > cntr then rightVal else cntr + neg) > 0
        invariant leftVal == old(leftVal) ||
                  old(leftVal) > leftVal >= if rightVal > cntr then rightVal else cntr + neg
        invariant output == old(output) + Repeated(' ', old(leftVal) - leftVal)
        invariant count == old(count) + (old(leftVal) - leftVal)
      {
        OneMoreSpace(old(output), old(leftVal) - leftVal);
        PutChar(' ');
        leftVal := leftVal - 1;
        count := count + 1;
      }
    }

    method PrintHexOct(v: int, base: nat, corr: nat, sign: int)
      requires Notation(base, corr) && -0x8000_0000 <= v < TWO32
      requires rightVal + (if IsNegative(v, sign) then 1 else 0) < BUFFER_SIZE
      modifies this
      ensures output == old(output) + Printed(v, base, corr, sign, old(leftVal), rightVal)
      ensures count == old(count) + |Printed(v, base, corr, sign, old(leftVal), rightVal)|
      ensures leftVal == old(leftVal) - |Repeated(' ', Padding(v, base, corr, sign, old(leftVal), rightVal))|
      ensures rightVal == old(rightVal)
    {
      hide Digits, Reversed, Expanded, Repeated, Shown, Notation, IsNegative, Magnitude, Terminated, Printed, Padding;
      var s1 := new char[BUFFER_SIZE];
      var temp, neg := v % TWO32, 0;
      if sign == 1 && v < 0 {
        temp, neg := -v, 1;
      }
      MagnitudeIs(v, sign);
      PrintedParts(output, v, base, corr, sign, leftVal, rightVal);
      ElevenDigits(temp, base, corr);
      var cntr := WriteDigits(s1, temp, base, corr);
      PaddingIs(v, base, corr, sign, leftVal, rightVal);
      Pad(cntr, neg);
      cntr := Compose(s1, cntr, rightVal, neg, v, base, corr, sign);
      Emit(s1, cntr);
    }

    /** Sends a text without newlines and counts its characters. */
    method Emit(s1: array<char>, ghost cntr: nat)
      requires Terminated(s1[..], cntr) && '\n' !in s1[..cntr]
      modifies this`output, this`count
      ensures output == old(output) + s1[..cntr] && count == old(count) + |s1[..cntr]|
    {
      ExpandedPlain(s1[..cntr]);
      Puts(s1, cntr);
      var len := StrLen(s1, cntr);
      count := count + len;
    }

    /** Sends a text and counts its characters. */
    method Echo(text: string)
      modifies this`output, this`count
      ensures output == old(output) + Expanded(text) && count == old(count) + |text|
    {
      var i := 0;
      while i < |text|
        invariant i <= |text|
        invariant output == old(output) + Expanded(text[..i]) && count == old(count) + i
      {
        ExpandedSnoc(text[..i], text[i]);
        PutChar(text[i]);
        assert text[..i + 1] == text[..i] + [text[i]];
        count := count + 1;
        i := i + 1;
      }
      assert text[..i] == text;
    }

    method FormatVal(temp: string, flag: int) returns (r: int)
      modifies this
      ensures var f := ParseFormat(temp, flag);
              && leftVal == f.width && rightVal == f.precision && r == f.result
              && output == old(output) + Expanded(f.echoed) && count == old(count) + |f.echoed|
    {
      hide ReadNumber, ParseFormat, ParsePrecision;
      leftVal, rightVal := 0, 0;
      if temp == "" && flag == 1 {
        rightVal := 3;
        EmptyParsed();
        return 0;
      }
      ReadNothing(10, 0);
      var i := 0;
      while i < |temp| && temp[i] != '.'
        invariant i <= |temp| && forall k :: 0 <= k < i ==> '0' <= temp[k] <= '9'
        invariant leftVal >= 0 && ReadNumber(temp[..i], 10, 0) == Some(leftVal)
        invariant rightVal == 0 && output == old(output) && count == old(count)
      {
        if temp[i] < '0' || temp[i] > '9' {
          Parsed(temp, flag, i);
          Echo(temp[i..]);
          return -1;
        }
        ReadPrefix(temp, i, leftVal);
        leftVal := leftVal * 10 + (temp[i] as int - '0' as int);
        i := i + 1;
      }
      Parsed(temp, flag, i);
      if i == |temp| {
        return leftVal;
      }
      r := FormatPrecision(temp[i + 1..]);
    }

    /** The part of FormatVal after the point. */
    method FormatPrecision(temp: string) returns (r: int)
      requires leftVal >= 0 && rightVal == 0
      modifies this`rightVal, this`output, this`count
      ensures var f := ParsePrecision(leftVal, temp);
              && rightVal == f.precision && r == f.result
              && output == old(output) + Expanded(f.echoed) && count == old(count) + |f.echoed|
    {
      hide ReadNumber, ParsePrecision;
      ReadNothing(10, 0);
      var i := 0;
      while i < |temp|
        invariant i <= |temp| && forall k :: 0 <= k < i ==> '0' <= temp[k] <= '9'
        invariant rightVal >= 0 && ReadNumber(temp[..i], 10, 0) == Some(rightVal)
        invariant output == old(output) && count == old(count)
      {
        if temp[i] < '0' || temp[i] > '9' {
          ParsedPrecision(leftVal, temp, i);
          Echo(temp[i..]);
          return -1;
        }
        ReadPrefix(temp, i, rightVal);
        rightVal := rightVal * 10 + (temp[i] as int - '0' as int);
        i := i + 1;
      }
      ParsedPrecision(leftVal, temp, i);
      return 0;
    }
  }
}
