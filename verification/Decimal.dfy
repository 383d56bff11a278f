/** The conversions of the ReadInt and PrintInt system calls (userprog/exception.cc). */
module Decimal {
  const INT_MIN: int := -0x8000_0000
  const INT_MAX: int := 0x7fff_ffff

  predicate IsInt(x: int) {
    INT_MIN <= x <= INT_MAX
  }

  /** Two's complement wrap-around of C's int. */
  function Wrap(x: int): (r: int)
    ensures IsInt(r)
    ensures IsInt(x) ==> r == x
  {
    (x - INT_MIN) % 0x1_0000_0000 + INT_MIN
  }

  // ---- numerals ------------------------------------------------------------------------

  predicate IsDigit(c: char) {
    '0' <= c <= '9'
  }

  predicate AllDigits(s: seq<char>) {
    forall i :: 0 <= i < |s| ==> IsDigit(s[i])
  }

  function DigitValue(c: char): int {
    c as int - 48
  }

  lemma DigitsAre(c: char)
    ensures IsDigit(c) <==> c in "0123456789"
    ensures IsDigit(c) ==> "0123456789"[DigitValue(c)] == c
  {
    var all := "0123456789";
    assert forall i :: 0 <= i < 10 ==> all[i] as int == 48 + i;
  }

  /** The number a string of digits denotes. */
  function Value(s: seq<char>): int {
    if s == [] then 0 else 10 * Value(s[..|s| - 1]) + DigitValue(s[|s| - 1])
  }

  function Pow10(n: nat): (r: nat)
    ensures r > 0
  {
    if n == 0 then 1 else 10 * Pow10(n - 1)
  }

  lemma {:induction false} ValueBounds(s: seq<char>)
    requires AllDigits(s)
    ensures 0 <= Value(s) < Pow10(|s|)
  {
    if s != [] { ValueBounds(s[..|s| - 1]); }
  }

  /** Reading the leading digit first gives the same number. */
  lemma {:induction false} ValueFront(s: seq<char>)
    requires s != []
    ensures Value(s) == DigitValue(s[0]) * Pow10(|s| - 1) + Value(s[1..])
  {
    if |s| > 1 {
      var init := s[..|s| - 1];
      ValueFront(init);
      assert s[1..][..|s| - 2] == init[1..];
      assert Value(s[1..]) == 10 * Value(init[1..]) + DigitValue(s[|s| - 1]);
      assert Pow10(|s| - 1) == 10 * Pow10(|s| - 2);
      ScaleDigit(DigitValue(s[0]), Pow10(|s| - 2));
    }
  }

  lemma ScaleDigit(d: int, p: int)
    ensures 10 * (d * p) == d * (10 * p)
  {
  }

  lemma {:induction false} PrefixIsSmaller(s: seq<char>, n: nat)
    requires AllDigits(s) && n <= |s|
    ensures 0 <= Value(s[..n]) <= Value(s)
    ensures n < |s| ==> 10 * Value(s[..n]) <= Value(s)
  {
    ValueBounds(s[..n]);
    assert s[..|s|] == s;
    if n < |s| {
      PrefixIsSmaller(s[..|s| - 1], n);
      assert s[..|s| - 1][..n] == s[..n];
    }
  }

  // ---- strcmp ----------------------------------------------------------------------------

  /** strcmp(a, b) > 0 for the C strings with these characters. */
  predicate StrGreater(a: seq<char>, b: seq<char>) {
    if a == [] then false
    else if b == [] then a[0] != '\0'
    else if a[0] != b[0] then a[0] > b[0]
    else StrGreater(a[1..], b[1..])
  }

  /** Lexicographic order of equally many digits is numeric order; text after the digits
      counts as greater. */
  lemma {:induction false} LexicographicIsNumeric(a: seq<char>, tail: seq<char>, b: seq<char>)
    requires AllDigits(a) && AllDigits(b) && |a| == |b|
    requires tail != [] ==> tail[0] != '\0'
    ensures StrGreater(a + tail, b) <==> Value(a) > Value(b) || (Value(a) == Value(b) && tail != [])
  {
    if a != [] {
      ValueFront(a);
      ValueFront(b);
      ValueBounds(a[1..]);
      ValueBounds(b[1..]);
      assert (a + tail)[1..] == a[1..] + tail;
      LexicographicIsNumeric(a[1..], tail, b[1..]);
      LeadingDigitDecides(DigitValue(a[0]), DigitValue(b[0]), Pow10(|a| - 1), Value(a[1..]), Value(b[1..]));
    } else {
      assert a + tail == tail;
    }
  }

  lemma Distributes(x: int, y: int, p: int)
    ensures (x - y) * p == x * p - y * p
  {
  }

  lemma LeadingDigitDecides(x: int, y: int, p: int, u: int, v: int)
    requires 0 <= u < p && 0 <= v < p
    ensures x > y ==> x * p + u > y * p + v
    ensures x < y ==> x * p + u < y * p + v
  {
    Distributes(x, y, p);
    Distributes(y, x, p);
    if x > y {
      LeadingDigitAtLeast(x - y, p);
    } else if x < y {
      LeadingDigitAtLeast(y - x, p);
    }
  }

  // ---- what ReadInt accepts ------------------------------------------------------------------

  datatype Parsed = Invalid | OutOfRange | Number(value: int)

  predicate Signed(line: seq<char>) {
    line != [] && (line[0] == '-' || line[0] == '+')
  }

  predicate Negative(line: seq<char>) {
    line != [] && line[0] == '-'
  }

  function Body(line: seq<char>): seq<char> {
    if Signed(line) then line[1..] else line
  }

  /** The length of the digits in front. */
  function WholeLength(s: seq<char>): (n: nat)
    ensures n <= |s| && AllDigits(s[..n])
    ensures n < |s| ==> !IsDigit(s[n])
  {
    if s == [] || !IsDigit(s[0]) then 0
    else
      var n := 1 + WholeLength(s[1..]);
      assert forall i :: 1 <= i < n ==> s[i] == s[1..][..n - 1][i - 1];
      n
  }

  function Whole(line: seq<char>): (w: seq<char>)
    ensures AllDigits(w)
  {
    Body(line)[..WholeLength(Body(line))]
  }

  /** What follows the digits. */
  function Fraction(line: seq<char>): seq<char> {
    Body(line)[WholeLength(Body(line))..]
  }

  /** An optional sign, digits, and optionally a point with nothing but zeros behind it. */
  predicate WellFormed(line: seq<char>) {
    var f := Fraction(line);
    f == [] || (f[0] == '.' && forall i :: 1 <= i < |f| ==> f[i] == '0')
  }

  /** The largest magnitude that the sign allows. */
  function Limit(line: seq<char>): nat {
    if Negative(line) then 0x8000_0000 else 0x7fff_ffff
  }

  /** The code's range check, in numbers: at most ten digits, leading zeros included, and at
      the limit itself no point. */
  predicate InRange(line: seq<char>) {
    && |Whole(line)| <= 10
    && Value(Whole(line)) <= Limit(line)
    && (|Whole(line)| == 10 && Value(Whole(line)) == Limit(line) ==> Fraction(line) == [])
  }

  function Parse(line: seq<char>): Parsed {
    if !WellFormed(line) then Invalid
    else if !InRange(line) then OutOfRange
    else Number(if Negative(line) then -Value(Whole(line)) else Value(Whole(line)))
  }

  /** An accepted line has the value of its numeral, and that is an int. */
  lemma AcceptedMeansNumeral(line: seq<char>)
    requires Parse(line).Number?
    ensures IsInt(Parse(line).value)
    ensures Parse(line).value == (if Negative(line) then -1 else 1) * Value(Whole(line))
  {
    ValueBounds(Whole(line));
  }

  /** A point with nothing but zeros behind it, or nothing. */
  predicate IsTail(f: seq<char>) {
    f == [] || (f[0] == '.' && forall i :: 1 <= i < |f| ==> f[i] == '0')
  }

  /** A line put together from an optional sign, digits and a tail. */
  predicate IsParts(line: seq<char>, sign: seq<char>, digits: seq<char>, tail: seq<char>) {
    && (sign == "" || sign == "+" || sign == "-") && AllDigits(digits) && IsTail(tail)
    && line == sign + digits + tail
  }

  /** The lines that are read as numbers, by their parts, with their values. */
  lemma PartsParse(line: seq<char>, sign: seq<char>, digits: seq<char>, tail: seq<char>)
    requires IsParts(line, sign, digits, tail)
    ensures var v, limit := Value(digits), if sign == "-" then 2147483648 else 2147483647;
            Parse(line) == if |digits| > 10 || v > limit || (|digits| == 10 && v == limit && tail != []) then OutOfRange
                           else Number(if sign == "-" then -v else v)
  {
    PartsOf(line, sign, digits, tail);
  }

  lemma PartsOf(line: seq<char>, sign: seq<char>, digits: seq<char>, tail: seq<char>)
    requires IsParts(line, sign, digits, tail)
    ensures WellFormed(line) && Whole(line) == digits && Fraction(line) == tail && (Negative(line) <==> sign == "-")
  {
    var rest := digits + tail;
    assert rest != [] ==> rest[0] == if digits != [] then digits[0] else tail[0];
    assert line == sign + rest;
    assert Body(line) == rest;
    assert rest[..|digits|] == digits && rest[|digits|..] == tail;
    WholeLengthIs(rest, |digits|);
  }

  /** Every other line is invalid. */
  lemma OnlyPartsParse(line: seq<char>)
    ensures Parse(line) == Invalid <==> forall sign, digits, tail :: !IsParts(line, sign, digits, tail)
  {
    if Parse(line) == Invalid {
      forall sign, digits, tail ensures !IsParts(line, sign, digits, tail) {
        if IsParts(line, sign, digits, tail) { PartsOf(line, sign, digits, tail); }
      }
    } else {
      HasParts(line);
    }
  }

  lemma HasParts(line: seq<char>)
    requires WellFormed(line)
    ensures IsParts(line, SignOf(line), Whole(line), Fraction(line))
  {
    SignThenBody(line);
    Regroup(SignOf(line), Body(line), WholeLength(Body(line)));
  }

  lemma SignThenBody(line: seq<char>)
    ensures line == SignOf(line) + Body(line)
  {
  }

  lemma Regroup(a: seq<char>, b: seq<char>, n: nat)
    requires n <= |b|
    ensures a + b == a + b[..n] + b[n..]
  {
  }

  function SignOf(line: seq<char>): seq<char> {
    if Negative(line) then "-" else if Signed(line) then "+" else ""
  }

  /** Which well-formed int numerals are refused nevertheless: those with more than ten
      digits, which then start with zeros, and those at a limit followed by a point. */
  lemma RefusedNumerals(line: seq<char>)
    requires WellFormed(line) && Value(Whole(line)) <= Limit(line)
    ensures Parse(line) == OutOfRange <==>
              |Whole(line)| > 10 || (Value(Whole(line)) == Limit(line) && Fraction(line) != [])
    ensures |Whole(line)| > 10 ==> Whole(line)[0] == '0'
  {
    var w := Whole(line);
    assert Pow10(10) == 10_000_000_000 by { Pow10Values(); }
    assert Pow10(9) == 1_000_000_000 by { Pow10Values(); }
    ValueBounds(w);
    if |w| < 10 {
      Pow10Grows(|w|, 9);
    }
    if |w| > 10 {
      ValueFront(w);
      ValueBounds(w[1..]);
      Pow10Grows(10, |w| - 1);
      if w[0] != '0' {
        LeadingDigitDecides(DigitValue(w[0]), 0, Pow10(|w| - 1), Value(w[1..]), 0);
        LeadingDigitAtLeast(DigitValue(w[0]), Pow10(|w| - 1));
        assert false;
      }
    }
  }

  /** Eleven digits of value 1. */
  lemma LeadingZerosExample(line: seq<char>)
    requires line == "00000000001"
    ensures WellFormed(line) && Value(Whole(line)) == 1 && Parse(line) == OutOfRange
  {
    assert AllDigits(line);
    DigitsOnly(line);
    ZerosAreNothing(line[..10]);
    ValueOfNext(line[..10], '1', line);
    RefusedNumerals(line);
  }

  lemma DigitsOnly(line: seq<char>)
    requires AllDigits(line)
    ensures Whole(line) == line && Fraction(line) == []
  {
    assert !Signed(line);
    BodyOnly(line);
  }

  lemma {:induction false} ZerosAreNothing(s: seq<char>)
    requires forall i :: 0 <= i < |s| ==> s[i] == '0'
    ensures Value(s) == 0
  {
    if s != [] { ZerosAreNothing(s[..|s| - 1]); }
  }

  /** The largest int followed by a point. */
  lemma LimitPointExample(line: seq<char>)
    requires line == "2147483647" + "."
    ensures WellFormed(line) && Value(Whole(line)) == INT_MAX && Parse(line) == OutOfRange
  {
    PointedDigits("2147483647", line);
    LimitValues();
    RefusedNumerals(line);
  }

  lemma PointedDigits(w: seq<char>, line: seq<char>)
    requires AllDigits(w) && w != [] && line == w + "."
    ensures Whole(line) == w && Fraction(line) == "." && !Signed(line)
  {
    assert line[..|w|] == w && line[0] == w[0];
    WholeLengthIs(line, |w|);
  }

  lemma LeadingDigitAtLeast(d: int, p: int)
    requires d >= 1 && p >= 0
    ensures d * p >= p
  {
  }

  lemma Pow10Values()
    ensures Pow10(9) == 1_000_000_000 && Pow10(10) == 10_000_000_000
  {
    assert Pow10(3) == 1000;
    assert Pow10(6) == 1000 * Pow10(3);
    assert Pow10(9) == 1000 * Pow10(6);
  }

  lemma {:induction false} Pow10Grows(a: nat, b: nat)
    requires a <= b
    ensures Pow10(a) <= Pow10(b)
  {
    if a < b { Pow10Grows(a, b - 1); }
  }

  // ---- ReadInt ---------------------------------------------------------------------------------

  /** A character of the zero-filled buffer. */
  function At(line: seq<char>, i: nat): char {
    if i < |line| then line[i] else '\0'
  }

  /** SC_ReadInt on a line that SynchConsole::Read delivered, with its count: the length, or -1
      when the input was closed. */
  method ReadInt(line: seq<char>, count: int) returns (r: Parsed)
    requires count == |line| || count == -1
    ensures r == if count == -1 then Number(0) else Parse(line)
  {
    var numberofNum := count;
    var isNegative, firstIndex := false, 0;
    if At(line, 0) == '-' {
      isNegative, firstIndex := true, 1;
    } else if At(line, 0) == '+' {
      firstIndex := 1;
    }
    if count == -1 {
      return Number(0);
    }
    assert Body(line) == line[firstIndex..];
    var ok;
    ok, numberofNum := ScanDigits(line, firstIndex);
    if !ok {
      return Invalid;
    }
    assert Whole(line) == line[firstIndex..numberofNum];
    var fits := RangeCheck(line, firstIndex, isNegative, numberofNum);
    if !fits {
      return OutOfRange;
    }
    var number := Accumulate(line, firstIndex, numberofNum);
    if isNegative {
      number := Wrap(number * -1);
    }
    ValueBounds(Whole(line));
    return Number(number);
  }

  /** The validity loop; the count shrinks to the digits before a point. */
  method ScanDigits(line: seq<char>, firstIndex: nat) returns (ok: bool, end: nat)
    requires firstIndex <= |line| && Body(line) == line[firstIndex..]
    ensures ok <==> WellFormed(line)
    ensures ok ==> end == firstIndex + |Whole(line)|
  {
    for i := firstIndex to |line|
      invariant forall k :: firstIndex <= k < i ==> IsDigit(line[k])
    {
      if line[i] == '.' {
        WholeEndsAt(line, firstIndex, i);
        var zeros := ScanZeros(line, i);
        return zeros, i;
      } else if line[i] < '0' || line[i] > '9' {
        WholeEndsAt(line, firstIndex, i);
        return false, 0;
      }
    }
    WholeEndsAt(line, firstIndex, |line|);
    return true, |line|;
  }

  /** The first character that is not a digit ends the whole part. */
  lemma WholeEndsAt(line: seq<char>, firstIndex: nat, i: nat)
    requires firstIndex <= i <= |line| && Body(line) == line[firstIndex..]
    requires (forall k :: firstIndex <= k < i ==> IsDigit(line[k])) && (i < |line| ==> !IsDigit(line[i]))
    ensures |Whole(line)| == i - firstIndex && Fraction(line) == line[i..]
  {
    var body, k := Body(line), i - firstIndex;
    forall j | 0 <= j < k ensures IsDigit(body[..k][j]) {
      assert body[..k][j] == line[firstIndex + j];
    }
    assert i < |line| ==> body[k] == line[i];
    WholeLengthIs(body, k);
  }

  method ScanZeros(line: seq<char>, point: nat) returns (ok: bool)
    requires point < |line|
    ensures ok <==> forall i :: 1 <= i < |line[point..]| ==> line[point..][i] == '0'
  {
    ghost var f := line[point..];
    for j := point + 1 to |line|
      invariant forall i :: 1 <= i < j - point ==> f[i] == '0'
    {
      assert line[j] == f[j - point];
      if line[j] != '0' {
        return false;
      }
    }
    return true;
  }

  lemma {:induction false} WholeLengthIs(s: seq<char>, n: nat)
    requires n <= |s| && AllDigits(s[..n]) && (n < |s| ==> !IsDigit(s[n]))
    ensures WholeLength(s) == n
  {
    if n > 0 {
      assert s[..n][0] == s[0];
      assert s[1..][..n - 1] == s[..n][1..];
      WholeLengthIs(s[1..], n - 1);
    }
  }

  method RangeCheck(line: seq<char>, firstIndex: nat, isNegative: bool, end: nat) returns (fits: bool)
    requires WellFormed(line) && isNegative == Negative(line)
    requires firstIndex == (if Signed(line) then 1 else 0) && end == firstIndex + |Whole(line)|
    ensures fits <==> InRange(line)
  {
    if firstIndex == 1 {
      if end > 11 {
        return false;
      } else if end == 11 {
        LimitCheck(line);
        if isNegative {
          if StrGreater(line, "-2147483648") {
            return false;
          }
        } else if StrGreater(line, "+2147483647") {
          return false;
        }
      }
    } else {
      if end > 10 {
        return false;
      } else if end == 10 {
        LimitCheck(line);
        if StrGreater(line, "2147483647") {
          return false;
        }
      }
    }
    ShortIsInRange(line);
    return true;
  }

  function LimitDigits(line: seq<char>): seq<char> {
    if Negative(line) then "2147483648" else "2147483647"
  }

  /** What the line is compared with. */
  function LimitText(line: seq<char>): seq<char> {
    if Negative(line) then "-2147483648" else if Signed(line) then "+2147483647" else "2147483647"
  }

  /** The library comparison decides the range of ten digits. */
  lemma LimitCheck(line: seq<char>)
    requires WellFormed(line) && |Whole(line)| == 10
    ensures StrGreater(line, LimitText(line)) <==> !InRange(line)
  {
    var w, f, b := Whole(line), Fraction(line), LimitDigits(line);
    var t := LimitText(line);
    LimitValues();
    assert Body(line) == w + f;
    LexicographicIsNumeric(w, f, b);
    if Signed(line) {
      assert t[1..] == b && t[0] == line[0];
      assert line[1..] == w + f;
    }
  }

  lemma LimitValues()
    ensures Value("2147483647") == 0x7fff_ffff && Value("2147483648") == 0x8000_0000
  {
    LeadingLimitDigits();
    ValueOfNext("214748364", '7', "2147483647");
    ValueOfNext("214748364", '8', "2147483648");
  }

  lemma LeadingLimitDigits()
    ensures Value("214748364") == 214748364
  {
    ValueOfNext("21474836", '4', "214748364");
    ValueOfNext("2147483", '6', "21474836");
    ValueOfNext("214748", '3', "2147483");
    assert Value("214748") == 214748 by {
      ValueOfNext("21474", '8', "214748");
      ValueOfNext("2147", '4', "21474");
      ValueOfNext("214", '7', "2147");
      assert Value("214") == 214 by {
        ValueOfNext("21", '4', "214");
        ValueOfNext("2", '1', "21");
        ValueOfNext("", '2', "2");
      }
    }
  }

  lemma ValueOfNext(s: seq<char>, c: char, t: seq<char>)
    requires t == s + [c]
    ensures Value(t) == 10 * Value(s) + DigitValue(c)
  {
    assert t[..|t| - 1] == s;
  }

  lemma ShortIsInRange(line: seq<char>)
    ensures |Whole(line)| < 10 ==> InRange(line)
  {
    var w := Whole(line);
    if |w| < 10 {
      ValueBounds(w);
      Pow10Grows(|w|, 9);
      Pow10Values();
    }
  }

  /** The conversion loop, in wrapping int arithmetic. */
  method Accumulate(line: seq<char>, firstIndex: nat, end: nat) returns (number: int)
    requires firstIndex <= end <= |line| && AllDigits(line[firstIndex..end])
    requires Value(line[firstIndex..end]) <= 0x8000_0000
    ensures number == Wrap(Value(line[firstIndex..end]))
  {
    ghost var w := line[firstIndex..end];
    number := 0;
    for i := firstIndex to end
      invariant number == Wrap(Value(w[..i - firstIndex]))
    {
      AccumulateStep(w, i - firstIndex, number);
      assert w[i - firstIndex] == line[i];
      number := Wrap(Wrap(number * 10) + (line[i] as int - 48));
    }
    assert w[..end - firstIndex] == w;
  }

  lemma AccumulateStep(w: seq<char>, k: nat, number: int)
    requires k < |w| && AllDigits(w) && Value(w) <= 0x8000_0000 && number == Wrap(Value(w[..k]))
    ensures Wrap(Wrap(number * 10) + DigitValue(w[k])) == Wrap(Value(w[..k + 1]))
  {
    var v, d, v' := Value(w[..k]), DigitValue(w[k]), Value(w[..k + 1]);
    assert 0 <= v by { PrefixIsSmaller(w, k); }
    assert v' <= 0x8000_0000 by { PrefixIsSmaller(w, k + 1); }
    assert v' == 10 * v + d by { NextDigit(w, k); }
    assert 0 <= d by { assert IsDigit(w[k]); }
    WrapStep(v, d);
  }

  lemma NextDigit(w: seq<char>, k: nat)
    requires k < |w|
    ensures Value(w[..k + 1]) == 10 * Value(w[..k]) + DigitValue(w[k])
  {
    assert w[..k + 1] == w[..k] + [w[k]];
    ValueOfNext(w[..k], w[k], w[..k + 1]);
  }

  lemma WrapStep(v: int, d: int)
    requires 0 <= v && 0 <= d && 10 * v + d <= 0x8000_0000
    ensures Wrap(Wrap(Wrap(v) * 10) + d) == Wrap(10 * v + d)
  {
    assert Wrap(v) == v;
    if 10 * v < 0x8000_0000 {
      assert Wrap(10 * v) == 10 * v;
    }
  }

  // ---- PrintInt ----------------------------------------------------------------------------------

  /** C's division and remainder, which truncate toward zero. */
  function TruncDiv(x: int): int {
    if x >= 0 then x / 10 else -(-x / 10)
  }

  function TruncRem(x: int): int {
    if x >= 0 then x % 10 else -(-x % 10)
  }

  function Abs(x: int): nat {
    if x >= 0 then x else -x
  }

  /** The character of one digit; for a negative remainder it lies below '0'. */
  function DigitChar(x: int): char {
    (TruncRem(x) + 48) as char
  }

  function Digits(x: int): seq<char>
    decreases Abs(x)
  {
    if x == 0 then [] else Digits(TruncDiv(x)) + [DigitChar(x)]
  }

  function Print(n: int): seq<char> {
    if n == 0 then "0"
    else if n < 0 then "-" + Digits(Wrap(-n))
    else Digits(n)
  }

  /** SC_PrintInt: the characters handed to the console. */
  method PrintInt(n: int) returns (out: seq<char>)
    requires IsInt(n)
    ensures out == Print(n)
  {
    if n == 0 {
      return "0";
    }
    var number := n;
    var isNegative, numberofNum, firstIndex := false, 0, 0;
    if number < 0 {
      number := Wrap(number * -1);
      isNegative := true;
      firstIndex := 1;
    }
    numberofNum := CountDigits(number);
    var buffer := new char[numberofNum + firstIndex + 1];
    FillDigits(buffer, firstIndex, numberofNum, number);
    out := AddSign(buffer, isNegative, firstIndex, numberofNum, Digits(number));
  }

  /** The sign in front, the terminating NUL behind, and what lies between. */
  method AddSign(buffer: array<char>, isNegative: bool, firstIndex: nat, count: nat, ghost digits: seq<char>)
    returns (out: seq<char>)
    requires firstIndex == (if isNegative then 1 else 0) && buffer.Length == firstIndex + count + 1
    requires buffer[firstIndex..firstIndex + count] == digits
    modifies buffer
    ensures out == if isNegative then "-" + digits else digits
  {
    if isNegative {
      buffer[0] := '-';
      buffer[count + 1] := '\0';
      assert buffer[1..count + 1] == digits;
    } else {
      buffer[count] := '\0';
      assert buffer[0..count] == digits;
    }
    out := buffer[..firstIndex + count];
  }

  method CountDigits(number: int) returns (count: nat)
    ensures count == |Digits(number)|
  {
    var nn := number;
    count := 0;
    while nn != 0
      invariant count + |Digits(nn)| == |Digits(number)|
      decreases Abs(nn)
    {
      count := count + 1;
      nn := TruncDiv(nn);
    }
  }

  method FillDigits(buffer: array<char>, firstIndex: nat, count: nat, x: int)
    requires count == |Digits(x)| && firstIndex + count < buffer.Length
    modifies buffer
    ensures buffer[firstIndex..firstIndex + count] == Digits(x)
    ensures forall k :: 0 <= k < firstIndex ==> buffer[k] == old(buffer[k])
  {
    var number := x;
    var i: int := firstIndex + count - 1;
    while i >= firstIndex
      invariant firstIndex - 1 <= i < firstIndex + count
      invariant |Digits(number)| == i + 1 - firstIndex
      invariant Digits(number) + buffer[i + 1..firstIndex + count] == Digits(x)
      invariant forall k :: 0 <= k < firstIndex ==> buffer[k] == old(buffer[k])
    {
      ghost var later := buffer[i + 1..firstIndex + count];
      PutChar(buffer, i, firstIndex + count, DigitChar(number));
      assert Digits(number) + later == Digits(TruncDiv(number)) + ([DigitChar(number)] + later);
      number := TruncDiv(number);
      i := i - 1;
    }
  }

  method PutChar(buffer: array<char>, i: nat, end: nat, c: char)
    requires i < end <= buffer.Length
    modifies buffer
    ensures buffer[i..end] == [c] + old(buffer[i + 1..end])
    ensures forall k :: 0 <= k < i ==> buffer[k] == old(buffer[k])
  {
    buffer[i] := c;
  }

  // ---- the round trip ----------------------------------------------------------------------------

  /** The printed digits of a positive number denote it and have no leading zero. */
  lemma {:induction false} DigitsDenote(x: nat)
    ensures AllDigits(Digits(x)) && Value(Digits(x)) == x
    ensures x > 0 ==> Digits(x) != [] && Digits(x)[0] != '0'
  {
    if x > 0 {
      DigitsDenote(x / 10);
      assert Digits(x) == Digits(x / 10) + [DigitChar(x)];
      assert Digits(x)[..|Digits(x)| - 1] == Digits(x / 10);
    }
  }

  lemma {:induction false} DigitsShort(x: nat, n: nat)
    requires x < Pow10(n)
    ensures |Digits(x)| <= n
  {
    if x > 0 { DigitsShort(x / 10, n - 1); }
  }

  lemma BodyOnly(line: seq<char>)
    requires AllDigits(Body(line))
    ensures Whole(line) == Body(line) && Fraction(line) == []
  {
    var body := Body(line);
    assert body[..|body|] == body;
    WholeLengthIs(body, |body|);
  }

  lemma ParseDigits(line: seq<char>, w: seq<char>)
    requires Body(line) == w && AllDigits(w) && |w| <= 10 && Value(w) <= Limit(line)
    ensures Parse(line) == Number((if Negative(line) then -1 else 1) * Value(w))
  {
    BodyOnly(line);
  }

  lemma ParsePrinted(line: seq<char>, m: nat)
    requires Body(line) == Digits(m) && m <= Limit(line)
    ensures Parse(line) == Number((if Negative(line) then -1 else 1) * m)
  {
    DigitsDenote(m);
    Pow10Values();
    DigitsShort(m, 10);
    ParseDigits(line, Digits(m));
  }

  /** Reading what was printed gives the number back, for every int but the least one. */
  lemma RoundTrip(n: int)
    requires IsInt(n)
    ensures Parse(Print(n)) == Number(n) <==> n != INT_MIN
  {
    if n == 0 {
      assert Whole("0") == "0" && Fraction("0") == [] by { WholeLengthIs("0", 1); }
      assert Value("0") == 0;
    } else if n > 0 {
      DigitsDenote(n);
      ParsePrinted(Print(n), n);
    } else if n > INT_MIN {
      assert Print(n)[1..] == Digits(-n);
      ParsePrinted(Print(n), -n);
    } else {
      LeastIntIsInvalid();
    }
  }

  /** What is printed is never empty, starts with '-' exactly for a negative number and with '0'
      exactly for 0, and has nothing but digits otherwise, the least int excepted. */
  lemma PrintedForm(n: int)
    requires IsInt(n)
    ensures Print(n) != []
    ensures Print(n)[0] == '-' <==> n < 0
    ensures Print(n)[0] == '0' <==> n == 0
    ensures n == 0 ==> Print(n) == "0"
    ensures n > 0 ==> AllDigits(Print(n))
    ensures INT_MIN < n < 0 ==> |Print(n)| > 1 && AllDigits(Print(n)[1..]) && Print(n)[1] != '0'
  {
    if n > 0 {
      DigitsDenote(n);
      FirstIsDigit(Digits(n));
    } else if n < 0 {
      NegativeForm(n, Digits(Wrap(-n)));
    }
  }

  lemma FirstIsDigit(d: seq<char>)
    requires d != [] && AllDigits(d)
    ensures IsDigit(d[0]) && d[0] != '-'
  {
  }

  lemma NegativeForm(n: int, d: seq<char>)
    requires INT_MIN <= n < 0 && d == Digits(Wrap(-n))
    ensures Print(n) != [] && Print(n)[0] == '-'
    ensures INT_MIN < n ==> |Print(n)| > 1 && AllDigits(Print(n)[1..]) && Print(n)[1] != '0'
  {
    assert Print(n) == ['-'] + d;
    assert Print(n)[1..] == d;
    if INT_MIN < n { DigitsDenote(-n); }
  }

  /** Whatever was accepted, its printed value reads the same. */
  lemma PrintNormalizes(line: seq<char>)
    requires Parse(line).Number?
    ensures Parse(Print(Parse(line).value)) == Parse(line) <==> Parse(line).value != INT_MIN
  {
    AcceptedMeansNumeral(line);
    RoundTrip(Parse(line).value);
  }

  /** The least int negates to itself, so every remainder is negative and every character
      lies below '0'. */
  lemma LeastIntIsInvalid()
    ensures Parse(Print(INT_MIN)) == Invalid
  {
    var out := Print(INT_MIN);
    assert Wrap(-INT_MIN) == INT_MIN;
    NegativeDigits(INT_MIN);
    LeadingTwo();
    assert Body(out) == Digits(INT_MIN);
    WholeLengthIs(Body(out), 0);
    assert Fraction(out) == Digits(INT_MIN);
  }

  lemma {:induction false} NegativeDigits(x: int)
    requires x < 0
    decreases Abs(x)
    ensures Digits(x) != [] && forall i :: 0 <= i < |Digits(x)| ==> Digits(x)[i] <= '0'
  {
    if TruncDiv(x) != 0 { NegativeDigits(TruncDiv(x)); }
  }

  /** It starts with a point that is not followed by a zero. */
  lemma LeadingTwo()
    ensures var d := Digits(INT_MIN); |d| >= 2 && d[0] == '.' && d[1] == '/'
  {
    assert Digits(-2) == ['.'];
    assert Digits(-21) == ['.', '/'];
    var x := -21474;
    assert TruncDiv(TruncDiv(TruncDiv(x))) == -21;
    ExtendsDigits(-214);
    ExtendsDigits(-2147);
    ExtendsDigits(-21474);
    ExtendsDigits(-214748);
    ExtendsDigits(-2147483);
    ExtendsDigits(-21474836);
    ExtendsDigits(-214748364);
    ExtendsDigits(INT_MIN);
  }

  lemma ExtendsDigits(x: int)
    requires x != 0
    ensures Digits(x) == Digits(TruncDiv(x)) + [DigitChar(x)]
  {
  }
}
