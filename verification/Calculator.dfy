// The calculator of kalkulator.cpp: 64-bit numbers to text and back, exact overflow, and the display
// after any sequence of buttons (kalkulator.cpp:103-460).
module Calculator {
  const MAX_VALUE: int := 0x7FFF_FFFF_FFFF_FFFF
  const MIN_VALUE: int := -0x8000_0000_0000_0000
  const DISPLAY: nat := 64
  const NUMBER: nat := 32
  const ZERO: char := '\0'

  ghost predicate InRange(v: int) {
    -0x8000_0000_0000_0000 <= v <= 0x7FFF_FFFF_FFFF_FFFF
  }

  predicate IsDigit(c: char) {
    '0' <= c <= '9'
  }

  function DigitValue(c: char): nat
    requires IsDigit(c)
  {
    c as int - '0' as int
  }

  function DigitChar(d: nat): (c: char)
    requires d < 10
    ensures IsDigit(c) && DigitValue(c) == d
  {
    ('0' as int + d) as char
  }

  ghost predicate AllDigits(s: string) {
    forall c <- s :: IsDigit(c)
  }

  /** The value of a string of digits. */
  function Value(s: string): nat
    requires AllDigits(s)
  {
    if s == [] then 0 else Value(s[..|s|-1]) * 10 + DigitValue(s[|s|-1])
  }

  /** The digits of a number, without leading zeros. */
  function Digits(n: nat): (s: string)
    ensures AllDigits(s) && s != []
  {
    if n < 10 then [DigitChar(n)] else Digits(n / 10) + [DigitChar(n % 10)]
  }

  function Text(v: int): string {
    if v < 0 then ['-'] + Digits(-v) else Digits(v)
  }

  /** A digit string as the calculator builds it: "0", or one that does not begin with '0'. */
  ghost predicate Canonical(s: string) {
    AllDigits(s) && s != [] && (s[0] == '0' ==> |s| == 1)
  }

  lemma {:induction false} ValueOfDigits(n: nat)
    ensures Value(Digits(n)) == n
  {
    if n >= 10 {
      ValueOfDigits(n / 10);
      var front := Digits(n / 10);
      assert (front + [DigitChar(n % 10)])[..|front|] == front;
    } else {
      assert [DigitChar(n)][..0] == [];
    }
  }

  lemma {:induction false} DigitsCanonical(n: nat)
    ensures Canonical(Digits(n)) && (Digits(n)[0] == '0' <==> n == 0)
  {
    if n >= 10 { DigitsCanonical(n / 10); }
  }

  lemma TenTimes(a: nat, d: nat)
    requires d < 10
    ensures (a * 10 + d) / 10 == a && (a * 10 + d) % 10 == d
  {
  }

  lemma SameDigit(c: char)
    requires IsDigit(c)
    ensures DigitValue(c) < 10 && DigitChar(DigitValue(c)) == c
  {
  }

  lemma {:induction false} DigitsOfValue(s: string)
    requires Canonical(s)
    ensures Digits(Value(s)) == s
    ensures |s| > 1 ==> Value(s) >= 10
    ensures s[0] != '0' ==> Value(s) > 0
  {
    var front, last := s[..|s|-1], s[|s|-1];
    assert s == front + [last];
    if |s| > 1 {
      assert front[0] == s[0];
      DigitsOfValue(front);
      TenTimes(Value(front), DigitValue(last));
      SameDigit(last);
    } else {
      assert front == [];
      assert Value(front) == 0;
      SameDigit(last);
    }
  }

  lemma {:induction false} DigitsLength(n: nat, k: nat, bound: nat)
    requires bound == Power(k) && n < bound && k > 0
    ensures |Digits(n)| <= k
    decreases k
  {
    if n >= 10 { DigitsLength(n / 10, k - 1, Power(k - 1)); }
  }

  function Power(k: nat): nat {
    if k == 0 then 1 else 10 * Power(k - 1)
  }

  lemma TextLength(v: int)
    requires InRange(v)
    ensures |Text(v)| <= 20
  {
    assert Power(4) == 10000;
    assert Power(8) == 10000 * Power(4);
    assert Power(12) == 10000 * Power(8);
    assert Power(16) == 10000 * Power(12);
    assert Power(19) == 1000 * Power(16);
    DigitsLength(if v < 0 then -v else v, 19, Power(19));
  }

  // ----- reading a number

  /** An optional minus sign and at least one digit. */
  ghost predicate IsNumber(s: string) {
    if s != [] && s[0] == '-' then |s| > 1 && AllDigits(s[1..]) else s != [] && AllDigits(s)
  }

  ghost function NumberValue(s: string): int
    requires IsNumber(s)
  {
    if s[0] == '-' then 0 - Value(s[1..]) else Value(s)
  }

  /** The printed form of any number reads back as that number. */
  lemma TextReadsBack(v: int)
    ensures IsNumber(Text(v)) && NumberValue(Text(v)) == v
  {
    if v < 0 {
      ValueOfDigits(-v);
      assert Text(v)[1..] == Digits(-v);
    } else {
      ValueOfDigits(v);
      assert IsDigit(Digits(v)[0]);
    }
  }

  /** A buffer holds `t`, ended by a NUL. */
  ghost predicate Holds(buf: seq<char>, t: string) {
    |t| < |buf| && buf[..|t|] == t && buf[|t|] == ZERO && ZERO !in t
  }

  /** The digit loop of `calc_str_to_int64`, over the text `d` at `from`, as far as digits go. */
  method ReadDigits(buf: array<char>, from: nat, ghost d: string, limit: nat) returns (ok: bool, value: nat, i: nat)
    requires from + |d| < buf.Length && (forall k | 0 <= k <= |d| :: buf[from + k] == (d + [ZERO])[k]) && limit >= 9
    ensures ok ==>
              from <= i <= from + |d| && AllDigits(d[..i - from]) && value == Value(d[..i - from]) <= limit
              && !IsDigit(buf[i])
    ensures !ok ==> AllDigits(d) ==> Value(d) > limit
  {
    value, i := 0, from;
    while IsDigit(buf[i])
      invariant from <= i <= from + |d| && AllDigits(d[..i - from]) && value == Value(d[..i - from]) <= limit
      decreases from + |d| - i
    {
      ghost var k := i - from;
      assert buf[from + k] == (d + [ZERO])[k];
      var digit := DigitValue(buf[i]);
      OneDigit(d, k);
      if value > (limit - digit) / 10 {
        if AllDigits(d) { TooLarge(d, k + 1, limit); }
        return false, 0, i;
      }
      value := value * 10 + digit;
      i := i + 1;
    }
    ok := true;
  }

  lemma OneDigit(d: string, k: nat)
    requires k < |d| && AllDigits(d[..k]) && IsDigit(d[k])
    ensures AllDigits(d[..k+1]) && Value(d[..k+1]) == Value(d[..k]) * 10 + DigitValue(d[k])
  {
    assert d[..k+1] == d[..k] + [d[k]];
    assert d[..k+1][..k] == d[..k];
  }

  /** `calc_str_to_int64` (kalkulator.cpp:186-226); false exactly for what is no number or does not fit. */
  method StrToInt(buf: array<char>, ghost t: string) returns (ok: bool, v: int)
    requires Holds(buf[..], t)
    ensures ok <==> IsNumber(t) && InRange(NumberValue(t))
    ensures ok ==> v == NumberValue(t)
  {
    hide Value;
    v := 0;
    var i := 0;
    assert forall k | 0 <= k <= |t| :: buf[k] == (t + [ZERO])[k];
    var negative := buf[i] == '-';
    if negative { i := 1; }
    ghost var d := if negative then t[1..] else t;
    ghost var first := i;
    assert forall k | 0 <= k <= |d| :: buf[i + k] == (d + [ZERO])[k];
    if !IsDigit(buf[i]) { return false, 0; }
    var value: nat;
    ok, value, i := ReadDigits(buf, i, d, if negative then -MIN_VALUE else MAX_VALUE);
    if !ok { return; }
    if buf[i] != ZERO {
      assert !IsDigit(d[i - first]);
      return false, 0;
    }
    assert d[..i - first] == d;
    v := if negative then 0 - value else value;
  }

  /** More digits never make a number smaller. */
  lemma {:induction false} TooLarge(d: string, k: nat, limit: nat)
    requires AllDigits(d) && k <= |d| && Value(d[..k]) > limit
    ensures Value(d) > limit
    decreases |d|
  {
    if k < |d| {
      assert d[..|d|-1][..k] == d[..k];
      TooLarge(d[..|d|-1], k, limit);
    } else {
      assert d[..k] == d;
    }
  }

  // ----- writing text

  lemma HoldsAt(buf: seq<char>, t: string)
    requires |t| < |buf| && ZERO !in t && (forall k | 0 <= k < |t| :: buf[k] == t[k]) && buf[|t|] == ZERO
    ensures Holds(buf, t)
  {
    assert buf[..|t|] == t;
  }

  lemma HeldAt(buf: seq<char>, t: string)
    requires Holds(buf, t)
    ensures forall k | 0 <= k < |t| :: buf[k] == t[k] && buf[k] != ZERO
  {
    forall k | 0 <= k < |t| ensures buf[k] == t[k] && buf[k] != ZERO {
      assert buf[..|t|][k] == t[k];
      assert t[k] in t;
    }
  }

  /** `ustaw_tekst` of a text that fits. */
  method SetText(buf: array<char>, t: string)
    requires |t| < buf.Length && ZERO !in t
    modifies buf
    ensures Holds(buf[..], t)
  {
    var i := 0;
    while i < |t|
      invariant 0 <= i <= |t|
      invariant forall k | 0 <= k < i :: buf[k] == t[k]
    {
      buf[i] := t[i];
      i := i + 1;
    }
    buf[i] := ZERO;
    HoldsAt(buf[..], t);
  }

  /** `dlugosc_tekstu`. */
  method Length(buf: array<char>, ghost t: string) returns (n: nat)
    requires Holds(buf[..], t)
    ensures n == |t|
  {
    HeldAt(buf[..], t);
    n := 0;
    while n < buf.Length && buf[n] != ZERO
      invariant 0 <= n <= |t|
    {
      assert n < |t| ==> buf[n] == buf[..][n];
      n := n + 1;
    }
  }

  /** `dopisz_znak`: appends one character, if it and the NUL still fit. */
  method Append(buf: array<char>, c: char, ghost t: string) returns (ok: bool)
    requires Holds(buf[..], t) && c != ZERO
    modifies buf
    ensures ok <==> |t| + 1 < buf.Length
    ensures Holds(buf[..], if ok then t + [c] else t)
  {
    HeldAt(buf[..], t);
    var n := Length(buf, t);
    ghost var before := buf[..];
    if n + 1 >= buf.Length { return false; }
    buf[n] := c;
    buf[n + 1] := ZERO;
    assert forall k | 0 <= k < n :: buf[k] == before[k];
    HoldsAt(buf[..], t + [c]);
    ok := true;
  }

  /** The last character is overwritten in place. */
  method ReplaceLast(buf: array<char>, c: char, ghost t: string)
    requires Holds(buf[..], t) && t != [] && c != ZERO
    modifies buf
    ensures Holds(buf[..], t[..|t|-1] + [c])
  {
    HeldAt(buf[..], t);
    var n := Length(buf, t);
    ghost var before := buf[..];
    buf[n - 1] := c;
    assert forall k | 0 <= k < n - 1 :: buf[k] == before[k];
    HoldsAt(buf[..], t[..|t|-1] + [c]);
  }

  /** The digits of `n`, last first. */
  function Backwards(n: nat): (s: string)
    ensures AllDigits(s)
  {
    if n == 0 then [] else [DigitChar(n % 10)] + Backwards(n / 10)
  }

  function Reversed(s: string): (r: string)
    ensures |r| == |s| && forall k | 0 <= k < |s| :: r[k] == s[|s|-1-k]
  {
    if s == [] then [] else Reversed(s[1..]) + [s[0]]
  }

  lemma {:induction false} BackwardsDigits(n: nat)
    requires n > 0
    ensures Reversed(Backwards(n)) == Digits(n)
  {
    if n >= 10 {
      BackwardsDigits(n / 10);
      assert Backwards(n)[1..] == Backwards(n / 10);
    } else {
      assert Backwards(n) == [DigitChar(n)] + [];
      assert Reversed([]) == [];
    }
  }

  lemma {:induction false} BackwardsAppend(n: nat, done: string, m: nat)
    requires m > 0 && Backwards(n) == done + Backwards(m)
    ensures Backwards(n) == (done + [DigitChar(m % 10)]) + Backwards(m / 10)
  {
  }

  /** The first loop of `calc_int64_to_str`: the digits, last first. */
  method DigitsBackwards(m: nat, reversed: array<char>) returns (n: nat)
    requires m > 0 && |Digits(m)| <= reversed.Length
    modifies reversed
    ensures n <= reversed.Length && reversed[..n] == Backwards(m)
  {
    BackwardsDigits(m);
    var modulus := m;
    n := 0;
    assert reversed[..0] == [];
    while modulus > 0 && n < reversed.Length
      invariant 0 <= n <= reversed.Length
      invariant Backwards(m) == reversed[..n] + Backwards(modulus)
      decreases modulus
    {
      BackwardsAppend(m, reversed[..n], modulus);
      ghost var done := reversed[..n];
      reversed[n] := ('0' as int + modulus % 10) as char;
      assert reversed[..n+1] == done + [DigitChar(modulus % 10)];
      n := n + 1;
      modulus := modulus / 10;
    }
  }

  /** The second: copied out in order, after what is already in `buf`, as far as there is room. */
  method CopyBackwards(reversed: array<char>, n: nat, buf: array<char>, from: nat)
    requires n <= reversed.Length && from < buf.Length && buf != reversed
    modifies buf
    ensures forall k | 0 <= k < from :: buf[k] == old(buf[k])
    ensures forall k | from <= k < from + n && k < buf.Length - 1 :: buf[k] == reversed[n - 1 - (k - from)]
    ensures buf[if from + n < buf.Length then from + n else buf.Length - 1] == ZERO
  {
    var left, at := n, from;
    while left > 0 && at + 1 < buf.Length
      invariant 0 <= left <= n && at == from + (n - left) && at < buf.Length
      invariant forall k | 0 <= k < from :: buf[k] == old(buf[k])
      invariant forall k | from <= k < at :: buf[k] == reversed[n - 1 - (k - from)]
    {
      left := left - 1;
      buf[at] := reversed[left];
      at := at + 1;
    }
    buf[at] := ZERO;
  }

  /** As much of a text as `n` characters hold. */
  function Cut(t: string, n: nat): string {
    if |t| <= n then t else t[..n]
  }

  /** The characters of a printed number, from its digits last first. */
  lemma TextAt(v: int, back: string)
    requires v != 0 && Reversed(back) == Digits(if v < 0 then -v else v)
    ensures var sign := if v < 0 then 1 else 0;
            && |Text(v)| == sign + |back| && (v < 0 ==> Text(v)[0] == '-')
            && forall k | sign <= k < |Text(v)| :: Text(v)[k] == back[|back| - 1 - (k - sign)]
  {
    hide Digits, Reversed;
    ReversedAt(back);
    if v < 0 {
      assert Text(v) == ['-'] + Reversed(back);
    } else {
      assert Text(v) == Reversed(back);
    }
  }

  lemma ReversedAt(s: string)
    ensures |Reversed(s)| == |s| && forall k | 0 <= k < |s| :: Reversed(s)[k] == s[|s| - 1 - k]
  {
    hide Reversed;
  }

  lemma CutPlain(t: string, n: nat)
    requires ZERO !in t
    ensures ZERO !in Cut(t, n) && |Cut(t, n)| == (if |t| <= n then |t| else n)
    ensures forall k | 0 <= k < |Cut(t, n)| :: Cut(t, n)[k] == t[k]
  {
    forall x | x in Cut(t, n) ensures x in t {}
  }

  /** A buffer filled with a text, as far as it goes, and ended. */
  lemma Filled(t: string, buf: seq<char>)
    requires |buf| > 0 && ZERO !in t && forall k | 0 <= k < |t| && k < |buf| - 1 :: buf[k] == t[k]
    requires buf[if |t| < |buf| then |t| else |buf| - 1] == ZERO
    ensures Holds(buf, Cut(t, |buf| - 1))
  {
    hide Cut;
    CutPlain(t, |buf| - 1);
    HoldsAt(buf, Cut(t, |buf| - 1));
  }

  /** `calc_int64_to_str` (kalkulator.cpp:228-270), INT64_MIN included; too short a buffer takes what fits. */
  method IntToStr(v: int, buf: array<char>)
    requires InRange(v)
    modifies buf
    ensures buf.Length > 0 ==> Holds(buf[..], Cut(Text(v), buf.Length - 1))
    ensures buf.Length >= NUMBER ==> Holds(buf[..], Text(v))
  {
    hide Digits, Reversed, Backwards, Text, Holds;
    TextLength(v);
    if buf.Length == 0 { return; }
    if v == 0 {
      PrintZero(buf);
    } else {
      PrintNumber(v, buf);
    }
  }

  method PrintZero(buf: array<char>)
    requires buf.Length > 0
    modifies buf
    ensures Holds(buf[..], Cut(Text(0), buf.Length - 1))
  {
    ZeroText();
    if buf.Length >= 2 {
      buf[0], buf[1] := '0', ZERO;
      HoldsAt(buf[..], ['0']);
    } else {
      buf[0] := ZERO;
      HoldsAt(buf[..], []);
    }
  }

  method PrintNumber(v: int, buf: array<char>)
    requires InRange(v) && v != 0 && buf.Length > 0
    modifies buf
    ensures Holds(buf[..], Cut(Text(v), buf.Length - 1))
  {
    hide Digits, Reversed, Backwards, Text, Holds, Cut;
    var modulus: nat := if v < 0 then -(v + 1) + 1 else v;
    DigitsShort(v);
    BackwardsDigits(modulus);
    var reversed := new char[32];
    var n := DigitsBackwards(modulus, reversed);
    var sign := 0;
    if v < 0 && sign + 1 < buf.Length {
      buf[0] := '-';
      sign := 1;
    }
    CopyBackwards(reversed, n, buf, sign);
    ghost var back := Backwards(modulus);
    assert forall k | 0 <= k < n :: reversed[k] == back[k] by {
      assert forall k | 0 <= k < n :: reversed[..n][k] == reversed[k];
    }
    TextPlain(v);
    TextAt(v, back);
    Filled(Text(v), buf[..]);
  }

  lemma DigitsShort(v: int)
    requires InRange(v)
    ensures |Digits(if v < 0 then -v else v)| <= 20
  {
    TextLength(v);
  }

  lemma ZeroText()
    ensures Text(0) == ['0']
  {
  }

  lemma TextPlain(v: int)
    ensures ZERO !in Text(v)
  {
    DigitsPlain(Digits(if v < 0 then -v else v));
  }

  lemma DigitsPlain(s: string)
    requires AllDigits(s)
    ensures ZERO !in s && '-' !in s
  {
  }

  // ----- arithmetic

  /** C++ division: towards zero. */
  function Quotient(a: int, b: int): int
    requires b != 0
  {
    if (a >= 0) == (b > 0) then (if a >= 0 then a else -a) / (if b > 0 then b else -b)
    else -((if a >= 0 then a else -a) / (if b > 0 then b else -b))
  }

  /** The quotient is the one whose remainder is smaller than the divisor and has the dividend's sign. */
  lemma QuotientTruncates(a: int, b: int)
    requires b != 0
    ensures var q := Quotient(a, b);
            var r := a - q * b;
            -(if b > 0 then b else -b) < r < (if b > 0 then b else -b) && (a >= 0 ==> r >= 0) && (a <= 0 ==> r <= 0)
  {
    var x, y := if a >= 0 then a else -a, if b > 0 then b else -b;
    assert x == x / y * y + x % y;
    SignedProduct(x / y, y);
  }

  lemma SignedProduct(q: int, y: int)
    ensures (-q) * y == -(q * y) && q * (-y) == -(q * y) && (-q) * (-y) == q * y
  {
  }

  lemma OnlyOneOverflow(a: int, b: int)
    requires InRange(a) && InRange(b) && b != 0
    ensures InRange(Quotient(a, b)) <==> !(a == MIN_VALUE && b == -1)
  {
    var x, y := if a >= 0 then a else -a, if b > 0 then b else -b;
    if y >= 2 { Halved(x, y); }
  }

  lemma Halved(x: int, y: int)
    requires x >= 0 && y >= 2
    ensures x / y <= x / 2
  {
    assert x / y * 2 <= x / y * y <= x;
  }

  datatype Outcome = Fine(value: int) | Wrong

  /** The result of an operation, if there is one and it fits 64 bits. */
  function Apply(a: int, b: int, op: char): Outcome {
    var r := match op
             case '+' => Fine(a + b)
             case '-' => Fine(a - b)
             case '*' => Fine(a * b)
             case '/' => if b == 0 then Wrong else Fine(Quotient(a, b))
             case _ => Wrong;
    if r.Fine? && MIN_VALUE <= r.value <= MAX_VALUE then r else Wrong
  }

  /** `wykonaj_operacje` (kalkulator.cpp:272-294). */
  method Compute(a: int, b: int, op: char) returns (ok: bool, v: int)
    requires InRange(a) && InRange(b)
    ensures ok <==> Apply(a, b, op).Fine?
    ensures ok ==> v == Apply(a, b, op).value && InRange(v)
    ensures op == '+' ==> (ok <==> InRange(a + b)) && (ok ==> v == a + b)
    ensures op == '-' ==> (ok <==> InRange(a - b)) && (ok ==> v == a - b)
    ensures op == '*' ==> (ok <==> InRange(a * b)) && (ok ==> v == a * b)
    ensures op == '/' ==>
              && (ok <==> b != 0 && !(a == -0x8000_0000_0000_0000 && b == -1))
              && (ok ==>
                    var r, d := a - v * b, if b > 0 then b else -b;
                    -d < r < d && (a >= 0 ==> r >= 0) && (a <= 0 ==> r <= 0))
    ensures ok ==> op == '+' || op == '-' || op == '*' || op == '/'
  {
    v := 0;
    if op == '/' && b != 0 { QuotientTruncates(a, b); }
    match op
    case '+' =>
      v := a + b;
      ok := MIN_VALUE <= v <= MAX_VALUE;
    case '-' =>
      v := a - b;
      ok := MIN_VALUE <= v <= MAX_VALUE;
    case '*' =>
      v := a * b;
      ok := MIN_VALUE <= v <= MAX_VALUE;
    case '/' =>
      if b == 0 { return false, 0; }
      OnlyOneOverflow(a, b);
      if a == MIN_VALUE && b == -1 { return false, 0; }
      ok, v := true, Quotient(a, b);
    case _ =>
      ok := false;
  }

  // ----- the buttons, as one evaluates them from left to right

  datatype Entry =
    | First(digits: string)                       // typing the first number
    | Chosen(left: int, op: char)                 // an operator chosen
    | Second(left: int, op: char, digits: string) // typing the second number
    | Result(value: int)
    | Failed

  const CLEAR := First("0")

  predicate IsOperator(c: char) {
    c == '+' || c == '-' || c == '*' || c == '/'
  }

  /** One more digit: a lone 0 is replaced, and nothing is added to a full number. */
  function Typed(digits: string, c: char): string {
    if digits == "0" then [c] else if |digits| + 1 < NUMBER then digits + [c] else digits
  }

  /** The value of a typed number, if it fits. */
  function Read(digits: string): Outcome
  {
    if (forall c <- digits :: IsDigit(c)) && Value(digits) <= MAX_VALUE then Fine(Value(digits)) else Wrong
  }

  function Evaluated(e: Entry): Outcome
    requires e.Second?
  {
    var right := Read(e.digits);
    if right.Fine? then Apply(e.left, right.value, e.op) else Wrong
  }

  function Pressed(e: Entry, c: char): Entry {
    if IsDigit(c) then
      match e
      case First(d) => First(Typed(d, c))
      case Chosen(a, op) => Second(a, op, [c])
      case Second(a, op, d) => Second(a, op, Typed(d, c))
      case Result(_) => First([c])
      case Failed => First([c])
    else if c == 'C' || c == 'c' then CLEAR
    else if IsOperator(c) then
      match e
      case First(d) => if Read(d).Fine? then Chosen(Read(d).value, c) else Failed
      case Chosen(a, _) => Chosen(a, c)
      case Second(_, _, _) => if Evaluated(e).Fine? then Chosen(Evaluated(e).value, c) else Failed
      case Result(v) => Chosen(v, c)
      case Failed => Chosen(0, c)
    else if (c == '=' || c == '\n' || c == '\r') && e.Second? then
      if Evaluated(e).Fine? then Result(Evaluated(e).value) else Failed
    else e
  }

  /** What the display shows. */
  function Shown(e: Entry): string {
    match e
    case First(d) => d
    case Chosen(a, op) => Text(a) + [op]
    case Second(a, op, d) => Text(a) + [op] + d
    case Result(v) => Text(v)
    case Failed => "ERR"
  }

  ghost predicate Number(digits: string) {
    Canonical(digits) && |digits| < 32
  }

  ghost predicate Proper(e: Entry) {
    match e
    case First(d) => Number(d)
    case Chosen(a, op) => InRange(a) && IsOperator(op)
    case Second(a, op, d) => InRange(a) && IsOperator(op) && Number(d)
    case Result(v) => InRange(v)
    case Failed => true
  }

  lemma TypedNumber(d: string, c: char)
    requires Number(d) && IsDigit(c)
    ensures Number(Typed(d, c))
  {
  }

  lemma PressedProper(e: Entry, c: char)
    requires Proper(e)
    ensures Proper(Pressed(e, c))
  {
    hide Value, Digits;
    if IsDigit(c) && e.First? { TypedNumber(e.digits, c); }
    if IsDigit(c) && e.Second? { TypedNumber(e.digits, c); }
  }

  /** No display ever needs more than 52 of its 64 bytes. */
  lemma ShownFits(e: Entry)
    requires Proper(e)
    ensures |Shown(e)| <= 52 && ZERO !in Shown(e) && Shown(e) != []
  {
    match e
    case First(d) => DigitsPlain(d);
    case Chosen(a, op) =>
      TextLength(a);
      TextPlain(a);
    case Second(a, op, d) =>
      TextLength(a);
      TextPlain(a);
      DigitsPlain(d);
    case Result(v) =>
      TextLength(v);
      TextPlain(v);
      TextNonEmpty(v);
    case Failed =>
  }

  lemma TextNonEmpty(v: int)
    ensures Text(v) != []
  {
  }

  /** Typing a number that fits shows exactly the text of its value. */
  lemma ReadNumber(d: string)
    requires Number(d)
    ensures IsNumber(d) && NumberValue(d) == Value(d)
    ensures Read(d).Fine? <==> InRange(NumberValue(d))
    ensures Read(d).Fine? ==> Read(d).value == NumberValue(d) && Text(Read(d).value) == d
  {
    DigitsOfValue(d);
    assert d[0] in d;
  }

  datatype Mode = FirstNumber | Operator | SecondNumber | HasResult | Error

  class Calculator {
    const display: array<char>   // calc_display
    const number: array<char>    // calc_num_buf
    var left: int                // calc_op1
    var op: char                 // calc_op
    var mode: Mode               // calc_state
    ghost var entry: Entry

    constructor ()
      ensures Valid() && entry == CLEAR && fresh(display) && fresh(number)
    {
      display, number := new char[DISPLAY](_ => ZERO), new char[NUMBER](_ => ZERO);
      left, op, mode, entry := 0, ZERO, FirstNumber, CLEAR;
      new;
      SetText(display, "0");
      SetText(number, "0");
    }

    ghost predicate Buffers()
      reads this
    {
      display != number && display.Length == DISPLAY && number.Length == NUMBER
    }

    /** The buffers and fields are those of the abstract entry. */
    ghost predicate Valid()
      reads this, display, number
    {
      && Buffers() && Proper(entry)
      && Holds(display[..], Shown(entry))
      && match entry
         case First(d) => mode == FirstNumber && Holds(number[..], d)
         case Chosen(a, o) => mode == Operator && left == a && op == o
         case Second(a, o, d) => mode == SecondNumber && left == a && op == o && Holds(number[..], d)
         case Result(v) => mode == HasResult && left == v && Holds(number[..], Text(v))
         case Failed => mode == Error
    }

    /** `ustaw_blad`. */
    method SetError()
      requires Buffers()
      modifies this`left, this`op, this`mode, this`entry, display, number
      ensures Valid() && entry == Failed
    {
      SetText(display, "ERR");
      SetText(number, "0");
      left, op, mode, entry := 0, ZERO, Error, Failed;
    }

    /** `resetuj_kalkulator`. */
    method Reset()
      requires Buffers()
      modifies this`left, this`op, this`mode, this`entry, display, number
      ensures Valid() && entry == CLEAR
    {
      SetText(display, "0");
      SetText(number, "0");
      left, op, mode, entry := 0, ZERO, FirstNumber, CLEAR;
    }

    /** `dopisz_znak` on the display, falling back to the error state. */
    method Show(c: char, ghost t: string) returns (ok: bool)
      requires Buffers() && Holds(display[..], t) && c != ZERO
      modifies this`left, this`op, this`mode, this`entry, display, number
      ensures Buffers() && (ok <==> |t| + 1 < DISPLAY)
      ensures ok ==>
                Holds(display[..], t + [c]) && left == old(left) && op == old(op) && mode == old(mode)
                && entry == old(entry) && number[..] == old(number[..])
      ensures !ok ==> Valid() && entry == Failed
    {
      ok := Append(display, c, t);
      if !ok { SetError(); }
    }

    /** `oblicz_biezace`. */
    method Evaluate() returns (ok: bool, v: int)
      requires Valid() && entry.Second?
      ensures ok <==> Evaluated(entry).Fine?
      ensures ok ==> v == Evaluated(entry).value && InRange(v)
    {
      ReadNumber(entry.digits);
      hide Value, Text, Quotient;
      v := 0;
      var right: int;
      ok, right := StrToInt(number, entry.digits);
      if !ok { return; }
      ok, v := Compute(left, right, op);
    }

    /** The digit buttons. */
    method Digit(c: char)
      requires Valid() && IsDigit(c)
      modifies this`left, this`op, this`mode, this`entry, display, number
      ensures Valid() && entry == Pressed(old(entry), c)
    {
      hide Value, Text;
      PressedProper(entry, c);
      ShownFits(entry);
      ShownFits(Pressed(entry, c));
      if mode == HasResult || mode == Error {
        SetText(number, [c]);
        SetText(display, [c]);
        op, mode, entry := ZERO, FirstNumber, First([c]);
        return;
      }
      if mode == Operator {
        SetText(number, [c]);
        var ok := Show(c, Shown(entry));
        if !ok { return; }
        mode, entry := SecondNumber, Second(left, op, [c]);
        return;
      }
      TypeDigit(c);
    }

    /** A digit of the first or second number. */
    method TypeDigit(c: char)
      requires Valid() && IsDigit(c) && (entry.First? || entry.Second?)
      modifies this`left, this`op, this`mode, this`entry, display, number
      ensures Valid() && entry == Pressed(old(entry), c)
    {
      hide Value, Text, Pressed, Shown;
      HeldAt(number[..], entry.digits);
      if number[0] == '0' && number[1] == ZERO {
        LoneZero(number[..], entry.digits);
        ReplaceZero(c);
      } else {
        NotLoneZero(number[..], entry.digits);
        AddDigit(c);
      }
    }

    /** The lone 0 gives way to the digit, in both buffers. */
    method ReplaceZero(c: char)
      requires Valid() && IsDigit(c) && (entry.First? || entry.Second?) && entry.digits == "0"
      modifies this`left, this`op, this`mode, this`entry, display, number
      ensures Valid() && entry == Pressed(old(entry), c)
    {
      hide Value, Text, Shown;
      PressedProper(entry, c);
      LastShown(entry, entry.digits);
      SetText(number, [c]);
      ReplaceLast(display, c, Shown(entry));
      entry := Pressed(entry, c);
    }

    /** The digit is appended to both, unless the number is full. */
    method AddDigit(c: char)
      requires Valid() && IsDigit(c) && (entry.First? || entry.Second?) && entry.digits != "0"
      modifies this`left, this`op, this`mode, this`entry, display, number
      ensures Valid() && entry == Pressed(old(entry), c)
    {
      hide Value, Text, Shown;
      PressedProper(entry, c);
      ShownFits(entry);
      var added := Append(number, c, entry.digits);
      if !added { return; }
      ghost var next := Pressed(entry, c);
      LongerShown(entry, c);
      var ok := Show(c, Shown(entry));
      if !ok { return; }
      entry := next;
    }

    /** The operator buttons. */
    method Operate(c: char)
      requires Valid() && IsOperator(c)
      modifies this`left, this`op, this`mode, this`entry, display, number
      ensures Valid() && entry == Pressed(old(entry), c)
    {
      hide Value, Text, Evaluated;
      ghost var before := entry;
      PressedProper(entry, c);
      if mode == Error { Reset(); }
      ShownFits(entry);
      ShownFits(Pressed(before, c));
      if mode == Operator {
        op := c;
        LastChosen(entry);
        ReplaceLast(display, c, Shown(entry));
        entry := Pressed(before, c);
        return;
      }
      if mode == SecondNumber {
        SecondOperand(c);
        return;
      }
      ZeroFirst(before);
      FirstOperand(c);
    }

    /** An operator after the second number: the one before it is carried out. */
    method SecondOperand(c: char)
      requires Valid() && IsOperator(c) && entry.Second?
      modifies this`left, this`op, this`mode, this`entry, display, number
      ensures Valid() && entry == Pressed(old(entry), c)
    {
      hide Value, Text, Evaluated;
      PressedProper(entry, c);
      ShownFits(Pressed(entry, c));
      var ok, v := Evaluate();
      if !ok { SetError(); return; }
      left := v;
      IntToStr(v, number);
      IntToStr(v, display);
      var shown := Show(c, Text(v));
      if !shown { return; }
      op, mode, entry := c, Operator, Chosen(v, c);
    }

    /** An operator after the first number or after a result. */
    method FirstOperand(c: char)
      requires Valid() && IsOperator(c) && (entry.First? || entry.Result?)
      modifies this`left, this`op, this`mode, this`entry, display, number
      ensures Valid() && entry == Pressed(old(entry), c)
    {
      hide Value, Text, Pressed, Shown, IsNumber, NumberValue;
      ghost var t, next := Operand(entry), Pressed(entry, c);
      OperandFacts(entry, c);
      ShownFits(next);
      PressedProper(entry, c);
      var ok, v := StrToInt(number, t);
      if !ok { SetError(); return; }
      left := v;
      op := c;
      if mode == HasResult { IntToStr(left, display); }
      var shown := Show(c, t);
      if !shown { return; }
      mode, entry := Operator, next;
    }

    /** `KalkulatorKlik` (kalkulator.cpp:327-460). */
    method Click(c: char)
      requires Valid()
      modifies this`left, this`op, this`mode, this`entry, display, number
      ensures Valid() && entry == Pressed(old(entry), c)
      ensures c == 'C' || c == 'c' ==> Holds(display[..], "0")
      ensures IsDigit(c) && (old(entry).Result? || old(entry).Failed?) ==> Holds(display[..], [c])
    {
      hide Value, Text, Evaluated;
      if '0' <= c <= '9' {
        Digit(c);
      } else if c == 'C' || c == 'c' {
        Reset();
      } else if c == '+' || c == '-' || c == '*' || c == '/' {
        Operate(c);
      } else if c == '=' || c == '\n' || c == '\r' {
        if mode != SecondNumber { return; }
        PressedProper(entry, c);
        ghost var next := Pressed(entry, c);
        var ok, v := Evaluate();
        if !ok { SetError(); return; }
        left, op := v, ZERO;
        IntToStr(v, number);
        IntToStr(v, display);
        mode, entry := HasResult, next;
      }
    }

    /** Any sequence of buttons: the display is what evaluating them from left to right shows. */
    method ClickAll(buttons: string)
      requires Valid()
      modifies this`left, this`op, this`mode, this`entry, display, number
      ensures Valid() && entry == PressedAll(old(entry), buttons)
      ensures Holds(display[..], Shown(PressedAll(old(entry), buttons)))
              && |Shown(PressedAll(old(entry), buttons))| <= 52
    {
      hide Pressed, Shown;
      var i := 0;
      assert buttons[..0] == [];
      while i < |buttons|
        invariant 0 <= i <= |buttons| && Valid() && entry == PressedAll(old(entry), buttons[..i])
      {
        Click(buttons[i]);
        assert buttons[..i+1] == buttons[..i] + [buttons[i]];
        PressedNext(old(entry), buttons[..i], buttons[i]);
        i := i + 1;
      }
      assert buttons[..i] == buttons;
      ShownFits(entry);
    }
  }

  /** The text of the number an operator is applied to first. */
  ghost function Operand(e: Entry): string
    requires e.First? || e.Result?
  {
    if e.First? then e.digits else Text(e.value)
  }

  lemma OperandFacts(e: Entry, c: char)
    requires Proper(e) && IsOperator(c) && (e.First? || e.Result?)
    ensures Shown(e) == Operand(e) && |Operand(e)| + 1 < DISPLAY && IsNumber(Operand(e)) && Proper(Pressed(e, c))
    ensures if InRange(NumberValue(Operand(e))) then
              var next := Pressed(e, c);
              next == Chosen(NumberValue(Operand(e)), c) && Shown(next) == Operand(e) + [c]
            else Pressed(e, c) == Failed
    ensures e.Result? ==> NumberValue(Operand(e)) == e.value
  {
    hide Value, Digits;
    PressedProper(e, c);
    ShownFits(e);
    if e.First? { ReadNumber(e.digits); } else { TextReadsBack(e.value); }
  }

  function PressedAll(e: Entry, buttons: string): Entry {
    if buttons == [] then e else Pressed(PressedAll(e, buttons[..|buttons|-1]), buttons[|buttons|-1])
  }

  lemma PressedNext(e: Entry, buttons: string, c: char)
    ensures PressedAll(e, buttons + [c]) == Pressed(PressedAll(e, buttons), c)
  {
    assert (buttons + [c])[..|buttons|] == buttons;
    hide Pressed;
  }

  lemma LoneZero(buf: seq<char>, d: string)
    requires Holds(buf, d) && Number(d) && |buf| > 1 && buf[0] == '0' && buf[1] == ZERO
    ensures d == "0"
  {
    HeldAt(buf, d);
  }

  lemma NotLoneZero(buf: seq<char>, d: string)
    requires Holds(buf, d) && Number(d) && |buf| > 1 && !(buf[0] == '0' && buf[1] == ZERO)
    ensures d != "0"
  {
    HeldAt(buf, d);
  }

  lemma LastShown(e: Entry, d: string)
    requires (e.First? || e.Second?) && e.digits == d == "0"
    ensures Shown(e) != [] && forall c: char ::
            Shown(e)[..|Shown(e)|-1] + [c] == Shown(if e.First? then First([c]) else Second(e.left, e.op, [c]))
  {
    if e.Second? { assert Shown(e)[..|Shown(e)|-1] == Text(e.left) + [e.op]; }
  }

  lemma LongerShown(e: Entry, c: char)
    requires (e.First? || e.Second?) && IsDigit(c) && e.digits != "0" && |e.digits| + 1 < NUMBER
    ensures Shown(Pressed(e, c)) == Shown(e) + [c]
  {
    if e.Second? { assert Text(e.left) + [e.op] + (e.digits + [c]) == Text(e.left) + [e.op] + e.digits + [c]; }
  }

  lemma LastChosen(e: Entry)
    requires e.Chosen?
    ensures Shown(e) != [] && forall c: char :: Shown(e)[..|Shown(e)|-1] + [c] == Shown(Chosen(e.left, c))
  {
    assert Shown(e)[..|Shown(e)|-1] == Text(e.left);
  }

  /** After an error an operator applies to the number 0. */
  lemma ZeroFirst(e: Entry)
    ensures e.Failed? ==> forall c: char | IsOperator(c) :: Pressed(CLEAR, c) == Pressed(e, c)
  {
    assert CLEAR.digits[..0] == [];
    assert Value("0") == 0;
  }

  // ----- whole expressions

  /** An operator and the number after it. */
  datatype Term = Term(op: char, digits: string)

  /** Numbers as one types them, without leading zeros. */
  ghost predicate Expression(first: string, terms: seq<Term>) {
    Number(first) && forall t <- terms :: IsOperator(t.op) && Number(t.digits)
  }

  /** From left to right; nothing more is computed once a step has no result. */
  function Folded(first: string, terms: seq<Term>): Outcome {
    if terms == [] then Read(first)
    else
      var before, last := Folded(first, terms[..|terms|-1]), terms[|terms|-1];
      var right := Read(last.digits);
      if before.Fine? && right.Fine? then Apply(before.value, right.value, last.op) else Wrong
  }

  /** The buttons of an expression. */
  function Keys(first: string, terms: seq<Term>): string {
    if terms == [] then first
    else Keys(first, terms[..|terms|-1]) + ([terms[|terms|-1].op] + terms[|terms|-1].digits)
  }

  lemma {:induction false} PressedConcat(e: Entry, a: string, b: string)
    ensures PressedAll(e, a + b) == PressedAll(PressedAll(e, a), b)
    decreases |b|
  {
    hide Pressed;
    if b == [] {
      assert a + b == a;
    } else {
      assert (a + b)[..|a + b|-1] == a + b[..|b|-1];
      PressedConcat(e, a, b[..|b|-1]);
    }
  }

  lemma NothingPressed(e: Entry)
    ensures PressedAll(e, []) == e
  {
  }

  lemma NumberBegins(d: string)
    requires Number(d) && |d| > 1
    ensures Number(d[..|d|-1]) && d[..|d|-1] != "0" && d[..|d|-1] + [d[|d|-1]] == d
  {
    assert d[..|d|-1][0] == d[0];
  }

  /** The digits of a number, typed where one is expected. */
  lemma {:induction false} TypeNumber(e: Entry, d: string)
    requires Number(d) && (e == CLEAR || e.Chosen?)
    ensures PressedAll(e, d) == if e == CLEAR then First(d) else Second(e.left, e.op, d)
    decreases |d|
  {
    hide Value, Text, PressedAll;
    var n := |d| - 1;
    assert d == d[..n] + [d[n]] && d[n] in d;
    PressedNext(e, d[..n], d[n]);
    if n == 0 {
      NothingPressed(e);
    } else {
      NumberBegins(d);
      TypeNumber(e, d[..n]);
    }
  }

  /** While every step has a result, the number typed last waits for its operator with the value of all before it. */
  lemma {:induction false} Entered(first: string, terms: seq<Term>)
    requires Expression(first, terms) && terms != [] && Folded(first, terms[..|terms|-1]).Fine?
    ensures var last := terms[|terms|-1];
            PressedAll(CLEAR, Keys(first, terms))
                == Second(Folded(first, terms[..|terms|-1]).value, last.op, last.digits)
    decreases |terms|
  {
    var before, last := terms[..|terms|-1], terms[|terms|-1];
    assert last in terms;
    hide Value, Text, Apply, Read, Number;
    if before == [] {
      TypeNumber(CLEAR, first);
    } else {
      Entered(first, before);
    }
    PressedConcat(CLEAR, Keys(first, before), [last.op] + last.digits);
    PressedConcat(PressedAll(CLEAR, Keys(first, before)), [last.op], last.digits);
    PressedNext(PressedAll(CLEAR, Keys(first, before)), [], last.op);
    assert [] + [last.op] == [last.op];
    TypeNumber(Chosen(Folded(first, before).value, last.op), last.digits);
  }

  /** From a cleared calculator the buttons of a number, operators and numbers, and '=', show the result of working
      from left to right, or ERR if the last step has none; an operator in place of '=' shows it after the value, so a
      step without a result is shown as soon as the next button asks for it. */
  lemma Evaluates(first: string, terms: seq<Term>, c: char)
    requires Expression(first, terms) && (terms == [] || Folded(first, terms[..|terms|-1]).Fine?)
    ensures var r := Folded(first, terms); var shown := Shown(PressedAll(CLEAR, Keys(first, terms) + [c]));
            && (c == '=' && terms != [] ==> shown == if r.Fine? then Text(r.value) else "ERR")
            && (IsOperator(c) ==> shown == if r.Fine? then Text(r.value) + [c] else "ERR")
  {
    hide Value, Text, Apply, Read, Number;
    PressedNext(CLEAR, Keys(first, terms), c);
    if terms == [] { TypeNumber(CLEAR, first); } else { Entered(first, terms); }
  }

  /** Two numbers with an operator between them and '=' after: their sum, difference, product or whole quotient, or ERR
      when it does not fit 64 bits or the divisor is 0. */
  lemma TwoNumbers(a: nat, b: nat, op: char)
    requires a < 0x8000_0000_0000_0000 && b < 0x8000_0000_0000_0000
    ensures var shown := Shown(PressedAll(CLEAR, Text(a) + ([op] + Text(b)) + ['=']));
            && (op == '+' ==> shown == if a + b < 0x8000_0000_0000_0000 then Text(a + b) else "ERR")
            && (op == '-' ==> shown == Text(a - b))
            && (op == '*' ==> shown == if a * b < 0x8000_0000_0000_0000 then Text(a * b) else "ERR")
            && (op == '/' ==> shown == if b > 0 then Text(a / b) else "ERR")
  {
    if IsOperator(op) {
      var terms := [Term(op, Text(b))];
      TypedAs(a);
      TypedAs(b);
      KeysOfTwo(Text(a), op, Text(b));
      hide Value, Text, Read, Number, Quotient, Shown, PressedAll;
      assert terms[..0] == [];
      assert Folded(Text(a), []) == Read(Text(a));
      Evaluates(Text(a), terms, '=');
      Plainly(a, b, op);
    }
  }

  /** A number within 64 bits is typed as it is shown. */
  lemma TypedAs(n: nat)
    requires n < 0x8000_0000_0000_0000
    ensures Number(Text(n)) && Read(Text(n)) == Fine(n)
  {
    TextLength(n);
    DigitsCanonical(n);
    ValueOfDigits(n);
  }

  lemma KeysOfTwo(first: string, op: char, second: string)
    ensures Keys(first, [Term(op, second)]) == first + ([op] + second)
  {
    assert [Term(op, second)][..0] == [];
  }

  lemma Plainly(a: nat, b: nat, op: char)
    requires a < 0x8000_0000_0000_0000 && b < 0x8000_0000_0000_0000
    ensures var r := Apply(a, b, op);
            && (op == '+' ==> r == if a + b < 0x8000_0000_0000_0000 then Fine(a + b) else Wrong)
            && (op == '-' ==> r == Fine(a - b))
            && (op == '*' ==> r == if a * b < 0x8000_0000_0000_0000 then Fine(a * b) else Wrong)
            && (op == '/' ==> r == if b > 0 then Fine(a / b) else Wrong)
  {
    if op == '*' { assert a * b >= 0; }
    if op == '/' && b > 0 { OnlyOneOverflow(a, b); }
  }
}
