/** Numbers as text: ValueToHex and ValueToString of gnu-efi/lib/print.c, xtoi and Atoi of
    gnu-efi/lib/str.c. */
module Numbers {
  import opened BitWords
  import opened CStrings

  type i64 = x: int | -0x8000_0000_0000_0000 <= x < 0x8000_0000_0000_0000

  const HEX: text := "0123456789ABCDEF"

  /** The two bases; multiplication and division are by one or the other constant. */
  type Base = b: nat | b == 10 || b == 16 witness 10

  function Times(v: nat, base: Base): nat {
    if base == 16 then 16 * v else 10 * v
  }

  function Quotient(v: nat, base: Base): (q: nat)
    ensures v > 0 ==> q < v
    ensures q == 0 <==> v < base
  {
    if base == 16 then v / 16 else v / 10
  }

  function Remainder(v: nat, base: Base): (r: nat)
    ensures r < base && v == Times(Quotient(v, base), base) + r
  {
    if base == 16 then v % 16 else v % 10
  }

  /** The digits of `v`, most significant first, none in front of the leading one. */
  function Digits(v: nat, base: Base): (d: text)
    ensures d != []
  {
    if v < base then [HEX[v]] else Digits(Quotient(v, base), base) + [HEX[Remainder(v, base)]]
  }

  /** The digits in the order the conversion loops find them. */
  function LowFirst(v: nat, base: Base): text {
    if v == 0 then [] else [HEX[Remainder(v, base)]] + LowFirst(Quotient(v, base), base)
  }

  function Reverse(s: text): (r: text)
    ensures |r| == |s|
  {
    if s == [] then [] else Reverse(s[1..]) + [s[0]]
  }

  lemma {:induction false} ReverseAt(s: text, i: nat)
    requires i < |s|
    ensures Reverse(s)[i] == s[|s| - 1 - i]
  {
    if i < |s| - 1 {
      ReverseAt(s[1..], i);
    }
  }

  lemma {:induction false} LowFirstReversed(v: nat, base: Base)
    requires v > 0
    ensures Reverse(LowFirst(v, base)) == Digits(v, base)
    decreases v
  {
    var q, c := Quotient(v, base), HEX[Remainder(v, base)];
    assert LowFirst(v, base) == [c] + LowFirst(q, base);
    ReverseFront(c, LowFirst(q, base));
    if v < base {
      assert Remainder(v, base) == v && LowFirst(q, base) == [];
      assert [] + [c] == [c];
    } else {
      LowFirstReversed(q, base);
    }
  }

  lemma ReverseFront(c: char, s: text)
    ensures Reverse([c] + s) == Reverse(s) + [c]
    ensures Reverse([]) == []
  {
    assert ([c] + s)[1..] == s;
  }

  /** No leading zero, except for zero itself. */
  lemma {:induction false} Canonical(v: nat, base: Base)
    ensures Digits(v, base)[0] == '0' <==> v == 0
    decreases v
  {
    if v >= base {
      Canonical(Quotient(v, base), base);
    }
  }

  // ----- reading digits back

  /** The value of one character as a digit, upper and lower case alike. */
  function DigitValue(c: char): (d: int)
    ensures -1 <= d < 16
  {
    if '0' <= c <= '9' then c as int - '0' as int
    else if 'A' <= c <= 'F' then c as int - 'A' as int + 10
    else if 'a' <= c <= 'f' then c as int - 'a' as int + 10
    else -1
  }

  predicate IsDigit(c: char, base: Base) {
    0 <= DigitValue(c) < base
  }

  function Number(d: text, base: Base): (v: nat)
    requires forall c | c in d :: IsDigit(c, base)
  {
    if d == [] then 0
    else
      assert d[|d| - 1] in d && IsDigit(d[|d| - 1], base);
      Times(Number(d[..|d| - 1], base), base) + DigitValue(d[|d| - 1])
  }

  lemma HexValue(k: nat)
    requires k < 16
    ensures DigitValue(HEX[k]) == k && HEX[k] != ' ' && HEX[k] != '\0' && HEX[k] != ',' && HEX[k] != '-'
  {
  }

  lemma DigitsStep(v: nat, base: Base)
    requires v >= base
    ensures var q, r := Quotient(v, base), Remainder(v, base);
            q < v && r < base && v == Times(q, base) + r && Digits(v, base) == Digits(q, base) + [HEX[r]]
  {
  }

  lemma NumberAppend(d: text, k: nat, base: Base)
    requires k < base && forall c | c in d :: IsDigit(c, base)
    ensures forall c | c in d + [HEX[k]] :: IsDigit(c, base)
    ensures Number(d + [HEX[k]], base) == Times(Number(d, base), base) + k
  {
    HexValue(k);
    assert (d + [HEX[k]])[..|d|] == d;
  }

  /** The digits are decimal figures and, in base 16, capital letters. */
  lemma {:induction false} DigitCharacters(v: nat, base: Base)
    ensures forall c | c in Digits(v, base) :: '0' <= c <= '9' || (base == 16 && 'A' <= c <= 'F')
    decreases v
  {
    if v >= base {
      DigitCharacters(Quotient(v, base), base);
    }
  }

  /** What a character is worth as a digit: figures, and letters of either case from 10 on. */
  lemma DigitWorth(k: nat)
    requires k < 10
    ensures DigitValue(('0' as int + k) as char) == k
    ensures k < 6 ==> DigitValue(('A' as int + k) as char) == DigitValue(('a' as int + k) as char) == 10 + k
  {
  }

  /** Digits and Number are inverse. */
  lemma {:induction false} DigitsRoundTrip(v: nat, base: Base)
    ensures forall c | c in Digits(v, base) :: IsDigit(c, base) && c != ' ' && c != '\0'
    ensures Number(Digits(v, base), base) == v
    decreases v
  {
    if v < base {
      NumberAppend([], v, base);
      HexValue(v);
      assert Digits(v, base) == [] + [HEX[v]];
    } else {
      hide Digits, Quotient, Remainder, IsDigit, Number;
      var q, r := Quotient(v, base), Remainder(v, base);
      DigitsStep(v, base);
      DigitsRoundTrip(q, base);
      NumberAppend(Digits(q, base), r, base);
      HexValue(r);
    }
  }

  /** The first position from `i` on that is not a space. */
  function SkipSpaces(s: text, i: nat): (k: nat)
    requires i <= |s|
    ensures i <= k <= |s|
    decreases |s| - i
  {
    if i < |s| && s[i] == ' ' then SkipSpaces(s, i + 1) else i
  }

  /** The first position from `i` on that is not a digit. */
  function SkipDigits(s: text, i: nat, base: Base): (k: nat)
    requires i <= |s|
    ensures i <= k <= |s| && forall j | i <= j < k :: IsDigit(s[j], base)
    decreases |s| - i
  {
    if i < |s| && IsDigit(s[i], base) then SkipDigits(s, i + 1, base) else i
  }

  /** The number at the start of a string, behind any spaces. */
  function Parse(s: text, base: Base): nat {
    var a := SkipSpaces(s, 0);
    var b := SkipDigits(s, a, base);
    assert forall c | c in s[a..b] :: IsDigit(c, base);
    Number(s[a..b], base)
  }

  lemma {:induction false} AllDigits(s: text, i: nat, base: Base)
    requires i <= |s| && forall c | c in s :: IsDigit(c, base)
    ensures SkipDigits(s, i, base) == |s|
    decreases |s| - i
  {
    if i < |s| {
      assert s[i] in s;
      AllDigits(s, i + 1, base);
    }
  }

  lemma ParseDigits(v: nat, base: Base)
    ensures Parse(Digits(v, base), base) == v
  {
    var d := Digits(v, base);
    DigitsRoundTrip(v, base);
    assert d[0] in d;
    AllDigits(d, 0, base);
    assert d[0..|d|] == d;
  }

  /** Both conversions read the digits behind any number of spaces and stop in front of the first
      character that is not a digit. */
  lemma ParseMeans(n: nat, d: text, rest: text, base: Base)
    requires forall c | c in d :: IsDigit(c, base)
    requires rest != [] ==> !IsDigit(rest[0], base) && (d == [] ==> rest[0] != ' ')
    ensures Parse(seq(n, _ => ' ') + d + rest, base) == Number(d, base)
  {
    var s := seq(n, _ => ' ') + d + rest;
    assert forall i | 0 <= i < n :: s[i] == ' ';
    assert forall i | 0 <= i < |d| :: s[n + i] == d[i] && d[i] in d;
    assert rest != [] ==> s[n + |d|] == rest[0];
    assert !IsDigit(' ', base);
    SpacesSkipped(s, 0, n);
    DigitsSkipped(s, n, n + |d|, base);
    assert s[n..n + |d|] == d;
  }

  lemma {:induction false} SpacesSkipped(s: text, i: nat, n: nat)
    requires i <= n <= |s| && (forall j | i <= j < n :: s[j] == ' ') && (n < |s| ==> s[n] != ' ')
    ensures SkipSpaces(s, i) == n
    decreases n - i
  {
    if i < n {
      SpacesSkipped(s, i + 1, n);
    }
  }

  lemma {:induction false} DigitsSkipped(s: text, i: nat, n: nat, base: Base)
    requires i <= n <= |s| && (forall j | i <= j < n :: IsDigit(s[j], base)) && (n < |s| ==> !IsDigit(s[n], base))
    ensures SkipDigits(s, i, base) == n
    decreases n - i
  {
    if i < n {
      DigitsSkipped(s, i + 1, n, base);
    }
  }

  // ----- ValueToHex

  /** The C string at the start of a buffer is `t`. */
  ghost predicate Holds(b: seq<char>, t: text) {
    |t| < |b| && b[..|t|] == t && b[|t|] == '\0'
  }

  lemma {:induction false} LowFirstLength(v: nat, base: Base, n: nat)
    requires v < Power(base, n)
    ensures |LowFirst(v, base)| <= n
  {
    if v > 0 {
      LowFirstLength(Quotient(v, base), base, n - 1);
    }
  }

  function Power(base: Base, n: nat): nat {
    if n == 0 then 1 else Times(Power(base, n - 1), base)
  }

  lemma HexLength(v: u64)
    ensures |LowFirst(v, 16)| <= 16
  {
    assert Power(16, 8) == 0x1_0000_0000;
    assert Power(16, 12) == 0x1_0000_0000_0000;
    assert Power(16, 16) == TWO_64;
    LowFirstLength(v, 16, 16);
  }

  lemma DecimalLength(v: u64)
    ensures |LowFirst(v, 10)| <= 20
  {
    assert Power(10, 8) == 100_000_000;
    assert Power(10, 12) == 1_000_000_000_000;
    assert Power(10, 16) == 10_000_000_000_000_000;
    assert Power(10, 20) == 100_000_000_000_000_000_000;
    LowFirstLength(v, 10, 20);
  }

  method ValueToHex(buffer: array<char>, v: u64)
    requires buffer.Length >= 17
    modifies buffer
    ensures Holds(buffer[..], Digits(v, 16))
  {
    hide LowFirst, Reverse;
    if v == 0 {
      buffer[0] := '0';
      buffer[1] := '\0';
      return;
    }
    hide Digits;
    var str := new char[30];
    HexLength(v);
    var p1 := CollectDigits(str, v, 16);
    LowFirstReversed(v, 16);
    ghost var n, digits := p1, str[..p1];
    var p2 := 0;
    while p1 != 0
      invariant 0 <= p1 <= n && p2 == n - p1 && str[..n] == digits
      invariant buffer[..p2] == Reverse(digits)[..p2]
    {
      p1 := p1 - 1;
      ReverseAt(digits, p2);
      assert digits[p1] == str[p1];
      ghost var done := buffer[..p2];
      buffer[p2] := str[p1];
      assert buffer[..p2 + 1] == done + [str[p1]];
      p2 := p2 + 1;
    }
    buffer[p2] := '\0';
  }

  /** The first loop of both conversions: the digits, lowest first. */
  method CollectDigits(str: array<char>, v: u64, base: Base) returns (n: nat)
    requires |LowFirst(v, base)| <= str.Length
    modifies str
    ensures n <= str.Length && str[..n] == LowFirst(v, base)
  {
    hide LowFirst, Quotient, Remainder;
    n := 0;
    var rest: nat := v;
    while rest != 0
      invariant n + |LowFirst(rest, base)| <= str.Length
      invariant str[..n] + LowFirst(rest, base) == LowFirst(v, base)
      decreases rest
    {
      ghost var done := str[..n];
      LowFirstSplit(rest, base);
      var digit, quotient := Remainder(rest, base), Quotient(rest, base);
      str[n] := HEX[digit];
      assert str[..n + 1] == done + [HEX[digit]];
      n := n + 1;
      rest := quotient;
    }
    LowFirstSplit(0, base);
  }

  lemma LowFirstSplit(v: nat, base: Base)
    ensures LowFirst(v, base) == if v == 0 then []
                                 else [HEX[Remainder(v, base)]] + LowFirst(Quotient(v, base), base)
  {
  }

  // ----- ValueToString

  /** The digits with a comma in front of every group of three but the first. */
  function Grouped(d: text): text {
    if |d| <= 3 then d else Grouped(d[..|d| - 3]) + "," + d[|d| - 3..]
  }

  function Magnitude(v: i64): u64 {
    if v < 0 then -(v as int) else v
  }

  /** What ValueToString writes. */
  function Decimal(v: i64, comma: bool): text {
    var d := Digits(Magnitude(v), 10);
    (if v < 0 then "-" else "") + (if comma then Grouped(d) else d)
  }

  /** The text in front of digit `i` when `i` digits have been written. */
  function Upto(d: text, i: nat, comma: bool): text
    requires i <= |d|
  {
    if i == 0 then []
    else Upto(d, i - 1, comma) + (if comma && i > 1 && (|d| - i + 1) % 3 == 0 then "," else "") + [d[i - 1]]
  }

  lemma {:induction false} UptoPlain(d: text, i: nat)
    requires i <= |d|
    ensures Upto(d, i, false) == d[..i]
  {
    if i > 0 {
      UptoPlain(d, i - 1);
    }
  }

  /** The text written so far depends on the later digits only by their number, modulo three. */
  lemma {:induction false} UptoPrefix(d: text, e: text, i: nat)
    requires i <= |d| <= |e| && (|e| - |d|) % 3 == 0 && d[..i] == e[..i]
    ensures Upto(d, i, true) == Upto(e, i, true)
  {
    hide Upto;
    if i == 0 {
      NothingYet(d, true);
      NothingYet(e, true);
    } else {
      ShorterPrefix(d, e, i);
      UptoPrefix(d, e, i - 1);
      UptoNext(d, i - 1, true);
      UptoNext(e, i - 1, true);
    }
  }

  lemma ShorterPrefix(d: text, e: text, i: nat)
    requires 0 < i <= |d| && i <= |e| && d[..i] == e[..i]
    ensures d[..i - 1] == e[..i - 1] && d[i - 1] == e[i - 1]
  {
    assert d[..i - 1] == d[..i][..i - 1] && e[..i][..i - 1] == e[..i - 1];
    assert d[i - 1] == d[..i][i - 1] && e[..i][i - 1] == e[i - 1];
  }

  lemma UptoNext(d: text, i: nat, comma: bool)
    requires i < |d|
    ensures Upto(d, i + 1, comma)
         == Upto(d, i, comma) + (if comma && i > 0 && (|d| - i) % 3 == 0 then "," else "") + [d[i]]
  {
  }

  lemma GroupedStep(d: text)
    ensures Grouped(d) == if |d| <= 3 then d else Grouped(d[..|d| - 3]) + "," + d[|d| - 3..]
  {
  }

  lemma UptoThree(d: text, n: nat)
    requires 0 < n && |d| == n + 3
    ensures Upto(d, |d|, true) == Upto(d, n, true) + "," + d[n..]
  {
    hide Upto;
    UptoNext(d, n, true);
    UptoNext(d, n + 1, true);
    UptoNext(d, n + 2, true);
    assert d[n..] == [d[n]] + [d[n + 1]] + [d[n + 2]];
  }

  lemma {:induction false} UptoGrouped(d: text)
    ensures Upto(d, |d|, true) == Grouped(d)
    decreases |d|
  {
    hide Upto, Grouped;
    GroupedStep(d);
    if |d| <= 3 {
      UptoShort(d, |d|);
      assert d[..|d|] == d;
    } else {
      var n := |d| - 3;
      UptoGrouped(d[..n]);
      UptoPrefix(d[..n], d, n);
      UptoThree(d, n);
    }
  }

  lemma {:induction false} UptoShort(d: text, i: nat)
    requires i <= |d| <= 3
    ensures Upto(d, i, true) == d[..i]
  {
    if i > 0 {
      UptoShort(d, i - 1);
      UptoNext(d, i - 1, true);
      hide Upto;
      assert d[..i] == d[..i - 1] + [d[i - 1]];
    }
  }

  /** The number of digits in front of the first comma. */
  const CA: seq<nat> := [3, 1, 2]

  /** The countdown `c` before digit `i`: at 1 a comma is due. */
  function Countdown(n: nat, i: nat, comma: bool): nat
    requires i <= n <= 20
  {
    if !comma then 1000 - i
    else if i == 0 then CA[n % 3] + 1
    else (n - i) % 3 + 1
  }

  lemma CountdownStep(n: nat, i: nat, comma: bool)
    requires i < n <= 20
    ensures var c := Countdown(n, i, comma) - 1;
            && (c == 0 <==> comma && i > 0 && (n - i) % 3 == 0)
            && Countdown(n, i + 1, comma) == if c == 0 then 3 else c
  {
  }

  method ValueToString(buffer: array<char>, comma: bool, v: i64)
    requires buffer.Length >= 42
    modifies buffer
    ensures Holds(buffer[..], Decimal(v, comma))
  {
    hide LowFirst, Reverse, Grouped, Digits, Upto, Countdown, Decimal;
    if v == 0 {
      buffer[0] := '0';
      buffer[1] := '\0';
      ZeroDecimal(comma);
      return;
    }
    var value := Magnitude(v);
    var p2 := 0;
    if v < 0 {
      buffer[0] := '-';
      p2 := 1;
    }
    WriteDigits(buffer, comma, value, p2);
    DecimalIs(v, comma);
  }

  lemma DecimalIs(v: i64, comma: bool)
    ensures Decimal(v, comma) == (if v < 0 then "-" else "") + Plain(Magnitude(v), comma)
  {
  }

  /** The digits, grouped or not. */
  function Plain(v: u64, comma: bool): text {
    if comma then Grouped(Digits(v, 10)) else Digits(v, 10)
  }

  /** ValueToString behind the sign. */
  method WriteDigits(buffer: array<char>, comma: bool, value: u64, start: nat)
    requires buffer.Length >= 42 && start <= 1 && value > 0
    modifies buffer
    ensures Holds(buffer[..], old(buffer[..start]) + Plain(value, comma))
  {
    hide LowFirst, Reverse, Grouped, Digits, Upto, Countdown;
    var str := new char[40];
    DecimalLength(value);
    var p1 := CollectDigits(str, value, 10);
    LowFirstReversed(value, 10);
    ghost var n, digits, sign := p1, Digits(value, 10), buffer[..start];
    ghost var low := str[..p1];
    var p2 := start;
    CountdownStart(n, comma);
    var c := (if comma then CA[p1 % 3] else 999) + 1;
    NothingYet(digits, comma);
    while p1 != 0
      invariant 0 <= p1 <= n && str[..n] == low
      invariant c == Countdown(n, n - p1, comma)
      invariant p2 <= start + 2 * (n - p1) && buffer[..p2] == sign + Upto(digits, n - p1, comma)
    {
      CountdownStep(n, n - p1, comma);
      UptoNext(digits, n - p1, comma);
      ReverseAt(low, n - p1);
      p1 := p1 - 1;
      assert str[p1] == low[p1];
      p2, c := WriteDigit(buffer, p2, c, str[p1]);
    }
    buffer[p2] := '\0';
    WholeText(digits, comma);
  }

  /** One pass of its loop: a comma if one is due, and a digit. */
  method WriteDigit(buffer: array<char>, p2: nat, c: nat, digit: char) returns (p2': nat, c': nat)
    requires c > 0 && p2 + 1 < buffer.Length
    modifies buffer
    ensures p2' == p2 + (if c == 1 then 2 else 1) && c' == if c == 1 then 3 else c - 1
    ensures buffer[..p2'] == old(buffer[..p2]) + (if c == 1 then "," else "") + [digit]
  {
    p2', c' := p2, c - 1;
    if c' == 0 {
      buffer[p2'] := ',';
      p2' := p2' + 1;
      c' := 3;
    }
    buffer[p2'] := digit;
    p2' := p2' + 1;
  }

  lemma CountdownStart(n: nat, comma: bool)
    requires n <= 20
    ensures Countdown(n, 0, comma) == (if comma then CA[n % 3] else 999) + 1
  {
  }

  lemma NothingYet(d: text, comma: bool)
    ensures Upto(d, 0, comma) == []
  {
  }

  lemma WholeText(d: text, comma: bool)
    ensures Upto(d, |d|, comma) == if comma then Grouped(d) else d
  {
    if comma {
      UptoGrouped(d);
    } else {
      UptoPlain(d, |d|);
      assert d[..|d|] == d;
    }
  }

  lemma ZeroDecimal(comma: bool)
    ensures Decimal(0, comma) == "0"
  {
  }

  // ----- what the texts say

  function DeleteCommas(s: text): text {
    if s == [] then [] else (if s[0] == ',' then [] else [s[0]]) + DeleteCommas(s[1..])
  }

  lemma {:induction false} DeleteCommasConcat(a: text, b: text)
    ensures DeleteCommas(a + b) == DeleteCommas(a) + DeleteCommas(b)
  {
    if a == [] {
      assert a + b == b;
    } else {
      assert (a + b)[1..] == a[1..] + b;
      DeleteCommasConcat(a[1..], b);
    }
  }

  lemma {:induction false} NoCommas(s: text)
    requires ',' !in s
    ensures DeleteCommas(s) == s
  {
    if s != [] {
      NoCommas(s[1..]);
    }
  }

  /** Without its commas a grouped number is the plain one. */
  lemma {:induction false} GroupedIsDigits(d: text)
    requires ',' !in d
    ensures DeleteCommas(Grouped(d)) == d
    decreases |d|
  {
    hide DeleteCommas, Grouped;
    GroupedStep(d);
    if |d| <= 3 {
      NoCommas(d);
    } else {
      var n := |d| - 3;
      GroupedIsDigits(d[..n]);
      OneComma();
      NoCommas(d[n..]);
      DeleteCommasConcat(Grouped(d[..n]) + ",", d[n..]);
      DeleteCommasConcat(Grouped(d[..n]), ",");
      assert d == d[..n] + d[n..];
    }
  }

  lemma OneComma()
    ensures DeleteCommas(",") == []
  {
    assert ","[1..] == [];
  }

  /** Where the commas stand: digit `i` of `d`, counted from the left, is found at its own
      position plus one for each comma before it, and a comma is right in front of it exactly
      when a group of three begins there. */
  lemma {:induction false} CommaPositions(d: text, i: nat)
    requires i < |d| && ',' !in d
    ensures var k := |Upto(d, i + 1, true)| - 1;
            && k < |Grouped(d)| && Grouped(d)[k] == d[i]
            && (k > 0 && Grouped(d)[k - 1] == ',' <==> i > 0 && (|d| - i) % 3 == 0)
  {
    UptoGrouped(d);
    UptoIsPrefix(d, i + 1, |d|);
    UptoNext(d, i, true);
    var done := Upto(d, i, true);
    if i > 0 {
      UptoNext(d, i - 1, true);
      assert done[|done| - 1] == d[i - 1] && d[i - 1] in d;
    }
  }

  lemma {:induction false} UptoIsPrefix(d: text, i: nat, n: nat)
    requires i <= n <= |d|
    ensures Upto(d, i, true) <= Upto(d, n, true)
    decreases n
  {
    if i < n {
      UptoIsPrefix(d, i, n - 1);
      UptoNext(d, n - 1, true);
    }
  }

  /** A number is its sign and the digits of its absolute value, the least INT64 included. */
  lemma SignedText(a: int, comma: bool)
    requires 0 <= a <= 0x8000_0000_0000_0000
    ensures a < 0x8000_0000_0000_0000 ==> Decimal(a, comma) == if comma then Grouped(Digits(a, 10)) else Digits(a, 10)
    ensures 0 < a ==> Decimal(-a, comma) == "-" + if comma then Grouped(Digits(a, 10)) else Digits(a, 10)
    ensures (forall c | c in Digits(a, 10) :: IsDigit(c, 10)) && Number(Digits(a, 10), 10) == a
  {
    hide Digits, Grouped;
    DigitsRoundTrip(a, 10);
  }

  /** An unsigned 64-bit value passed as INT64. */
  function AsSigned(v: u64): i64 {
    if v < 0x8000_0000_0000_0000 then v else v - TWO_64
  }

  /** `%lu` prints an unsigned value right, with or without commas, exactly when it is below 2^63. */
  lemma UnsignedPrintsRightIff(v: u64, comma: bool)
    ensures Decimal(AsSigned(v), comma) == Plain(v, comma) <==> v < 0x8000_0000_0000_0000
  {
    hide Digits, Grouped;
    DecimalIs(AsSigned(v), comma);
    if v >= 0x8000_0000_0000_0000 {
      PlainStart(v, comma);
      assert Decimal(AsSigned(v), comma)[0] == '-';
    }
  }

  /** No number begins with a minus sign of its own. */
  lemma PlainStart(v: u64, comma: bool)
    ensures Plain(v, comma) == [] || Plain(v, comma)[0] != '-'
  {
    hide Digits, Grouped;
    var d := Digits(v, 10);
    DigitsRoundTrip(v, 10);
    assert !IsDigit('-', 10) && !IsDigit(',', 10);
    var p := Plain(v, comma);
    if comma {
      GroupedIsDigits(d);
    }
    if p != [] && p[0] != ',' {
      assert p[0] == d[0] && d[0] in d;
    }
  }

  /** For example, the largest value prints as -1. */
  lemma LargestPrintsNegative()
    ensures Decimal(AsSigned(TWO_64 - 1), false) == "-1"
  {
    assert Digits(1, 10) == [HEX[1]] == "1";
  }

  // ----- xtoi and Atoi

  lemma {:induction false} SkipSpacesStep(s: text, i: nat)
    requires i <= |s|
    ensures SkipSpaces(s, i) == if At(s, i) == ' ' then SkipSpaces(s, i + 1) else i
  {
  }

  lemma NumberStep(s: text, a: nat, i: nat, base: Base)
    requires a <= i < |s| && forall j | a <= j <= i :: IsDigit(s[j], base)
    ensures forall c | c in s[a..i + 1] :: IsDigit(c, base)
    ensures forall c | c in s[a..i] :: IsDigit(c, base)
    ensures Number(s[a..i + 1], base) == Times(Number(s[a..i], base), base) + DigitValue(s[i])
  {
    assert s[a..i + 1][..i - a] == s[a..i];
  }

  lemma WrapStep(u: nat, n: nat, base: Base, d: nat)
    requires u == n % TWO_64
    ensures (Times(u, base) + d) % TWO_64 == (Times(n, base) + d) % TWO_64
  {
    var q := n / TWO_64;
    SameModulo(Times(u, base) + d, Times(q, base));
  }

  lemma SameModulo(a: nat, k: nat)
    ensures (k * TWO_64 + a) % TWO_64 == a % TWO_64
  {
  }

  lemma ParseIs(s: text, a: nat, b: nat, base: Base)
    requires a == SkipSpaces(s, 0) && b == SkipDigits(s, a, base)
    ensures forall c | c in s[a..b] :: IsDigit(c, base)
    ensures Parse(s, base) == Number(s[a..b], base)
  {
  }

  lemma SkipDigitsStep(s: text, i: nat, base: Base)
    requires i <= |s|
    ensures SkipDigits(s, i, base) == if i < |s| && IsDigit(s[i], base) then SkipDigits(s, i + 1, base) else i
  {
  }

  lemma NumberNothing(base: Base)
    ensures Number([], base) == 0
  {
  }

  /** The digit xtoi computes from a character it has turned to upper case. */
  function XtoiDigit(c: char): int {
    if '0' <= c <= '9' then c as int - '0' as int
    else if 'A' <= c <= 'F' then c as int - ('A' as int - 10)
    else -1
  }

  function Upper(c: char): char {
    if 'a' <= c <= 'f' then (c as int - ('a' as int - 'A' as int)) as char else c
  }

  lemma XtoiDigitValue(c: char)
    ensures IsDigit(c, 16) <==> XtoiDigit(Upper(c)) >= 0
    ensures IsDigit(c, 16) ==> XtoiDigit(Upper(c)) == DigitValue(c)
  {
  }

  method Xtoi(str: text) returns (u: u64)
    requires CString(str)
    ensures u == Parse(str, 16) % TWO_64
  {
    hide Number, Parse, IsDigit, SkipDigits, SkipSpaces;
    var i := 0;
    while At(str, i) != '\0' && At(str, i) == ' '
      invariant i <= |str| && SkipSpaces(str, 0) == SkipSpaces(str, i)
      decreases |str| - i
    {
      SkipSpacesStep(str, i);
      i := i + 1;
    }
    SkipSpacesStep(str, i);
    ghost var a := i;
    u := 0;
    var c := At(str, i);
    assert str[a..a] == [];
    NumberNothing(16);
    while c != '\0'
      invariant a <= i <= |str| && c == At(str, i)
      invariant SkipDigits(str, a, 16) == SkipDigits(str, i, 16)
      invariant forall j | a <= j < i :: IsDigit(str[j], 16)
      invariant forall ch | ch in str[a..i] :: IsDigit(ch, 16)
      invariant u == Number(str[a..i], 16) % TWO_64
      decreases |str| - i
    {
      SkipDigitsStep(str, i, 16);
      XtoiDigitValue(c);
      if c >= 'a' && c <= 'f' {
        c := (c as int - ('a' as int - 'A' as int)) as char;
      }
      if (c >= '0' && c <= '9') || (c >= 'A' && c <= 'F') {
        var digit := c as int - (if c >= 'A' then 'A' as int - 10 else '0' as int);
        NumberStep(str, a, i, 16);
        WrapStep(u, Number(str[a..i], 16), 16, digit);
        u := (u * 16 + digit) % TWO_64;
      } else {
        ParseIs(str, a, i, 16);
        return;
      }
      i := i + 1;
      c := At(str, i);
    }
    SkipDigitsStep(str, i, 16);
    ParseIs(str, a, i, 16);
  }

  method Atoi(str: text) returns (u: u64)
    requires CString(str)
    ensures u == Parse(str, 10) % TWO_64
  {
    hide Number, Parse, SkipDigits, SkipSpaces;
    var i := 0;
    while At(str, i) != '\0' && At(str, i) == ' '
      invariant i <= |str| && SkipSpaces(str, 0) == SkipSpaces(str, i)
      decreases |str| - i
    {
      SkipSpacesStep(str, i);
      i := i + 1;
    }
    SkipSpacesStep(str, i);
    ghost var a := i;
    u := 0;
    var c := At(str, i);
    assert str[a..a] == [];
    NumberNothing(10);
    while c != '\0'
      invariant a <= i <= |str| && c == At(str, i)
      invariant SkipDigits(str, a, 10) == SkipDigits(str, i, 10)
      invariant forall j | a <= j < i :: IsDigit(str[j], 10)
      invariant forall ch | ch in str[a..i] :: IsDigit(ch, 10)
      invariant u == Number(str[a..i], 10) % TWO_64
      decreases |str| - i
    {
      SkipDigitsStep(str, i, 10);
      if c >= '0' && c <= '9' {
        NumberStep(str, a, i, 10);
        WrapStep(u, Number(str[a..i], 10), 10, c as int - '0' as int);
        u := (u * 10 + (c as int - '0' as int)) % TWO_64;
      } else {
        ParseIs(str, a, i, 10);
        return;
      }
      i := i + 1;
      c := At(str, i);
    }
    SkipDigitsStep(str, i, 10);
    ParseIs(str, a, i, 10);
  }

  /** xtoi undoes ValueToHex, and Atoi undoes ValueToString without commas. */
  lemma TextRoundTrips(v: u64)
    ensures Parse(Digits(v, 16), 16) % TWO_64 == v
    ensures v < 0x8000_0000_0000_0000 ==> Parse(Decimal(v, false), 10) % TWO_64 == v
  {
    hide Parse, Digits;
    ParseDigits(v, 16);
    ParseDigits(v, 10);
    assert "" + Digits(v, 10) == Digits(v, 10);
    assert v % TWO_64 == v;
  }
}
