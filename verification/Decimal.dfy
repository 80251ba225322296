/** The decimal conversions both codecs apply to field values: C's atoi and strtoul, base 10. */
module Decimal {

  const UINT_MODULUS: int := 0x1_0000_0000
  const ULONG_LIMIT: int := 0xFFFF_FFFF_FFFF_FFFF

  predicate IsSpace(c: char) {
    c == ' ' || c == '\t' || c == '\n' || c == '\r' || c == '\U{000B}' || c == '\U{000C}'
  }

  predicate IsDigit(c: char) {
    '0' <= c <= '9'
  }

  function SkipSpaces(s: string): string {
    if s != [] && IsSpace(s[0]) then SkipSpaces(s[1..]) else s
  }

  /** Value of the leading digits of `s`, continuing from `acc`. */
  function Digits(s: string, acc: nat): nat {
    if s == [] || !IsDigit(s[0]) then acc
    else Digits(s[1..], 10 * acc + (s[0] as int - '0' as int))
  }

  /** Leading blanks, an optional sign, then digits up to the first other character. */
  function Atoi(s: string): int {
    var t := SkipSpaces(s);
    if t != [] && t[0] == '-' then 0 - Digits(t[1..], 0)
    else if t != [] && t[0] == '+' then Digits(t[1..], 0)
    else Digits(t, 0)
  }

  /** An int stored in an unsigned int field. */
  function ToUnsigned(v: int): nat {
    v % UINT_MODULUS
  }

  /** strtoul stored in an unsigned int field: a magnitude beyond unsigned long saturates. */
  function StrtoulUnsigned(s: string): nat {
    var v := Atoi(s);
    if v > ULONG_LIMIT || v < -ULONG_LIMIT then ToUnsigned(ULONG_LIMIT) else ToUnsigned(v)
  }

  function Numeral(n: nat): string {
    if n < 10 then [('0' as int + n) as char] else Numeral(n / 10) + [('0' as int + n % 10) as char]
  }

  /** An integer as `operator<<` prints it. */
  function Print(n: int): string {
    if n < 0 then "-" + Numeral(-n) else Numeral(n)
  }

  ghost predicate AllDigits(s: string) {
    forall i :: 0 <= i < |s| ==> IsDigit(s[i])
  }

  lemma {:induction false} NumeralIsDigits(n: nat)
    ensures AllDigits(Numeral(n)) && Numeral(n) != []
  {
    if n >= 10 { NumeralIsDigits(n / 10); }
  }

  lemma {:induction false} DigitsAppend(a: string, b: string, acc: nat)
    requires AllDigits(a)
    ensures Digits(a + b, acc) == Digits(b, Digits(a, acc))
  {
    if a == [] {
      assert a + b == b;
    } else {
      assert (a + b)[1..] == a[1..] + b;
      DigitsAppend(a[1..], b, 10 * acc + (a[0] as int - '0' as int));
    }
  }

  lemma DigitsStop(s: string, acc: nat)
    requires s == [] || !IsDigit(s[0])
    ensures Digits(s, acc) == acc
  {
  }

  lemma {:induction false} DigitsOfNumeral(n: nat)
    ensures Digits(Numeral(n), 0) == n
  {
    if n >= 10 {
      var last := ('0' as int + n % 10) as char;
      NumeralIsDigits(n / 10);
      DigitsAppend(Numeral(n / 10), [last], 0);
      DigitsOfNumeral(n / 10);
    }
  }

  /** Reading back a printed integer, whatever non-digit text follows it. */
  lemma AtoiOfPrint(n: int, tail: string)
    requires tail == [] || !IsDigit(tail[0])
    ensures Atoi(Print(n) + tail) == n
  {
    hide Digits, Numeral;
    var m: nat := if n < 0 then -n else n;
    NumeralIsDigits(m);
    DigitsAppend(Numeral(m), tail, 0);
    DigitsOfNumeral(m);
    DigitsStop(tail, m);
    var s := Print(n) + tail;
    if n < 0 {
      assert s[0] == '-' && s[1..] == Numeral(m) + tail;
    } else {
      assert s == Numeral(m) + tail && IsDigit(s[0]);
    }
  }

  // --------------------------------------------------- what is read of an arbitrary text

  function Pow10(k: nat): nat {
    if k == 0 then 1 else 10 * Pow10(k - 1)
  }

  /** The number that decimal digits denote: each one counts its power of ten. */
  function Positional(digits: string): int {
    if digits == [] then 0
    else (digits[0] as int - '0' as int) * Pow10(|digits| - 1) + Positional(digits[1..])
  }

  /** How a text is read: blanks, at most one sign, digits, and what is not read.  Each part is as
      long as it can be; the digits may start with zeros or be missing. */
  ghost predicate Reading(s: string, blanks: string, sign: string, digits: string, rest: string) {
    && s == blanks + sign + digits + rest
    && (forall i :: 0 <= i < |blanks| ==> blanks[i] in {' ', '\t', '\n', '\r', '\U{000B}', '\U{000C}'})
    && (sign == "" || sign == "+" || sign == "-")
    && (forall i :: 0 <= i < |digits| ==> '0' <= digits[i] <= '9')
    && (rest != [] ==> !('0' <= rest[0] <= '9'))
    && (sign == "" && digits == "" && rest != [] ==>
          rest[0] !in {' ', '\t', '\n', '\r', '\U{000B}', '\U{000C}', '+', '-'})
  }

  lemma Horner(acc: int, d: int, p: int)
    ensures (10 * acc + d) * p == acc * (10 * p) + d * p
  {
  }

  lemma {:induction false} DigitsPositional(digits: string, rest: string, acc: nat)
    requires AllDigits(digits) && (rest == [] || !IsDigit(rest[0]))
    ensures Digits(digits + rest, acc) == acc * Pow10(|digits|) + Positional(digits)
  {
    if digits == [] {
      assert digits + rest == rest;
    } else {
      var d, s := digits[0] as int - '0' as int, digits + rest;
      assert s[1..] == digits[1..] + rest;
      DigitsPositional(digits[1..], rest, 10 * acc + d);
      Horner(acc, d, Pow10(|digits| - 1));
    }
  }

  lemma {:induction false} SkipsBlanks(blanks: string, t: string)
    requires forall i :: 0 <= i < |blanks| ==> IsSpace(blanks[i])
    requires t != [] ==> !IsSpace(t[0])
    ensures SkipSpaces(blanks + t) == t
  {
    if blanks == [] {
      assert blanks + t == t;
    } else {
      assert (blanks + t)[1..] == blanks[1..] + t;
      SkipsBlanks(blanks[1..], t);
    }
  }

  lemma AtoiOfReading(s: string, blanks: string, sign: string, digits: string, rest: string)
    requires Reading(s, blanks, sign, digits, rest)
    ensures Atoi(s) == if sign == "-" then -Positional(digits) else Positional(digits)
  {
    hide Digits, Positional;
    var t := sign + digits + rest;
    assert s == blanks + t;
    assert t[|sign|..] == digits + rest;
    assert sign == "" ==> t == digits + rest;
    SkipsBlanks(blanks, t);
    DigitsPositional(digits, rest, 0);
  }

  lemma {:induction false} SplitBlanks(s: string) returns (blanks: string)
    ensures s == blanks + SkipSpaces(s)
    ensures forall i :: 0 <= i < |blanks| ==> IsSpace(blanks[i])
    ensures SkipSpaces(s) != [] ==> !IsSpace(SkipSpaces(s)[0])
  {
    if s != [] && IsSpace(s[0]) {
      var more := SplitBlanks(s[1..]);
      blanks := [s[0]] + more;
    } else {
      blanks := [];
    }
  }

  lemma {:induction false} SplitDigits(s: string) returns (digits: string, rest: string)
    ensures s == digits + rest && AllDigits(digits)
    ensures rest != [] ==> !IsDigit(rest[0])
  {
    if s != [] && IsDigit(s[0]) {
      var more;
      more, rest := SplitDigits(s[1..]);
      digits := [s[0]] + more;
    } else {
      digits, rest := [], s;
    }
  }

  /** Every text can be read in this way. */
  lemma ReadingExists(s: string)
    returns (blanks: string, sign: string, digits: string, rest: string)
    ensures Reading(s, blanks, sign, digits, rest)
  {
    blanks := SplitBlanks(s);
    var t := SkipSpaces(s);
    sign := if t != [] && (t[0] == '+' || t[0] == '-') then t[..1] else "";
    digits, rest := SplitDigits(t[|sign|..]);
    assert t == sign + t[|sign|..];
  }

  /** atoi, for every text: the signed value of the digits that are read. */
  lemma AtoiReads(s: string, v: int)
    ensures Atoi(s) == v
       <==> exists blanks, sign, digits, rest :: Reading(s, blanks, sign, digits, rest)
              && v == if sign == "-" then -Positional(digits) else Positional(digits)
  {
    hide Atoi, Reading, Positional;
    var blanks, sign, digits, rest := ReadingExists(s);
    AtoiOfReading(s, blanks, sign, digits, rest);
    forall b, g, d, r | Reading(s, b, g, d, r)
      ensures Atoi(s) == if g == "-" then -Positional(d) else Positional(d)
    {
      AtoiOfReading(s, b, g, d, r);
    }
  }

  /** Storing an int in 32 unsigned bits: the one value in range that differs by a multiple
      of 2^32. */
  lemma ToUnsignedWraps(v: int, r: int)
    ensures ToUnsigned(v) == r <==> 0 <= r < 0x1_0000_0000 && (v - r) % 0x1_0000_0000 == 0
  {
  }

  /** strtoul into 32 unsigned bits: a number of up to 64 bits, of either sign, wraps; a longer one
      gives the largest value. */
  lemma StrtoulWraps(s: string, v: int)
    requires Atoi(s) == v
    ensures -0xFFFF_FFFF_FFFF_FFFF <= v <= 0xFFFF_FFFF_FFFF_FFFF ==>
              StrtoulUnsigned(s) == ToUnsigned(v)
    ensures v > 0xFFFF_FFFF_FFFF_FFFF || v < -0xFFFF_FFFF_FFFF_FFFF ==>
              StrtoulUnsigned(s) == 0xFFFF_FFFF
  {
  }

  /** strtoul agrees with the printed value for every unsigned int. */
  lemma StrtoulOfPrint(n: nat)
    requires n < UINT_MODULUS
    ensures StrtoulUnsigned(Print(n)) == n
  {
    AtoiOfPrint(n, []);
    assert Print(n) + [] == Print(n);
  }
}
