/** Printing integers and parsing them back. */
module Integers {

  const ULONG_MAX: nat := 0xFFFF_FFFF_FFFF_FFFF
  const INTMAX_MAX: int := 0x7FFF_FFFF_FFFF_FFFF
  const UINT_MAX: nat := 0xFFFF_FFFF

  datatype Conversion = Decimal | Octal | Hex {
    function Base(): nat {
      match this
      case Decimal => 10
      case Octal => 8
      case Hex => 16
    }
  }

  // ---------------------------------------------------------------- Digits

  function ToDigit(d: nat): char
    requires d < 16
  {
    if d < 10 then '0' + d as char else 'a' + (d - 10) as char
  }

  /** `parse_digit`: -1 if there is no such digit in the base. */
  function ParseDigit(c: char, base: int): int {
    var d := if '0' <= c <= '9' then (c - '0') as int
             else if 'a' <= c <= 'z' then (c - 'a') as int + 10
             else if 'A' <= c <= 'Z' then (c - 'A') as int + 10
             else -1;
    if d >= base then -1 else d
  }

  /** An unsigned base, passed as a signed one. */
  function AsInt(base: nat): int {
    if base <= 0x7FFF_FFFF then base else base - 0x1_0000_0000
  }

  lemma DigitRoundTrip(d: nat, base: nat)
    requires d < base <= 16
    ensures ParseDigit(ToDigit(d), base) == d && ToDigit(d) != 'x'
  {
  }

  function Digits(v: nat, conv: Conversion): string {
    if v == 0 then "" else Digits(v / conv.Base(), conv) + [ToDigit(v % conv.Base())]
  }

  function Zeros(n: nat): (s: string)
    ensures |s| == n
  {
    if n == 0 then "" else Zeros(n - 1) + ['0']
  }

  /** Digits, with zeros in front up to the precision. */
  function Padded(v: nat, conv: Conversion, precision: nat): string {
    var d := Digits(v, conv);
    Zeros(if |d| < precision then precision - |d| else 0) + d
  }

  /** What the alternative form puts in front. */
  function Prefix(v: nat, conv: Conversion, precision: nat): string {
    match conv
    case Hex => if v != 0 then "0x" else ""
    case Octal => if Padded(v, conv, precision) == "" || Padded(v, conv, precision)[0] != '0' then "0" else ""
    case Decimal => ""
  }

  function Text(v: nat, conv: Conversion, precision: nat, alternative: bool): string {
    (if alternative then Prefix(v, conv, precision) else "") + Padded(v, conv, precision)
  }

  // ---------------------------------------------------------------- Printing

  function Pow8(k: nat): nat {
    if k == 0 then 1 else 8 * Pow8(k - 1)
  }

  lemma {:induction false} DigitsAreFew(v: nat, conv: Conversion, k: nat)
    requires v < Pow8(k)
    ensures |Digits(v, conv)| <= k
    decreases k
  {
    if v != 0 {
      DigitsAreFew(v / conv.Base(), conv, k - 1);
    }
  }

  /** 0x20 bytes are enough for the digits. */
  lemma StoreIsEnough(v: nat, conv: Conversion)
    requires v <= ULONG_MAX
    ensures |Digits(v, conv)| <= 0x20
  {
    assert Pow8(4) == 0x1000;
    assert Pow8(8) == 0x100_0000;
    assert Pow8(16) == 0x1_0000_0000_0000;
    assert Pow8(22) == 0x4_0000_0000_0000_0000;
    DigitsAreFew(v, conv, 22);
  }

  lemma {:induction false} ZerosAre(n: nat)
    ensures forall i :: 0 <= i < n ==> Zeros(n)[i] == '0'
  {
    if n > 0 {
      ZerosAre(n - 1);
    }
  }

  ghost predicate AllZero(store: array<char>, n: nat)
    requires n <= store.Length
    reads store
  {
    forall i :: 0 <= i < n ==> store[i] == '0'
  }

  /** Puts one character in front. */
  method PutFront(store: array<char>, idx0: nat, c: char) returns (idx: nat)
    requires 0 < idx0 <= store.Length
    modifies store
    ensures idx == idx0 - 1 && store[idx..] == [c] + old(store[idx0..])
    ensures forall i :: 0 <= i < idx ==> store[i] == old(store[i])
  {
    ghost var rest := store[idx0..];
    idx := idx0 - 1;
    store[idx] := c;
    assert store[idx..] == [c] + rest;
  }

  lemma DigitsStep(v: nat, conv: Conversion, rest: string)
    requires v != 0
    ensures Digits(v, conv) + rest == Digits(v / conv.Base(), conv) + ([ToDigit(v % conv.Base())] + rest)
  {
  }

  /** Writes the digits of `v0` at the end of the store. */
  method PutDigits(store: array<char>, v0: nat, conv: Conversion) returns (idx: nat)
    requires |Digits(v0, conv)| <= store.Length && AllZero(store, store.Length)
    modifies store
    ensures idx <= store.Length && store[idx..] == Digits(v0, conv) && AllZero(store, idx)
  {
    idx := store.Length;
    var v: nat := v0;
    ghost var all := Digits(v0, conv);
    while v != 0
      invariant idx <= store.Length && AllZero(store, idx) && all == Digits(v, conv) + store[idx..]
    {
      DigitsStep(v, conv, store[idx..]);
      idx := PutFront(store, idx, ToDigit(v % conv.Base()));
      v := v / conv.Base();
    }
  }

  /** Digits with zeros in front. */
  method PutPadded(store: array<char>, v: nat, conv: Conversion, precision: nat) returns (idx: nat)
    requires |Digits(v, conv)| <= store.Length && precision <= store.Length && AllZero(store, store.Length)
    modifies store
    ensures idx <= store.Length && store[idx..] == Padded(v, conv, precision)
  {
    idx := PutDigits(store, v, conv);
    ghost var digits := Digits(v, conv);
    PaddedIs(v, conv, precision, digits);
    if store.Length - idx < precision {
      ZeroPrefix(store[..], store.Length - precision, precision - |digits|, digits);
      idx := store.Length - precision;
    }
  }

  lemma PaddedIs(v: nat, conv: Conversion, precision: nat, digits: string)
    requires digits == Digits(v, conv)
    ensures Padded(v, conv, precision) == if |digits| < precision then Zeros(precision - |digits|) + digits else digits
  {
    assert Zeros(0) + digits == digits;
  }

  lemma ZeroPrefix(s: string, idx: nat, n: nat, digits: string)
    requires idx + n <= |s| && s[idx + n..] == digits && forall i :: 0 <= i < idx + n ==> s[i] == '0'
    ensures s[idx..] == Zeros(n) + digits
  {
    ZerosAre(n);
    assert s[idx..idx + n] == Zeros(n);
    assert s[idx..] == s[idx..idx + n] + s[idx + n..];
  }

  lemma PaddedLength(v: nat, conv: Conversion, precision: nat)
    requires v <= ULONG_MAX
    ensures |Digits(v, conv)| <= 0x20
    ensures |Padded(v, conv, precision)| <= if precision < 0x20 then 0x20 else precision
  {
    StoreIsEnough(v, conv);
  }

  /** The alternative form. */
  method PutPrefix(store: array<char>, idx0: nat, v: nat, conv: Conversion, ghost text: string, ghost prefix: string)
      returns (idx: nat)
    requires 2 <= idx0 <= store.Length && store[idx0..] == text
    requires prefix == match conv
                       case Hex => if v != 0 then "0x" else ""
                       case Octal => if text == "" || text[0] != '0' then "0" else ""
                       case Decimal => ""
    modifies store
    ensures idx == idx0 - |prefix| && store[idx..] == prefix + text
  {
    idx := idx0;
    if conv == Hex && v != 0 {
      idx := PutFront(store, idx, 'x');
      idx := PutFront(store, idx, '0');
      assert ['0'] + (['x'] + text) == "0x" + text;
    } else if conv == Octal {
      assert idx < store.Length ==> store[idx] == text[0];
      if idx == store.Length || store[idx] != '0' {
        idx := PutFront(store, idx, '0');
      }
    }
  }

  function Magnitude(x: int): nat {
    if x < 0 then -x else x
  }

  /** What comes first: a minus, or for a signed conversion what the flags ask for. */
  function Sign(x: int, signed: bool, forceSign: bool, blank: bool): string {
    if x < 0 then "-"
    else if !signed then ""
    else if forceSign then "+"
    else if blank then " "
    else ""
  }

  function Printed(x: int, signed: bool, conv: Conversion, precision: nat, alternative: bool,
                   forceSign: bool, blank: bool): string
  {
    Sign(x, signed, forceSign, blank) + Text(Magnitude(x), conv, precision, alternative)
  }

  /** The integer conversion of `vprintf_core`: fills the backing store from its end. Nothing is
      written in front of the store, and what is in it from `idx` on is the text. */
  method PrintInteger(x: int, signed: bool, conv: Conversion, precision: nat, alternative: bool,
                      forceSign: bool, blank: bool)
      returns (store: array<char>, idx: nat)
    requires if signed then conv == Decimal && -INTMAX_MAX - 1 <= x <= INTMAX_MAX else 0 <= x <= ULONG_MAX
    ensures fresh(store) && store.Length == (if precision < 0x20 then 0x20 else precision) + 3
    ensures idx <= store.Length
    ensures store[idx..] == Printed(x, signed, conv, precision, alternative, forceSign, blank)
  {
    var v: nat := Magnitude(x);
    store := new char[(if precision < 0x20 then 0x20 else precision) + 3](_ => '0');
    PaddedLength(v, conv, precision);
    idx := PutPadded(store, v, conv, precision);
    ghost var text := Padded(v, conv, precision);
    if alternative {
      ghost var prefix := Prefix(v, conv, precision);
      idx := PutPrefix(store, idx, v, conv, text, prefix);
      text := prefix + text;
    }
    assert "" + text == text;
    if x < 0 {
      idx := PutFront(store, idx, '-');
    } else if signed {
      if forceSign {
        idx := PutFront(store, idx, '+');
      } else if blank {
        idx := PutFront(store, idx, ' ');
      }
    }
  }

  // ---------------------------------------------------------------- Parsing

  /** The number that digits make up. */
  function Number(ds: seq<nat>, base: nat): nat {
    if ds == [] then 0 else Number(ds[..|ds| - 1], base) * base + ds[|ds| - 1]
  }

  /** The digits `s` starts with. */
  function Leading(s: string, base: nat): (ds: seq<nat>)
    ensures |ds| <= |s|
  {
    if s == "" || ParseDigit(s[0], AsInt(base)) < 0 then []
    else [ParseDigit(s[0], AsInt(base))] + Leading(s[1..], base)
  }

  lemma {:induction false} LeadingAt(s: string, base: nat, i: nat)
    requires i < |s|
    ensures i < |Leading(s, base)| ==> ParseDigit(s[i], AsInt(base)) == Leading(s, base)[i]
    ensures i == |Leading(s, base)| ==> ParseDigit(s[i], AsInt(base)) < 0
  {
    if i > 0 && ParseDigit(s[0], AsInt(base)) >= 0 {
      LeadingAt(s[1..], base, i - 1);
    }
  }

  /** A value and where the text after it starts. */
  datatype Parsed = Parsed(value: nat, end: nat) | Failed

  /** Whether a "0x" is skipped. */
  function Skip(s: string, base: nat): (n: nat)
    ensures n <= |s|
  {
    if base == 16 && |s| >= 2 && s[0] == '0' && s[1] == 'x' then 2 else 0
  }

  /** What `str_to_ulong` means: the number that the digits make up, unless there are none or it is
      too large. */
  function Parse(s: string, base: nat): Parsed {
    var ds := Leading(s[Skip(s, base)..], base);
    if ds == [] || Number(ds, base) > ULONG_MAX then Failed else Parsed(Number(ds, base), Skip(s, base) + |ds|)
  }

  lemma {:induction false} NumberGrows(ds: seq<nat>, base: nat, n: nat)
    requires base > 0 && n <= |ds|
    ensures Number(ds[..n], base) <= Number(ds, base)
    decreases |ds|
  {
    if n < |ds| {
      var init := ds[..|ds| - 1];
      NumberGrows(init, base, n);
      assert init[..n] == ds[..n];
      TimesGrows(Number(init, base), base);
    } else {
      assert ds[..n] == ds;
    }
  }

  lemma TimesGrows(h: nat, base: nat)
    requires base > 0
    ensures h <= h * base
  {
  }

  lemma NumberStep(ds: seq<nat>, base: nat, i: nat)
    requires i < |ds|
    ensures Number(ds[..i + 1], base) == Number(ds[..i], base) * base + ds[i]
  {
    assert ds[..i + 1][..i] == ds[..i];
  }

  /** One digit more, unless that is too large: the two overflow checks. */
  method AddDigit(value0: nat, base: nat, digit: nat) returns (ok: bool, value: nat)
    requires value0 <= ULONG_MAX
    ensures ok <==> value0 * base + digit <= ULONG_MAX
    ensures ok ==> value == value0 * base + digit
  {
    value := value0 * base;
    if value > ULONG_MAX {
      return false, value;
    }
    value := value + digit;
    ok := value <= ULONG_MAX;
  }

  /** `str_to_ulong`: stops at the first overflow, which is the same as the whole number being too
      large. */
  method StrToUlong(s: string, base: nat) returns (r: Parsed)
    requires base <= UINT_MAX
    ensures r == Parse(s, base)
  {
    var skip := if base == 16 && |s| >= 2 && s[0] == '0' && s[1] == 'x' then 2 else 0;
    var t := s[skip..];
    ghost var ds := Leading(t, base);
    var value: nat, i: nat := 0, 0;
    while i < |t|
      invariant i <= |ds| && value == Number(ds[..i], base) <= ULONG_MAX
    {
      LeadingAt(t, base, i);
      var digit := ParseDigit(t[i], AsInt(base));
      if digit < 0 {
        break;
      }
      NumberStep(ds, base, i);
      NumberGrows(ds, base, i + 1);
      var ok;
      ok, value := AddDigit(value, base, digit);
      if !ok {
        return Failed;
      }
      i := i + 1;
    }
    assert ds[..i] == ds;
    if i == 0 {
      return Failed;
    }
    return Parsed(value, skip + i);
  }

  // ---------------------------------------------------------------- Round trip

  /** All of `s` are digits, and they make up `v`. */
  ghost predicate Spells(s: string, base: nat, v: nat) {
    |Leading(s, base)| == |s| && Number(Leading(s, base), base) == v
  }

  lemma {:induction false} LeadingSnoc(s: string, c: char, base: nat)
    requires |Leading(s, base)| == |s| && ParseDigit(c, AsInt(base)) >= 0
    ensures Leading(s + [c], base) == Leading(s, base) + [ParseDigit(c, AsInt(base))]
  {
    if s == "" {
      assert s + [c] == [c];
      assert [c][1..] == "";
    } else {
      assert (s + [c])[1..] == s[1..] + [c] && (s + [c])[0] == s[0];
      LeadingSnoc(s[1..], c, base);
    }
  }

  lemma QuotientRemainder(v: nat, conv: Conversion)
    ensures v / conv.Base() * conv.Base() + v % conv.Base() == v
  {
    match conv
    case Decimal =>
    case Octal =>
    case Hex =>
  }

  lemma {:induction false} DigitsSpell(v: nat, conv: Conversion)
    ensures Spells(Digits(v, conv), conv.Base(), v)
  {
    if v != 0 {
      var base := conv.Base();
      DigitsSpell(v / base, conv);
      DigitRoundTrip(v % base, base);
      LeadingSnoc(Digits(v / base, conv), ToDigit(v % base), base);
      var ds := Leading(Digits(v / base, conv), base);
      assert (ds + [v % base])[..|ds|] == ds;
      QuotientRemainder(v, conv);
    }
  }

  lemma {:induction false} NumberOfZero(ds: seq<nat>, base: nat)
    ensures Number([0] + ds, base) == Number(ds, base)
  {
    if ds == [] {
      assert [0] + ds == [0] && [0][..0] == [];
    } else {
      var n := |ds| - 1;
      NumberOfZero(ds[..n], base);
      assert ([0] + ds)[..n + 1] == [0] + ds[..n];
    }
  }

  lemma ZeroSpells(s: string, conv: Conversion, v: nat)
    requires Spells(s, conv.Base(), v)
    ensures Spells("0" + s, conv.Base(), v)
  {
    assert ("0" + s)[1..] == s;
    NumberOfZero(Leading(s, conv.Base()), conv.Base());
  }

  lemma {:induction false} ZerosSpell(n: nat, s: string, conv: Conversion, v: nat)
    requires Spells(s, conv.Base(), v)
    ensures Spells(Zeros(n) + s, conv.Base(), v)
  {
    if n == 0 {
      assert Zeros(n) + s == s;
    } else {
      ZeroSpells(s, conv, v);
      ZerosSpell(n - 1, "0" + s, conv, v);
      assert Zeros(n) + s == Zeros(n - 1) + ("0" + s);
    }
  }

  lemma PaddedSpells(v: nat, conv: Conversion, precision: nat)
    ensures Spells(Padded(v, conv, precision), conv.Base(), v)
  {
    var d := Digits(v, conv);
    DigitsSpell(v, conv);
    ZerosSpell(if |d| < precision then precision - |d| else 0, d, conv, v);
  }

  /** Text that is all digits is parsed to its end. */
  lemma SpelledParses(s: string, base: nat, v: nat)
    requires Spells(s, base, v) && v <= ULONG_MAX && base <= 16
    ensures Parse(s, base) == if s == "" then Failed else Parsed(v, |s|)
  {
    if |s| >= 2 {
      LeadingAt(s, base, 1);
    }
    assert Skip(s, base) == 0;
    assert s[0..] == s;
  }

  /** What was printed is parsed back, all of it, except when zero was printed as nothing. */
  lemma RoundTrip(v: nat, conv: Conversion, precision: nat, alternative: bool)
    requires v <= ULONG_MAX
    ensures var text := Text(v, conv, precision, alternative);
      if v == 0 && precision == 0 && !(alternative && conv == Octal)
      then text == "" && Parse(text, conv.Base()) == Failed
      else Parse(text, conv.Base()) == Parsed(v, |text|)
  {
    var padded, prefix, base := Padded(v, conv, precision), Prefix(v, conv, precision), conv.Base();
    PaddedSpells(v, conv, precision);
    PaddedIsEmpty(v, conv, precision);
    assert "" + padded == padded;
    if alternative && prefix == "0x" {
      var text := "0x" + padded;
      assert text[2..] == padded && Skip(text, base) == 2;
    } else if alternative && prefix == "0" {
      ZeroSpells(padded, conv, v);
      SpelledParses("0" + padded, base, v);
    } else {
      SpelledParses(padded, base, v);
    }
  }

  lemma PaddedIsEmpty(v: nat, conv: Conversion, precision: nat)
    ensures Padded(v, conv, precision) == "" <==> v == 0 && precision == 0
  {
  }

  // ---------------------------------------------------------------- What is printed, character by character

  predicate IsDigit(c: char) {
    '0' <= c <= '9' || 'a' <= c <= 'f'
  }

  ghost predicate AllDigits(s: string) {
    forall i :: 0 <= i < |s| ==> IsDigit(s[i])
  }

  lemma {:induction false} DigitsAreDigits(v: nat, conv: Conversion)
    ensures AllDigits(Digits(v, conv)) && (v > 0 ==> Digits(v, conv) != "" && Digits(v, conv)[0] != '0')
    decreases v
  {
    if v > 0 {
      DigitsAreDigits(v / conv.Base(), conv);
      assert v < conv.Base() ==> v / conv.Base() == 0 && v % conv.Base() == v;
    }
  }

  lemma PaddedShape(v: nat, conv: Conversion, precision: nat)
    ensures var s := Padded(v, conv, precision);
      AllDigits(s) && |s| >= precision && (|s| > precision ==> s[0] != '0')
  {
    var d := Digits(v, conv);
    DigitsAreDigits(v, conv);
    var n := if |d| < precision then precision - |d| else 0;
    ZerosAre(n);
    assert n == 0 ==> Zeros(n) + d == d;
  }

  /** How the digits of a text look: there are at least as many as the precision asks for, with no zero
      in front beyond that, except one that the alternative octal form needs. */
  ghost predicate WellFormed(d: string, precision: nat, octal: bool) {
    && AllDigits(d) && |d| >= precision
    && if octal then d != "" && d[0] == '0' && (|d| > precision && |d| > 1 ==> d[1] != '0')
       else |d| > precision ==> d[0] != '0'
  }

  /** A zero in front, if there is none. */
  lemma OctalShape(s: string, precision: nat)
    requires WellFormed(s, precision, false)
    ensures WellFormed(if s == "" || s[0] != '0' then "0" + s else s, precision, true)
  {
    if s == "" || s[0] != '0' {
      var text := "0" + s;
      assert forall i :: 1 <= i < |text| ==> text[i] == s[i - 1];
    }
  }

  function Front(v: nat, conv: Conversion, alternative: bool): nat {
    if alternative && conv == Hex && v != 0 then 2 else 0
  }

  lemma TextCases(v: nat, conv: Conversion, precision: nat, alternative: bool, padded: string, text: string)
    requires padded == Padded(v, conv, precision) && text == Text(v, conv, precision, alternative)
    ensures if Front(v, conv, alternative) == 2 then text == "0x" + padded
            else if alternative && conv == Octal && (padded == "" || padded[0] != '0') then text == "0" + padded
            else text == padded
  {
    assert "" + padded == padded;
  }

  /** A text is its digits, behind "0x" exactly for values other than zero in the alternative
      hexadecimal form. */
  lemma TextShape(v: nat, conv: Conversion, precision: nat, alternative: bool)
    ensures var text, front := Text(v, conv, precision, alternative), Front(v, conv, alternative);
      && front <= |text| && (front == 2 ==> text[..2] == "0x")
      && WellFormed(text[front..], precision, alternative && conv == Octal)
  {
    var padded, text := Padded(v, conv, precision), Text(v, conv, precision, alternative);
    PaddedShape(v, conv, precision);
    TextCases(v, conv, precision, alternative, padded, text);
    if Front(v, conv, alternative) == 2 {
      assert text[2..] == padded;
    } else {
      assert text[0..] == text;
      OctalShape(padded, precision);
    }
  }

  lemma TextStartsWithDigit(v: nat, conv: Conversion, precision: nat, alternative: bool)
    ensures var text := Text(v, conv, precision, alternative); text != "" ==> IsDigit(text[0])
  {
    TextShape(v, conv, precision, alternative);
    var text, front := Text(v, conv, precision, alternative), Front(v, conv, alternative);
    if front == 2 {
      assert text[0] == text[..2][0];
    } else if text != "" {
      assert text[0] == text[0..][0];
    }
  }

  /** Whether a text starts with the given character. */
  predicate Starts(text: string, c: char) {
    text != "" && text[0] == c
  }

  /** For every signed or unsigned 64-bit value and all flags: a minus is printed exactly for negative
      values, a plus or a blank exactly for others that are signed and whose flags ask for it, and what
      follows is parsed back as the magnitude, all of it, except when zero was printed as nothing. */
  lemma PrintedReadsBack(x: int, signed: bool, conv: Conversion, precision: nat, alternative: bool,
                         forceSign: bool, blank: bool)
    requires if signed then conv == Decimal && -INTMAX_MAX - 1 <= x <= INTMAX_MAX else 0 <= x <= ULONG_MAX
    ensures var text := Printed(x, signed, conv, precision, alternative, forceSign, blank);
      && (Starts(text, '-') <==> x < 0)
      && (Starts(text, '+') <==> x >= 0 && signed && forceSign)
      && (Starts(text, ' ') <==> x >= 0 && signed && blank && !forceSign)
      && var rest := if x < 0 || (signed && (forceSign || blank)) then text[1..] else text;
      if x == 0 && precision == 0 && !(alternative && conv == Octal) then rest == ""
      else Parse(rest, conv.Base()) == Parsed(if x < 0 then -x else x, |rest|)
  {
    var v := Magnitude(x);
    var text, sign := Text(v, conv, precision, alternative), Sign(x, signed, forceSign, blank);
    RoundTrip(v, conv, precision, alternative);
    TextStartsWithDigit(v, conv, precision, alternative);
    if sign == "" {
      assert sign + text == text;
    } else {
      assert (sign + text)[1..] == text && (sign + text)[0] == sign[0];
    }
  }

  // ---------------------------------------------------------------- What is parsed, character by character

  /** What a single character stands for: decimal digits, and letters of either case from ten on. In bases
      from 2^31 on, which are negative as an `int`, there are no digits. */
  lemma OneCharacter(c: char, base: nat)
    requires base <= 0xFFFF_FFFF
    ensures '0' <= c <= '9' ==> Parse([c], base) == OneDigit((c - '0') as nat, base)
    ensures 'a' <= c <= 'z' ==> Parse([c], base) == OneDigit(10 + (c - 'a') as nat, base)
    ensures 'A' <= c <= 'Z' ==> Parse([c], base) == OneDigit(10 + (c - 'A') as nat, base)
    ensures !('0' <= c <= '9' || 'a' <= c <= 'z' || 'A' <= c <= 'Z') ==> Parse([c], base) == Failed
  {
    var s := [c];
    assert s[0..] == s && s[1..] == "";
    assert Leading("", base) == [];
    if ParseDigit(c, AsInt(base)) >= 0 {
      var d: nat := ParseDigit(c, AsInt(base));
      assert Leading(s, base) == [d];
      assert [d][..0] == [] && Number([], base) == 0;
      assert Number([d], base) == d;
    }
  }

  function OneDigit(d: nat, base: nat): Parsed {
    if d < base <= 0x7FFF_FFFF then Parsed(d, 1) else Failed
  }

  lemma ParsedAs(s: string, base: nat, ds: seq<nat>, v: nat)
    requires ds == Leading(s[Skip(s, base)..], base) && ds != [] && v == Number(ds, base)
    ensures Parse(s, base) == if v <= ULONG_MAX then Parsed(v, Skip(s, base) + |ds|) else Failed
  {
  }

  /** Text that was parsed to its end is all digits, prefix aside. */
  lemma ParsedToEnd(s: string, base: nat, v: nat) returns (n: nat, t: string)
    requires Parse(s, base) == Parsed(v, |s|)
    ensures n == Skip(s, base) && t == s[n..] && t != "" && |Leading(t, base)| == |t|
    ensures Number(Leading(t, base), base) == v
  {
    n := Skip(s, base);
    t := s[n..];
  }

  lemma MoreDigits(s: string, v: nat, c: char, d: nat, base: nat, w: nat) returns (ds: seq<nat>)
    requires Parse(s, base) == Parsed(v, |s|) && ParseDigit(c, AsInt(base)) == d && w == v * base + d
    ensures var n := Skip(s + [c], base);
      ds != [] && ds == Leading((s + [c])[n..], base) && n + |ds| == |s| + 1
    ensures Number(ds, base) == w
  {
    var n, t := ParsedToEnd(s, base, v);
    ds := Leading(t, base) + [d];
    NumberSnoc(Leading(t, base), d, base);
    assert (s + [c])[n..] == t + [c];
    LeadingSnoc(t, c, base);
  }

  /** Text that was parsed to its end, and one more digit: the number is `base` times as large and the
      digit, unless that is too large. */
  lemma OneMoreDigit(s: string, v: nat, c: char, d: nat, base: nat, w: nat)
    requires base <= 0xFFFF_FFFF && Parse(s, base) == Parsed(v, |s|) && Parse([c], base) == Parsed(d, 1)
    requires w == v * base + d
    ensures Parse(s + [c], base) == if w <= ULONG_MAX then Parsed(w, |s| + 1) else Failed
  {
    IsItsDigit(c, d, base);
    var ds := MoreDigits(s, v, c, d, base, w);
    ParsedAs(s + [c], base, ds, w);
  }

  lemma IsItsDigit(c: char, d: nat, base: nat)
    requires base <= 0xFFFF_FFFF && Parse([c], base) == Parsed(d, 1)
    ensures ParseDigit(c, AsInt(base)) == d
  {
    OneCharacter(c, base);
  }

  lemma NumberSnoc(ds: seq<nat>, d: nat, base: nat)
    ensures Number(ds + [d], base) == Number(ds, base) * base + d
  {
    assert (ds + [d])[..|ds|] == ds;
  }
}
