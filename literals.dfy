/** Integer literals as Python's `int(text, 0)` reads them: surrounding
    whitespace, an optional sign, then a `0x`/`0o`/`0b` prefixed numeral (either
    case) or a decimal numeral, which may start with 0 only if it is all zeros.
    Underscore separators and non-ASCII digits are not modelled. */
module Literals {
  import opened BigEndian
  import opened Text

  /** The value of an ASCII digit or letter (letters count from 10). */
  function DigitValue(c: char): (r: nat)
    ensures r < 36 || r == 99
  {
    if '0' <= c <= '9' then c as int - '0' as int
    else if 'a' <= c <= 'z' then c as int - 'a' as int + 10
    else if 'A' <= c <= 'Z' then c as int - 'A' as int + 10
    else 99
  }

  predicate IsDigit(c: char, base: nat) {
    DigitValue(c) < base
  }

  /** The value of a non-empty numeral in the given base, or None when it is
      empty or holds a character that is not a digit of that base. */
  function ParseDigits(s: string, base: nat): (r: Option<nat>)
    requires 2 <= base <= 36
    ensures r.Some? <==> s != [] && forall i :: 0 <= i < |s| ==> IsDigit(s[i], base)
  {
    if s == [] then None
    else
      DigitsSnoc(s, s[..|s| - 1], base);
      if !IsDigit(s[|s| - 1], base) then None
      else if |s| == 1 then Some(DigitValue(s[0]))
      else
        var init := ParseDigits(s[..|s| - 1], base);
        if init.None? then None else Some(Shift(init.value, base, DigitValue(s[|s| - 1])))
  }

  /** The value of a numeral with one more digit d after the value v. */
  function Shift(v: nat, base: nat, d: nat): nat {
    v * base + d
  }

  /** A non-empty text is all digits iff all but its last character are and
      the last one is. */
  lemma DigitsSnoc(s: string, init: string, base: nat)
    requires s != [] && init == s[..|s| - 1]
    ensures (forall i :: 0 <= i < |s| ==> IsDigit(s[i], base))
        <==> (forall i :: 0 <= i < |init| ==> IsDigit(init[i], base)) && IsDigit(s[|s| - 1], base)
  {
    assert forall i :: 0 <= i < |init| ==> init[i] == s[i];
  }

  predicate AllZeros(s: string) {
    forall i :: 0 <= i < |s| ==> s[i] == '0'
  }

  /** An unsigned literal with its base prefix. */
  function ParseUnsigned(s: string): (r: Option<nat>)
  {
    if |s| >= 2 && s[0] == '0' && (s[1] == 'x' || s[1] == 'X') then ParseDigits(s[2..], 16)
    else if |s| >= 2 && s[0] == '0' && (s[1] == 'o' || s[1] == 'O') then ParseDigits(s[2..], 8)
    else if |s| >= 2 && s[0] == '0' && (s[1] == 'b' || s[1] == 'B') then ParseDigits(s[2..], 2)
    else if |s| > 0 && s[0] == '0' then (if AllZeros(s) then Some(0) else None)
    else ParseDigits(s, 10)
  }

  /** `int(text, 0)`; None stands for the ValueError. */
  function ParseInt(text: string): (r: Option<int>)
  {
    var s := Strip(text);
    if |s| > 0 && s[0] == '-' then
      var u := ParseUnsigned(s[1..]);
      if u.None? then None else Some(-(u.value as int))
    else if |s| > 0 && s[0] == '+' then
      var u := ParseUnsigned(s[1..]);
      if u.None? then None else Some(u.value)
    else
      var u := ParseUnsigned(s);
      if u.None? then None else Some(u.value)
  }

  /** The lower-case digit for a value below 36. */
  function DigitChar(d: nat): (c: char)
    requires d < 36
    ensures DigitValue(c) == d
    ensures !IsSpace(c) && c != '-' && c != '+'
    ensures d == 0 <==> c == '0'
  {
    if d < 10 then ('0' as int + d) as char else ('a' as int + d - 10) as char
  }

  lemma DivStep(n: nat, base: nat)
    requires 2 <= base <= n
    ensures 1 <= n / base < n && n % base < base
    ensures n == n / base * base + n % base
  {
  }

  /** The shortest numeral for n in the given base, without a prefix. */
  function Numeral(n: nat, base: nat): (r: string)
    requires 2 <= base <= 36
    ensures r != [] && NoSpace(r)
    ensures forall i :: 0 <= i < |r| ==> IsDigit(r[i], base)
    ensures r[0] == '0' <==> n == 0
    ensures n < base <==> |r| == 1
    decreases n
  {
    if n < base then [DigitChar(n)]
    else
      DivStep(n, base);
      Numeral(n / base, base) + [DigitChar(n % base)]
  }

  /** Reading a numeral back gives the number it was written for. */
  lemma {:induction false} ParseNumeral(n: nat, base: nat)
    requires 2 <= base <= 36
    ensures ParseDigits(Numeral(n, base), base) == Some(n)
  {
    if n >= base {
      DivStep(n, base);
      var hi := Numeral(n / base, base);
      assert Numeral(n, base)[..|Numeral(n, base)| - 1] == hi;
      ParseNumeral(n / base, base);
    }
  }

  /** A decimal numeral is read by `int(text, 0)` as the number it denotes. */
  lemma DecimalLiteral(n: nat)
    ensures ParseInt(Numeral(n, 10)) == Some(n)
  {
    var s := Numeral(n, 10);
    ParseNumeral(n, 10);
    if n == 0 {
      assert s == "0";
    } else {
      assert s[0] != '0';
      assert |s| >= 2 ==> DigitValue(s[1]) < 10;
    }
  }

  /** A `0x` numeral is read by `int(text, 0)` as the number it denotes. */
  lemma HexLiteral(n: nat)
    ensures ParseInt("0x" + Numeral(n, 16)) == Some(n)
  {
    var digits := Numeral(n, 16);
    var s := "0x" + digits;
    ParseNumeral(n, 16);
    assert s[2..] == digits;
    assert NoSpace(s) by {
      forall i | 0 <= i < |s| ensures !IsSpace(s[i]) {
        if i >= 2 { assert s[i] == digits[i - 2]; }
      }
    }
    assert Strip(s) == s;
    assert s[0] == '0' && s[1] == 'x' && |s| >= 2;
    assert ParseDigits(s[2..], 16) == Some(n);
    assert ParseUnsigned(s) == Some(n);
  }

  /** The base a literal prefix selects, in either case. */
  predicate BasePrefix(p: string, base: nat) {
    || (base == 16 && (p == "0x" || p == "0X"))
    || (base == 8 && (p == "0o" || p == "0O"))
    || (base == 2 && (p == "0b" || p == "0B"))
  }

  /** After a base prefix, the digits are read in that base: any spelling
      of them, with leading zeros or upper-case letters, and None when they
      are empty or not all digits of the base. */
  lemma PrefixedLiteral(p: string, digits: string, base: nat)
    requires BasePrefix(p, base)
    ensures ParseUnsigned(p + digits) == ParseDigits(digits, base)
  {
    assert (p + digits)[2..] == digits;
  }

  /** Without a prefix, a numeral that starts with 1 to 9 is read in base
      10, and one that starts with 0 is read only when it is all zeros. */
  lemma DecimalUnsigned(s: string)
    requires s != [] && '0' <= s[0] <= '9'
    requires |s| >= 2 ==> s[1] !in "xXoObB"
    ensures s[0] != '0' ==> ParseUnsigned(s) == ParseDigits(s, 10)
    ensures s[0] == '0' ==> ParseUnsigned(s) == (if AllZeros(s) then Some(0) else None)
  {
  }

  /** `int(text, 0)` ignores surrounding whitespace and applies an optional
      sign to the unsigned literal between them. */
  lemma SignedLiteral(l: string, sign: string, u: string, r: string)
    requires AllSpace(l) && AllSpace(r)
    requires sign == "" || sign == "+" || sign == "-"
    requires u != [] && !IsSpace(u[0]) && !IsSpace(u[|u| - 1]) && u[0] != '+' && u[0] != '-'
    ensures ParseInt(l + sign + u + r)
            == match ParseUnsigned(u)
               case None => None
               case Some(v) => Some(if sign == "-" then -(v as int) else v)
  {
    var t := sign + u;
    assert l + sign + u + r == l + t + r;
    assert t[|t| - 1] == u[|u| - 1];
    StripAround(l, t, r);
    if sign != "" {
      assert t[1..] == u;
    } else {
      assert t == u;
    }
  }
}
