/** The string operations the assembler uses on its source lines: Python's
    `str.strip`, `str.startswith`/`endswith`, splitting at the first space
    (`s.split(" ")[0]` and `" ".join(s.split(" ")[1:])`), ASCII `str.upper`,
    and a whitespace tokenizer standing in for `shlex.split`.  The functions
    carry no postconditions of their own; what they compute is stated by the
    lemma next to each, so that the scanner's proofs only see the facts they
    ask for. */
module Text {

  /** The characters for which Python's `str.isspace` holds. */
  predicate IsSpace(c: char) {
    c == ' ' || ('\t' <= c <= '\r') || ('\U{1c}' <= c <= '\U{1f}')
    || c == '\U{85}' || c == '\U{a0}' || c == '\U{1680}' || ('\U{2000}' <= c <= '\U{200a}')
    || c == '\U{2028}' || c == '\U{2029}' || c == '\U{202f}' || c == '\U{205f}' || c == '\U{3000}'
  }

  predicate NoSpace(s: string) {
    forall i :: 0 <= i < |s| ==> !IsSpace(s[i])
  }

  function StripLeft(s: string): string {
    if |s| > 0 && IsSpace(s[0]) then StripLeft(s[1..]) else s
  }

  function StripRight(s: string): string {
    if |s| > 0 && IsSpace(s[|s| - 1]) then StripRight(s[..|s| - 1]) else s
  }

  /** `s.lstrip().rstrip()` */
  function Strip(s: string): string {
    StripRight(StripLeft(s))
  }

  /** lstrip removes exactly the leading whitespace. */
  lemma {:induction false} StripLeftSpec(s: string)
    ensures var r := StripLeft(s);
      && |r| <= |s| && r == s[|s| - |r|..]
      && (forall i :: 0 <= i < |s| - |r| ==> IsSpace(s[i]))
      && (r != [] ==> !IsSpace(r[0]))
  {
    if |s| > 0 && IsSpace(s[0]) {
      var t := s[1..];
      StripLeftSpec(t);
      var r := StripLeft(t);
      assert StripLeft(s) == r;
      assert t[|t| - |r|..] == s[|s| - |r|..];
      assert forall i :: 1 <= i < |s| ==> s[i] == t[i - 1];
    }
  }

  /** rstrip removes exactly the trailing whitespace. */
  lemma {:induction false} StripRightSpec(s: string)
    ensures var r := StripRight(s);
      && |r| <= |s| && r == s[..|r|]
      && (forall i :: |r| <= i < |s| ==> IsSpace(s[i]))
      && (r != [] ==> !IsSpace(r[|r| - 1]))
  {
    if |s| > 0 && IsSpace(s[|s| - 1]) {
      StripRightSpec(s[..|s| - 1]);
    }
  }

  /** The stripped text is a slice of s that neither starts nor ends with
      whitespace, and text without whitespace is left as it is. */
  lemma StripSpec(s: string)
    ensures var r := Strip(s);
      && (exists i, j :: 0 <= i <= j <= |s| && r == s[i..j])
      && (r != [] ==> !IsSpace(r[0]) && !IsSpace(r[|r| - 1]))
      && |r| <= |s|
      && (NoSpace(s) ==> r == s)
  {
    var l := StripLeft(s);
    StripLeftSpec(s);
    StripRightSpec(l);
    var r := StripRight(l);
    var i := |s| - |l|;
    assert r == s[i..i + |r|];
    if r != [] {
      assert r[0] == l[0];
    }
    if NoSpace(s) {
      assert |s| > 0 ==> !IsSpace(s[0]);
      assert l == s;
      assert |s| > 0 ==> !IsSpace(s[|s| - 1]);
    }
  }

  /** Stripping twice is stripping once. */
  lemma StripIdempotent(s: string)
    ensures Strip(Strip(s)) == Strip(s)
  {
    var r := Strip(s);
    StripSpec(s);
    var l := StripLeft(r);
    StripLeftSpec(r);
    if r != [] {
      assert l == r;
      StripRightSpec(r);
    }
  }

  predicate AllSpace(s: string) {
    forall i :: 0 <= i < |s| ==> IsSpace(s[i])
  }

  /** Leading whitespace before a text that does not start with whitespace
      is exactly what lstrip removes. */
  lemma {:induction false} StripLeftOver(l: string, t: string)
    requires AllSpace(l)
    requires t == [] || !IsSpace(t[0])
    ensures StripLeft(l + t) == t
  {
    if l != [] {
      assert (l + t)[1..] == l[1..] + t;
      StripLeftOver(l[1..], t);
    }
  }

  /** Trailing whitespace after a text that does not end with whitespace is
      exactly what rstrip removes. */
  lemma {:induction false} StripRightOver(t: string, r: string)
    requires AllSpace(r)
    requires t == [] || !IsSpace(t[|t| - 1])
    ensures StripRight(t + r) == t
  {
    if r != [] {
      assert (t + r)[..|t + r| - 1] == t + r[..|r| - 1];
      StripRightOver(t, r[..|r| - 1]);
    } else {
      assert t + r == t;
    }
  }

  /** Whitespace on either side of a text that starts and ends with
      something else is exactly what stripping removes. */
  lemma StripAround(l: string, t: string, r: string)
    requires AllSpace(l) && AllSpace(r)
    requires t != [] && !IsSpace(t[0]) && !IsSpace(t[|t| - 1])
    ensures Strip(l + t + r) == t
  {
    assert l + t + r == l + (t + r);
    StripLeftOver(l, t + r);
    StripRightOver(t, r);
  }

  predicate StartsWith(s: string, prefix: string) {
    |prefix| <= |s| && s[..|prefix|] == prefix
  }

  predicate EndsWith(s: string, suffix: string) {
    |suffix| <= |s| && s[|s| - |suffix|..] == suffix
  }

  /** The text before and after the first space:
      `(s.split(" ")[0], " ".join(s.split(" ")[1:]))`. */
  function SplitAtSpace(s: string): (string, string) {
    if s == [] then ([], [])
    else if s[0] == ' ' then ([], s[1..])
    else
      var rest := SplitAtSpace(s[1..]);
      ([s[0]] + rest.0, rest.1)
  }

  /** The pair is the unique split of s at its first space, or (s, "") when
      s has none. */
  lemma {:induction false} SplitAtSpaceSpec(s: string)
    ensures var r := SplitAtSpace(s);
      && ' ' !in r.0
      && (' ' in s ==> s == r.0 + " " + r.1)
      && (' ' !in s ==> r == (s, ""))
      && |r.0| <= |s| && r.0 == s[..|r.0|]
      && (s != [] && s[0] != ' ' ==> r.0 != [])
  {
    if s != [] && s[0] != ' ' {
      SplitAtSpaceSpec(s[1..]);
      assert s == [s[0]] + s[1..];
    }
  }

  /** Splitting at the first space and joining again with a space gives
      back the text. */
  lemma {:induction false} SplitJoin(a: string, b: string)
    requires ' ' !in a
    ensures SplitAtSpace(a + " " + b) == (a, b)
  {
    var s := a + " " + b;
    if a == [] {
      assert s == [' '] + b;
    } else {
      assert s[1..] == a[1..] + " " + b;
      SplitJoin(a[1..], b);
      assert a == [a[0]] + a[1..];
    }
  }

  /** The first word of s (Python `s.split(" ")[0]`). */
  function Head(s: string): string { SplitAtSpace(s).0 }

  /** Everything after the first space of s (Python `" ".join(s.split(" ")[1:])`). */
  function Tail(s: string): string { SplitAtSpace(s).1 }

  function UpperChar(c: char): (r: char)
    ensures !('a' <= r <= 'z')
  {
    if 'a' <= c <= 'z' then (c as int - 32) as char else c
  }

  /** `s.upper()` restricted to ASCII letters. */
  function Upper(s: string): string {
    if s == [] then [] else [UpperChar(s[0])] + Upper(s[1..])
  }

  /** Upper-casing works character by character. */
  lemma {:induction false} UpperSpec(s: string)
    ensures |Upper(s)| == |s|
    ensures forall i :: 0 <= i < |s| ==> Upper(s)[i] == UpperChar(s[i])
  {
    if s != [] {
      UpperSpec(s[1..]);
    }
  }

  /** Upper-casing twice is upper-casing once. */
  lemma UpperIdempotent(s: string)
    ensures Upper(Upper(s)) == Upper(s)
  {
    var u := Upper(s);
    UpperSpec(s);
    UpperSpec(u);
  }

  /** The separators of `shlex.split` in POSIX mode. */
  predicate IsShellSpace(c: char) {
    c == ' ' || c == '\t' || c == '\r' || c == '\n'
  }

  /** The longest prefix of s without a separator. */
  function Word(s: string): string {
    if s == [] || IsShellSpace(s[0]) then [] else [s[0]] + Word(s[1..])
  }

  lemma {:induction false} WordSpec(s: string)
    ensures var r := Word(s);
      && |r| <= |s| && r == s[..|r|]
      && (forall i :: 0 <= i < |r| ==> !IsShellSpace(r[i]))
      && (|r| < |s| ==> IsShellSpace(s[|r|]))
  {
    if s != [] && !IsShellSpace(s[0]) {
      WordSpec(s[1..]);
    }
  }

  /** The words of s, as `shlex.split(s)` gives them for text without quotes
      or backslashes. */
  function Tokens(s: string): seq<string>
    decreases |s|
  {
    if s == [] then []
    else if IsShellSpace(s[0]) then Tokens(s[1..])
    else
      var w := Word(s);
      WordSpec(s);
      [w] + Tokens(s[|w|..])
  }

  /** Every token is a non-empty run of non-separators. */
  lemma {:induction false} TokensSpec(s: string)
    ensures var r := Tokens(s);
      forall k :: 0 <= k < |r| ==> r[k] != [] && forall i :: 0 <= i < |r[k]| ==> !IsShellSpace(r[k][i])
    decreases |s|
  {
    if s == [] {
    } else if IsShellSpace(s[0]) {
      TokensSpec(s[1..]);
      assert Tokens(s) == Tokens(s[1..]);
    } else {
      var w := Word(s);
      WordSpec(s);
      TokensSpec(s[|w|..]);
      var r := Tokens(s);
      assert r == [w] + Tokens(s[|w|..]);
    }
  }

  /** A separator-free word followed by a separator or by nothing is the
      first word of the text. */
  lemma {:induction false} WordOf(w: string, rest: string)
    requires forall i :: 0 <= i < |w| ==> !IsShellSpace(w[i])
    requires rest == [] || IsShellSpace(rest[0])
    ensures Word(w + rest) == w
  {
    if w == [] {
      assert w + rest == rest;
    } else {
      assert (w + rest)[0] == w[0];
      assert (w + rest)[1..] == w[1..] + rest;
      WordOf(w[1..], rest);
      assert w == [w[0]] + w[1..];
    }
  }

  /** A leading separator starts no word. */
  lemma TokensSeparator(c: char, rest: string)
    requires IsShellSpace(c)
    ensures Tokens([c] + rest) == Tokens(rest)
  {
    assert ([c] + rest)[1..] == rest;
  }

  /** A non-empty separator-free run ended by a separator or by the end of
      the text is the first word, and the words of the rest follow it. */
  lemma TokensWord(w: string, rest: string)
    requires w != [] && forall i :: 0 <= i < |w| ==> !IsShellSpace(w[i])
    requires rest == [] || IsShellSpace(rest[0])
    ensures Tokens(w + rest) == [w] + Tokens(rest)
  {
    var s := w + rest;
    WordOf(w, rest);
    assert s[0] == w[0];
    assert s[|w|..] == rest;
  }
}
