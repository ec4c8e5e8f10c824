/** The string operations the validator relies on: Python's `str.strip`,
    `str.lower`, `str.endswith` and `int(...)`, restricted to ASCII, and the
    decimal formatting used for clip names. */
module Text {
  import opened Results

  /** The two notions of white space the program relies on, restricted to
      ASCII. `StrSpace` is what `str.isspace`, and so `str.strip()`, accepts:
      tab, line feed, vertical tab, form feed, carriage return (9..13), the
      four information separators (28..31) and the space (32). `IntSpace` is
      what `int(...)` skips around a number: 9..13 and 32 only, so `int`
      rejects a number next to an information separator. */
  datatype SpaceSet = StrSpace | IntSpace

  predicate IsSpace(k: SpaceSet, c: char) {
    match k
    case StrSpace => (9 <= c as int <= 13) || (28 <= c as int <= 32)
    case IntSpace => (9 <= c as int <= 13) || c == ' '
  }

  predicate AllSpace(k: SpaceSet, s: string) {
    forall i :: 0 <= i < |s| ==> IsSpace(k, s[i])
  }

  /** Neither end of `s` is white space. */
  predicate NoEdgeSpace(k: SpaceSet, s: string) {
    s == [] || (!IsSpace(k, s[0]) && !IsSpace(k, s[|s| - 1]))
  }

  /** Drops leading white space (see `StripLeadingShape`). */
  function StripLeading(k: SpaceSet, s: string): (r: string)
    ensures |r| <= |s|
    decreases |s|
  {
    if |s| > 0 && IsSpace(k, s[0]) then StripLeading(k, s[1..]) else s
  }

  /** Drops trailing white space (see `StripTrailingShape`). */
  function StripTrailing(k: SpaceSet, s: string): (r: string)
    ensures |r| <= |s|
    decreases |s|
  {
    if |s| > 0 && IsSpace(k, s[|s| - 1]) then StripTrailing(k, s[..|s| - 1]) else s
  }

  /** The result of `StripLeading` is the suffix of `s` that starts at its
      first non-space character: everything dropped is white space. */
  lemma {:induction false} StripLeadingShape(k: SpaceSet, s: string)
    ensures var r := StripLeading(k, s);
      && r == s[|s| - |r|..]
      && AllSpace(k, s[..|s| - |r|])
      && (r == [] || !IsSpace(k, r[0]))
    decreases |s|
  {
    if |s| > 0 && IsSpace(k, s[0]) {
      StripLeadingShape(k, s[1..]);
      var r := StripLeading(k, s[1..]);
      assert s[1..][|s| - 1 - |r|..] == s[|s| - |r|..];
      assert s[..|s| - |r|] == [s[0]] + s[1..][..|s| - 1 - |r|];
    } else {
      assert s[..0] == [];
    }
  }

  /** The result of `StripTrailing` is the prefix of `s` that ends at its
      last non-space character: everything dropped is white space. */
  lemma {:induction false} StripTrailingShape(k: SpaceSet, s: string)
    ensures var r := StripTrailing(k, s);
      && r == s[..|r|]
      && AllSpace(k, s[|r|..])
      && (r == [] || !IsSpace(k, r[|r| - 1]))
    decreases |s|
  {
    if |s| > 0 && IsSpace(k, s[|s| - 1]) {
      StripTrailingShape(k, s[..|s| - 1]);
      var r := StripTrailing(k, s[..|s| - 1]);
      assert s[..|s| - 1][..|r|] == s[..|r|];
      assert s[|r|..] == s[..|s| - 1][|r|..] + [s[|s| - 1]];
    } else {
      assert s[|s|..] == [];
    }
  }

  /** White space of kind `k` removed from both ends. */
  function StripSpace(k: SpaceSet, s: string): (r: string)
    ensures NoEdgeSpace(k, r)
    ensures |r| <= |s|
  {
    StripLeadingShape(k, s);
    StripTrailingShape(k, StripLeading(k, s));
    StripTrailing(k, StripLeading(k, s))
  }

  /** Python's `s.strip()` with no argument (ASCII white space only). */
  function Strip(s: string): (r: string)
    ensures NoEdgeSpace(StrSpace, r)
    ensures |r| <= |s|
  {
    StripSpace(StrSpace, s)
  }

  lemma {:induction false} StripLeadingOf(k: SpaceSet, a: string, u: string)
    requires AllSpace(k, a)
    requires u == [] || !IsSpace(k, u[0])
    ensures StripLeading(k, a + u) == u
    decreases |a|
  {
    if a != [] {
      assert (a + u)[1..] == a[1..] + u;
      StripLeadingOf(k, a[1..], u);
    } else {
      assert a + u == u;
    }
  }

  lemma {:induction false} StripTrailingOf(k: SpaceSet, u: string, b: string)
    requires AllSpace(k, b)
    requires u == [] || !IsSpace(k, u[|u| - 1])
    ensures StripTrailing(k, u + b) == u
    decreases |b|
  {
    if b != [] {
      assert (u + b)[..|u + b| - 1] == u + b[..|b| - 1];
      StripTrailingOf(k, u, b[..|b| - 1]);
    } else {
      assert u + b == u;
    }
  }

  /** Stripping is characterised by its result: whatever white space
      surrounds a string with no white space at either end, stripping
      recovers exactly that string. */
  lemma StripOf(k: SpaceSet, a: string, t: string, b: string)
    requires AllSpace(k, a) && AllSpace(k, b) && NoEdgeSpace(k, t)
    ensures StripSpace(k, a + t + b) == t
  {
    if t == [] {
      var s := a + t + b;
      assert s == a + b;
      assert AllSpace(k, s);
      StripLeadingShape(k, s);
    } else {
      assert a + t + b == a + (t + b);
      StripLeadingOf(k, a, t + b);
      StripTrailingOf(k, t, b);
    }
  }

  /** A string with no white space at either end is its own stripped form. */
  lemma StripUnchanged(k: SpaceSet, w: string)
    requires NoEdgeSpace(k, w)
    ensures StripSpace(k, w) == w
  {
    assert StripLeading(k, w) == w;
  }

  predicate IsUpper(c: char) {
    'A' <= c <= 'Z'
  }

  /** ASCII lowering of one character, as Python's `str.lower` does for ASCII. */
  function LowerChar(c: char): char {
    if IsUpper(c) then (c as int - 'A' as int + 'a' as int) as char else c
  }

  /** Python's `s.lower()` restricted to ASCII letters: no capital survives,
      each capital becomes its own small letter, and nothing else changes. */
  function Lower(s: string): (r: string)
    ensures |r| == |s|
    ensures forall i :: 0 <= i < |r| ==> !IsUpper(r[i])
    ensures forall i :: 0 <= i < |s| && !IsUpper(s[i]) ==> r[i] == s[i]
    ensures forall i :: 0 <= i < |s| && IsUpper(s[i]) ==> r[i] as int == s[i] as int + ('a' as int - 'A' as int)
  {
    seq(|s|, i requires 0 <= i < |s| => LowerChar(s[i]))
  }

  /** Lowering twice is lowering once. */
  lemma LowerIdempotent(s: string)
    ensures Lower(Lower(s)) == Lower(s)
  {
  }

  /** Python's `s.endswith(suffix)`. */
  predicate EndsWith(s: string, suffix: string) {
    |suffix| <= |s| && s[|s| - |suffix|..] == suffix
  }

  /** `s` ends in ".mp3" with each of the letters in either case. */
  predicate HasMp3Extension(s: string) {
    && |s| >= 4
    && s[|s| - 4] == '.'
    && (s[|s| - 3] == 'm' || s[|s| - 3] == 'M')
    && (s[|s| - 2] == 'p' || s[|s| - 2] == 'P')
    && s[|s| - 1] == '3'
  }

  /** The case-insensitive extension test `s.lower().endswith(".mp3")` accepts
      exactly the names that end in ".mp3" in any mixture of cases. */
  lemma LowerEndsWithMp3(s: string)
    ensures EndsWith(Lower(s), ".mp3") <==> HasMp3Extension(s)
  {
    var l := Lower(s);
    if |s| >= 4 {
      var k := |s| - 4;
      assert l[k..] == [l[k], l[k + 1], l[k + 2], l[k + 3]];
      assert ".mp3" == ['.', 'm', 'p', '3'];
    }
  }

  predicate IsDigit(c: char) {
    '0' <= c <= '9'
  }

  predicate AllDigits(s: string) {
    forall i :: 0 <= i < |s| ==> IsDigit(s[i])
  }

  /** The value of a string of ASCII decimal digits, most significant first. */
  function DigitsValue(s: string): nat
    requires AllDigits(s)
    decreases |s|
  {
    if s == [] then 0 else DigitsValue(s[..|s| - 1]) * 10 + (s[|s| - 1] as int - '0' as int)
  }

  function DigitChar(d: nat): (c: char)
    requires d < 10
    ensures IsDigit(c) && c as int - '0' as int == d
  {
    ('0' as int + d) as char
  }

  /** The canonical decimal spelling of `n`, as Python's `str(n)` writes it. */
  function FormatNat(n: nat): (r: string)
    ensures |r| >= 1 && AllDigits(r)
    ensures DigitsValue(r) == n
    ensures r[0] != '0' || n == 0
    decreases n
  {
    if n < 10 then [DigitChar(n)]
    else
      var prefix := FormatNat(n / 10);
      var r := prefix + [DigitChar(n % 10)];
      assert r[..|r| - 1] == prefix;
      r
  }

  /** `n` zeros. */
  function Zeros(n: nat): (r: string)
    ensures |r| == n && forall i :: 0 <= i < n ==> r[i] == '0'
  {
    seq(n, _ => '0')
  }

  /** Leading zeros do not change the value of a digit string. */
  lemma {:induction false} DigitsValueZeros(k: nat, s: string)
    requires AllDigits(s)
    ensures AllDigits(Zeros(k) + s)
    ensures DigitsValue(Zeros(k) + s) == DigitsValue(s)
    decreases |s|
  {
    var z := Zeros(k);
    assert AllDigits(z + s) by {
      forall i | 0 <= i < |z + s| ensures IsDigit((z + s)[i]) {
        if i < k { assert (z + s)[i] == '0'; } else { assert (z + s)[i] == s[i - k]; }
      }
    }
    if s == [] {
      assert z + s == z;
      ZerosValue(k);
    } else {
      var s' := s[..|s| - 1];
      assert (z + s)[..|z + s| - 1] == z + s';
      DigitsValueZeros(k, s');
    }
  }

  lemma {:induction false} ZerosValue(k: nat)
    ensures AllDigits(Zeros(k)) && DigitsValue(Zeros(k)) == 0
    decreases k
  {
    if k > 0 {
      assert Zeros(k)[..k - 1] == Zeros(k - 1);
      ZerosValue(k - 1);
    }
  }

  /** A digit string with no superfluous leading zero is the canonical
      spelling of its own value: `FormatNat` produces every such string. */
  lemma {:induction false} FormatNatOfCanonical(s: string)
    requires |s| >= 1 && AllDigits(s) && (s[0] != '0' || |s| == 1)
    ensures FormatNat(DigitsValue(s)) == s
    decreases |s|
  {
    var d := s[|s| - 1] as int - '0' as int;
    if |s| == 1 {
      assert s[..0] == [];
      assert DigitsValue(s) == d;
      assert [DigitChar(d)] == s;
    } else {
      var s' := s[..|s| - 1];
      FormatNatOfCanonical(s');
      DigitsValuePositive(s');
      var v := DigitsValue(s);
      assert v == DigitsValue(s') * 10 + d;
      assert v / 10 == DigitsValue(s') && v % 10 == d;
      assert s == s' + [DigitChar(d)];
    }
  }

  lemma DigitsValuePositive(s: string)
    requires |s| >= 1 && AllDigits(s) && s[0] != '0'
    ensures DigitsValue(s) >= 1
    decreases |s|
  {
    if |s| > 1 {
      DigitsValuePositive(s[..|s| - 1]);
    } else {
      assert s[..0] == [];
    }
  }

  /** Optional sign followed by one or more ASCII digits; `None` for anything
      else, as Python's `int` raises `ValueError`. */
  function ParseSigned(s: string): Option<int> {
    if |s| > 0 && (s[0] == '+' || s[0] == '-') then
      var digits := s[1..];
      if |digits| > 0 && AllDigits(digits) then
        var m: int := DigitsValue(digits);
        Some(if s[0] == '-' then -m else m)
      else None
    else if |s| > 0 && AllDigits(s) then Some(DigitsValue(s))
    else None
  }

  /** Python's `int(s)` for base 10: surrounding white space is ignored. */
  function ParseInt(s: string): Option<int> {
    ParseSigned(StripSpace(IntSpace, s))
  }

  /** Python's `str(n)` for any integer. */
  function FormatInt(n: int): string {
    if n < 0 then "-" + FormatNat(-n) else FormatNat(n)
  }

  /** `int` reads back what `str` writes, whatever white space surrounds it. */
  lemma ParseIntFormatInt(a: string, n: int, b: string)
    requires AllSpace(IntSpace, a) && AllSpace(IntSpace, b)
    ensures ParseInt(a + FormatInt(n) + b) == Some(n)
  {
    FormatIntShape(n);
    StripOf(IntSpace, a, FormatInt(n), b);
  }

  /** `int` reads back what `str` writes. */
  lemma ParseIntFormatIntBare(n: int)
    ensures ParseInt(FormatInt(n)) == Some(n)
  {
    FormatIntShape(n);
    StripUnchanged(IntSpace, FormatInt(n));
  }

  /** `int` does not skip the information separators U+001C..U+001F that
      `str.strip` removes: a number next to one is rejected. */
  lemma ParseIntRejectsSeparator(s: string)
    requires |s| > 0 && 28 <= s[0] as int <= 31
    ensures ParseInt(s) == None
  {
    assert StripLeading(IntSpace, s) == s;
    StripTrailingShape(IntSpace, s);
    assert StripSpace(IntSpace, s)[0] == s[0];
  }

  /** The converse of `ParseIntAccepted`: `int` accepts white space it
      skips, an optional sign, any number of leading zeros, a canonical
      magnitude and white space again, and the sign gives the value's sign. */
  lemma ParseIntOf(a: string, sign: string, k: nat, m: nat, b: string)
    requires AllSpace(IntSpace, a) && AllSpace(IntSpace, b)
    requires sign == "" || sign == "+" || sign == "-"
    ensures ParseInt(a + sign + Zeros(k) + FormatNat(m) + b) == Some(if sign == "-" then -(m as int) else m as int)
  {
    var t := sign + (Zeros(k) + FormatNat(m));
    ParseSignedOf(sign, k, m);
    Regroup(a, sign, Zeros(k), FormatNat(m), b);
    StripOf(IntSpace, a, t, b);
  }

  lemma Regroup(a: string, s: string, z: string, f: string, b: string)
    ensures a + s + z + f + b == a + (s + (z + f)) + b
  {
  }

  lemma ParseSignedOf(sign: string, k: nat, m: nat)
    requires sign == "" || sign == "+" || sign == "-"
    ensures var t := sign + (Zeros(k) + FormatNat(m));
      && NoEdgeSpace(IntSpace, t)
      && ParseSigned(t) == Some(if sign == "-" then -(m as int) else m as int)
  {
    var f := FormatNat(m);
    DigitsValueZeros(k, f);
    var digits := Zeros(k) + f;
    assert digits[|digits| - 1] == f[|f| - 1];
    if sign == "" {
      ParseUnsignedDigits(digits);
      assert sign + digits == digits;
    } else if sign == "+" {
      ParseSignedDigitsSigned('+', digits);
    } else {
      ParseSignedDigitsSigned('-', digits);
    }
  }

  /** A bare digit string, read by `ParseSigned`. */
  lemma ParseUnsignedDigits(digits: string)
    requires |digits| >= 1 && AllDigits(digits)
    ensures NoEdgeSpace(IntSpace, digits)
    ensures ParseSigned(digits) == Some(DigitsValue(digits) as int)
  {
  }

  /** A sign and a digit string, read by `ParseSigned`. */
  lemma ParseSignedDigitsSigned(c: char, digits: string)
    requires c == '+' || c == '-'
    requires |digits| >= 1 && AllDigits(digits)
    ensures NoEdgeSpace(IntSpace, [c] + digits)
    ensures ParseSigned([c] + digits) == Some(if c == '-' then -(DigitsValue(digits) as int) else DigitsValue(digits) as int)
  {
    var t := [c] + digits;
    assert t[|t| - 1] == digits[|digits| - 1];
    assert t[1..] == digits;
  }

  lemma FormatIntShape(n: int)
    ensures NoEdgeSpace(IntSpace, FormatInt(n))
    ensures ParseSigned(FormatInt(n)) == Some(n)
  {
    var t := FormatInt(n);
    var m := FormatNat(Abs(n));
    if n < 0 {
      assert t == "-" + m;
      assert t[1..] == m;
      assert t[|t| - 1] == m[|m| - 1];
      assert IsDigit(m[|m| - 1]);
    } else {
      assert t == m;
      assert IsDigit(t[0]) && IsDigit(t[|t| - 1]);
    }
  }

  /** Every string `int` accepts, once stripped, is an optional sign, some
      leading zeros and the canonical spelling of the magnitude; the value
      is at most 0 after a minus sign and at least 0 otherwise. The
      converse is `ParseIntOf`. */
  lemma ParseIntAccepted(s: string, n: int) returns (sign: string, k: nat)
    requires ParseInt(s) == Some(n)
    ensures sign == "" || sign == "+" || sign == "-"
    ensures StripSpace(IntSpace, s) == sign + Zeros(k) + FormatNat(Abs(n))
    ensures sign != "-" ==> n >= 0
    ensures sign == "-" ==> n <= 0
  {
    sign, k := ParseSignedAccepted(StripSpace(IntSpace, s), n);
  }

  lemma ParseSignedAccepted(t: string, n: int) returns (sign: string, k: nat)
    requires ParseSigned(t) == Some(n)
    ensures sign == "" || sign == "+" || sign == "-"
    ensures t == sign + Zeros(k) + FormatNat(Abs(n))
    ensures sign != "-" ==> n >= 0
    ensures sign == "-" ==> n <= 0
  {
    if t[0] == '+' || t[0] == '-' {
      var digits := t[1..];
      assert Abs(n) == DigitsValue(digits);
      assert t[0] == '-' ==> n <= 0;
      sign := [t[0]];
      k := SignedCanonical(sign, digits);
    } else {
      assert n == DigitsValue(t);
      sign := "";
      k := SignedCanonical(sign, t);
    }
  }

  lemma SignedCanonical(sign: string, digits: string) returns (k: nat)
    requires |digits| >= 1 && AllDigits(digits)
    ensures sign + digits == sign + Zeros(k) + FormatNat(DigitsValue(digits))
  {
    k := DigitsCanonical(digits);
  }

  function Abs(n: int): nat {
    if n < 0 then -n else n
  }

  /** A non-empty digit string is some zeros followed by the canonical
      spelling of its value. */
  lemma {:induction false} DigitsCanonical(s: string) returns (k: nat)
    requires |s| >= 1 && AllDigits(s)
    ensures s == Zeros(k) + FormatNat(DigitsValue(s))
    decreases |s|
  {
    if s[0] != '0' || |s| == 1 {
      FormatNatOfCanonical(s);
      k := 0;
      assert Zeros(0) + s == s;
    } else {
      var rest := s[1..];
      var k' := DigitsCanonical(rest);
      assert s == Zeros(1) + rest by {
        assert s == [s[0]] + rest;
      }
      DigitsValueZeros(1, rest);
      k := k' + 1;
      ZerosSplit(k', FormatNat(DigitsValue(rest)));
    }
  }

  lemma ZerosSplit(k: nat, f: string)
    ensures Zeros(1) + (Zeros(k) + f) == Zeros(k + 1) + f
  {
    assert Zeros(k + 1) == Zeros(1) + Zeros(k);
  }
}
