/** The few JavaScript built-ins on text and numbers that both scripts rely on:
    the white-space class shared by `\s` and `String.prototype.trim`,
    `trim`, `replace` of a single character by the empty string, `parseInt`
    and the conversion of an integral Number to its decimal text. */
module JsText {
  import opened Wrappers

  /** The characters that ECMAScript counts as WhiteSpace or LineTerminator.
      Both the regular-expression class `\s` and `trim` use this set. */
  const WhiteSpace: set<char> := {
    '\t', '\n', '\U{000B}', '\U{000C}', '\r', ' ', '\U{00A0}', '\U{1680}',
    '\U{2000}', '\U{2001}', '\U{2002}', '\U{2003}', '\U{2004}', '\U{2005}',
    '\U{2006}', '\U{2007}', '\U{2008}', '\U{2009}', '\U{200A}',
    '\U{2028}', '\U{2029}', '\U{202F}', '\U{205F}', '\U{3000}', '\U{FEFF}'}

  predicate IsSpace(c: char)
  {
    c in WhiteSpace
  }

  /** The printable ASCII characters other than the space are not white
      space. */
  lemma VisibleAscii(c: char)
    requires '!' <= c <= '~'
    ensures !IsSpace(c)
  {
  }

  predicate AllSpace(s: string)
  {
    forall i | 0 <= i < |s| :: IsSpace(s[i])
  }

  predicate NoSpace(s: string)
  {
    forall i | 0 <= i < |s| :: !IsSpace(s[i])
  }

  /** The first position at or after `i` that does not hold white space,
      or `|s|`. */
  function SkipSpace(s: string, i: nat): (r: nat)
    requires i <= |s|
    ensures i <= r <= |s|
    ensures forall k | i <= k < r :: IsSpace(s[k])
    ensures r < |s| ==> !IsSpace(s[r])
    decreases |s| - i
  {
    if i < |s| && IsSpace(s[i]) then SkipSpace(s, i + 1) else i
  }

  /** The position after the last character in `s[lo..j]` that is not
      white space, or `lo`. */
  function SkipSpaceBack(s: string, lo: nat, j: nat): (r: nat)
    requires lo <= j <= |s|
    ensures lo <= r <= j
    ensures forall k | r <= k < j :: IsSpace(s[k])
    ensures r > lo ==> !IsSpace(s[r - 1])
  {
    if j > lo && IsSpace(s[j - 1]) then SkipSpaceBack(s, lo, j - 1) else j
  }

  /** `trimStart`: drops the leading white space. */
  function TrimStart(s: string): string
  {
    s[SkipSpace(s, 0)..]
  }

  /** `String.prototype.trim`: drops the white space at both ends. */
  function Trim(s: string): string
  {
    var i := SkipSpace(s, 0);
    s[i..SkipSpaceBack(s, i, |s|)]
  }

  /** The trimmed text is the infix of `s` left between the leading and the
      trailing white space, and it neither starts nor ends with white
      space. */
  lemma TrimSpec(s: string)
    ensures var i := SkipSpace(s, 0); var j := SkipSpaceBack(s, i, |s|);
      Trim(s) == s[i..j] &&
      (forall k | 0 <= k < i :: IsSpace(s[k])) && (forall k | j <= k < |s| :: IsSpace(s[k]))
    ensures Trim(s) == [] || (!IsSpace(Trim(s)[0]) && !IsSpace(Trim(s)[|Trim(s)| - 1]))
  {
    var i := SkipSpace(s, 0);
    var j := SkipSpaceBack(s, i, |s|);
    if i < j {
      assert Trim(s)[0] == s[i];
    }
  }

  /** Trimming twice is trimming once. */
  lemma TrimIdempotent(s: string)
    ensures Trim(Trim(s)) == Trim(s)
  {
    var r := Trim(s);
    TrimSpec(s);
    if r != [] {
      assert SkipSpace(r, 0) == 0;
      assert SkipSpaceBack(r, 0, |r|) == |r|;
      assert r[0..|r|] == r;
    }
  }

  /** The trimmed text is empty exactly when the text is all white space. */
  lemma TrimEmptyIff(s: string)
    ensures Trim(s) == [] <==> AllSpace(s)
  {
    var i := SkipSpace(s, 0);
    var j := SkipSpaceBack(s, i, |s|);
    if AllSpace(s) {
      assert i == |s|;
    }
    if Trim(s) == [] {
      assert i == |s|;
    }
  }

  /** `indexOf`: the position of the first occurrence of `c` in `s`. */
  function IndexOf<T(==)>(s: seq<T>, c: T): (i: nat)
    requires c in s
    ensures i < |s| && s[i] == c && c !in s[..i]
  {
    if s[0] == c then 0
    else
      var i := IndexOf(s[1..], c) + 1;
      assert s[..i] == [s[0]] + s[1..][..i - 1];
      i
  }

  /** `getElementById` over elements in document order: the position of
      the first one with the id, or `None` (the `null` of the DOM). */
  function Find<T(==)>(s: seq<T>, x: T): (r: Option<nat>)
    ensures r.None? <==> x !in s
    ensures r.Some? ==> r.value < |s| && s[r.value] == x && x !in s[..r.value]
  {
    if x in s then Some(IndexOf(s, x)) else None
  }

  /** `s.replace(c, "")` with a one-character string pattern: only the first
      occurrence of `c` is removed. */
  function RemoveFirst(s: string, c: char): string
  {
    if c in s then
      var i := IndexOf(s, c);
      s[..i] + s[i + 1..]
    else s
  }

  /** Without `c` the text is unchanged. Otherwise the result is one
      character shorter, has no `c` before the first occurrence's place,
      and putting `c` back at that place rebuilds the text: exactly one
      `c` is gone. */
  lemma RemoveFirstSpec(s: string, c: char)
    ensures c !in s ==> RemoveFirst(s, c) == s
    ensures c in s ==> |RemoveFirst(s, c)| == |s| - 1 && c !in RemoveFirst(s, c)[..IndexOf(s, c)]
    ensures c in s ==>
      var r := RemoveFirst(s, c);
      var i := IndexOf(s, c);
      r[..i] + [c] + r[i..] == s && multiset(r) + multiset{c} == multiset(s)
  {
    if c in s {
      var i := IndexOf(s, c);
      var r := RemoveFirst(s, c);
      assert r == s[..i] + s[i + 1..];
      SplitAround(s, i);
      assert r[..i] == s[..i];
      assert r[i..] == s[i + 1..];
    }
  }

  /** A text is the part before position `i`, the character there, and
      the part after it, also as multisets. */
  lemma SplitAround(s: string, i: nat)
    requires i < |s|
    ensures s == s[..i] + [s[i]] + s[i + 1..]
    ensures multiset(s) == multiset(s[..i] + s[i + 1..]) + multiset{s[i]}
  {
    assert s == s[..i] + [s[i]] + s[i + 1..];
    assert multiset(s[..i] + [s[i]] + s[i + 1..]) == multiset(s[..i]) + multiset{s[i]} + multiset(s[i + 1..]);
  }

  // ---------------------------------------------------------------------
  // Integral numbers as decimal text

  function DigitChar(d: nat): (c: char)
    requires d < 10
    ensures '0' <= c <= '9'
  {
    "0123456789"[d]
  }

  /** Decimal text of a natural number: no leading zero, no sign. */
  function NatToString(n: nat): (s: string)
    ensures |s| >= 1 && forall i | 0 <= i < |s| :: '0' <= s[i] <= '9'
    ensures s[0] == '0' ==> n == 0 && |s| == 1
  {
    if n < 10 then [DigitChar(n)] else NatToString(n / 10) + [DigitChar(n % 10)]
  }

  /** The text JavaScript gives an integral Number: an optional `-`
      followed by the decimal digits. */
  function IntToString(n: int): (s: string)
    ensures '+' !in s && '%' !in s
    ensures |s| >= 1 && (s[0] == '-' || '0' <= s[0] <= '9')
  {
    if n < 0 then "-" + NatToString(-n) else NatToString(n)
  }

  // ---------------------------------------------------------------------
  // parseInt

  /** The value of a digit or letter as a digit of radix 36, or -1. */
  function DigitValue(c: char): (d: int)
    ensures -1 <= d < 36
    ensures ('0' <= c <= '9') <==> 0 <= d < 10
  {
    if '0' <= c <= '9' then c as int - '0' as int
    else if 'a' <= c <= 'z' then c as int - 'a' as int + 10
    else if 'A' <= c <= 'Z' then c as int - 'A' as int + 10
    else -1
  }

  predicate IsDigitOf(c: char, radix: nat)
  {
    0 <= DigitValue(c) < radix
  }

  /** The longest prefix of `s` made of digits of the radix. */
  function DigitPrefix(s: string, radix: nat): (r: string)
    ensures |r| <= |s| && r == s[..|r|]
    ensures forall i | 0 <= i < |r| :: IsDigitOf(r[i], radix)
    ensures |r| < |s| ==> !IsDigitOf(s[|r|], radix)
  {
    if |s| > 0 && IsDigitOf(s[0], radix) then [s[0]] + DigitPrefix(s[1..], radix) else []
  }

  /** The value of a digit string, most significant digit first. */
  function DigitsValue(ds: string, radix: nat): nat
    requires forall i | 0 <= i < |ds| :: IsDigitOf(ds[i], radix)
  {
    if ds == [] then 0
    else
      var init := ds[..|ds| - 1];
      var last := ds[|ds| - 1];
      assert forall i | 0 <= i < |init| :: init[i] == ds[i];
      assert IsDigitOf(last, radix);
      var high := DigitsValue(init, radix);
      ProductNonNegative(high, radix);
      high * radix + DigitValue(last)
  }

  lemma ProductNonNegative(a: nat, b: nat)
    ensures a * b >= 0
  {
  }

  /** `parseInt(s)` with no radix argument: leading white space is skipped,
      one sign is read, a `0x`/`0X` prefix selects radix 16, and then the
      longest run of digits is read; anything after it is ignored. No digit
      at all gives NaN, here `None`. */
  function ParseInt(s: string): Option<int>
  {
    ParseSigned(TrimStart(s))
  }

  /** `parseInt` after the leading white space. */
  function ParseSigned(t: string): Option<int>
  {
    match ParseMagnitude(UnsignedPart(t))
    case None => None
    case Some(m) => Some(if |t| > 0 && t[0] == '-' then -(m as int) else m as int)
  }

  /** The magnitude read after the sign, or `None` when no digit follows. */
  function ParseMagnitude(u: string): Option<nat>
  {
    var radix := Radix(u);
    var ds := DigitPrefix(HexBody(u), radix);
    if ds == [] then None else Some(DigitsValue(ds, radix))
  }

  /** The text after an optional leading sign. */
  function UnsignedPart(t: string): (u: string)
    ensures |u| <= |t| && u == t[|t| - |u|..]
    ensures |u| >= |t| - 1 && (|u| < |t| <==> |t| > 0 && (t[0] == '-' || t[0] == '+'))
  {
    if |t| > 0 && (t[0] == '-' || t[0] == '+') then t[1..] else t
  }

  /** The radix `parseInt` picks when none is given: 16 after `0x` or
      `0X`, 10 otherwise; `HexReadsBack` and `MagnitudeOfDigits` state
      what is read in each. */
  function Radix(u: string): (radix: nat)
    ensures radix == 10 || radix == 16
  {
    if |u| >= 2 && u[0] == '0' && (u[1] == 'x' || u[1] == 'X') then 16 else 10
  }

  /** Where the digits start: after the two-character hex prefix in radix
      16, at the start otherwise. */
  function HexBody(u: string): (w: string)
    ensures Radix(u) == 10 ==> w == u
    ensures Radix(u) == 16 ==> |u| >= 2 && (u[..2] == "0x" || u[..2] == "0X") && u == u[..2] + w
  {
    if Radix(u) == 16 then u[2..] else u
  }

  /** After `0x` or `0X`, a run of hexadecimal digits followed by nothing
      or by a non-hex character is read in radix 16 as that run's value. */
  lemma HexReadsBack(ds: string, rest: string, u: string)
    requires |ds| > 0 && forall i | 0 <= i < |ds| :: IsDigitOf(ds[i], 16)
    requires rest == [] || !IsDigitOf(rest[0], 16)
    requires |u| >= 2 && u[0] == '0' && (u[1] == 'x' || u[1] == 'X') && u[2..] == ds + rest
    ensures ParseMagnitude(u) == Some(DigitsValue(ds, 16))
  {
    assert Radix(u) == 16;
    assert HexBody(u) == ds + rest;
    DigitPrefixOfDigits(ds, rest, 16);
  }

  /** `parseInt` reads a signed hex literal, and stops at the first
      character that is not a hex digit. */
  lemma HexExamples()
    ensures ParseInt("-0x1F") == Some(-31)
    ensures ParseInt("0Xff!") == Some(255)
  {
    TrimStartKeeps("-0x1F");
    assert UnsignedPart("-0x1F") == "0x1F";
    assert "0x1F"[2..] == "1F" + "";
    HexReadsBack("1F", "", "0x1F");
    assert DigitsValue("1F", 16) == 31 by {
      assert "1F"[..1] == "1";
    }
    TrimStartKeeps("0Xff!");
    assert "0Xff!"[2..] == "ff" + "!";
    HexReadsBack("ff", "!", "0Xff!");
    assert DigitsValue("ff", 16) == 255 by {
      assert "ff"[..1] == "f";
    }
  }

  /** A digit string followed by a non-digit (or nothing) parses as that
      digit string. */
  lemma {:induction false} DigitPrefixOfDigits(ds: string, rest: string, radix: nat)
    requires forall i | 0 <= i < |ds| :: IsDigitOf(ds[i], radix)
    requires rest == [] || !IsDigitOf(rest[0], radix)
    ensures DigitPrefix(ds + rest, radix) == ds
  {
    if ds != [] {
      assert (ds + rest)[1..] == ds[1..] + rest;
      DigitPrefixOfDigits(ds[1..], rest, radix);
    }
  }

  lemma {:induction false} NatToStringValue(n: nat)
    ensures DigitsValue(NatToString(n), 10) == n
  {
    var s := NatToString(n);
    if n >= 10 {
      assert s[..|s| - 1] == NatToString(n / 10);
      NatToStringValue(n / 10);
    }
  }

  /** The digit text of a natural number, followed by a non-digit, is read
      in radix 10 as that number. The `x`/`X` exclusion matters only for
      `m == 0`: "0" followed by `x` is a hex prefix. */
  lemma MagnitudeOfDigits(m: nat, rest: string)
    requires rest == [] || (!IsDigitOf(rest[0], 10) && rest[0] != 'x' && rest[0] != 'X')
    ensures ParseMagnitude(NatToString(m) + rest) == Some(m)
  {
    var digits := NatToString(m);
    var u := digits + rest;
    assert Radix(u) == 10 by {
      if |u| >= 2 && u[0] == '0' {
        assert |digits| == 1;
        assert u[1] == rest[0];
      }
    }
    DigitPrefixOfDigits(digits, rest, 10);
    NatToStringValue(m);
  }

  /** Text that does not start with white space is its own `TrimStart`. */
  lemma TrimStartKeeps(s: string)
    requires |s| > 0 && !IsSpace(s[0])
    ensures TrimStart(s) == s
  {
    assert SkipSpace(s, 0) == 0;
  }

  /** `parseInt` reads back the text of an integer, whatever non-digit
      follows it (a `+` or `%` suffix, say); as in `MagnitudeOfDigits`,
      `x` and `X` are excluded only because "0x" starts a hex number. */
  lemma ParseIntToString(n: int, rest: string)
    requires rest == [] || (!IsDigitOf(rest[0], 10) && rest[0] != 'x' && rest[0] != 'X')
    ensures ParseInt(IntToString(n) + rest) == Some(n)
  {
    if n < 0 {
      ParseNegativeToString(-n, rest);
      assert -((-n) as int) == n;
    } else {
      ParseNatToString(n, rest);
    }
  }

  lemma ParseNegativeToString(m: nat, rest: string)
    requires m > 0
    requires rest == [] || (!IsDigitOf(rest[0], 10) && rest[0] != 'x' && rest[0] != 'X')
    ensures ParseInt(IntToString(-(m as int)) + rest) == Some(-(m as int))
  {
    var n: int := -(m as int);
    var digits := NatToString(m);
    MagnitudeOfDigits(m, rest);
    NegativeText(digits + rest, m);
    assert IntToString(n) == "-" + digits;
    ConcatAssoc("-", digits, rest);
  }

  lemma ParseNatToString(m: nat, rest: string)
    requires rest == [] || (!IsDigitOf(rest[0], 10) && rest[0] != 'x' && rest[0] != 'X')
    ensures ParseInt(IntToString(m) + rest) == Some(m as int)
  {
    var digits := NatToString(m);
    var u := digits + rest;
    MagnitudeOfDigits(m, rest);
    assert u[0] == digits[0];
    NonNegativeText(u, m);
    assert IntToString(m) == digits;
  }

  lemma ConcatAssoc(a: string, b: string, c: string)
    ensures (a + b) + c == a + (b + c)
  {
  }

  /** A minus sign followed by a magnitude. */
  lemma NegativeText(u: string, m: nat)
    requires ParseMagnitude(u) == Some(m)
    ensures ParseInt("-" + u) == Some(-(m as int))
  {
    var s := "-" + u;
    assert s[0] == '-';
    assert s[1..] == u;
    TrimStartKeeps(s);
  }

  /** A magnitude with no sign. */
  lemma NonNegativeText(u: string, m: nat)
    requires ParseMagnitude(u) == Some(m) && |u| > 0 && '0' <= u[0] <= '9'
    ensures ParseInt(u) == Some(m as int)
  {
    VisibleAscii(u[0]);
    TrimStartKeeps(u);
  }
}
