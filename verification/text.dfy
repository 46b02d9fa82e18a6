/**
 * The JavaScript string and number primitives the page helpers are built from:
 * `startsWith`, `includes`, `split` on one character, `toLowerCase`, ordering
 * of strings for `sort`, `${n}` for integers and `parseInt`.
 */
module Text {
  import opened Wrappers

  /** `s.startsWith(prefix)`: `s` agrees with `prefix` at each of its positions. */
  function StartsWith(s: string, prefix: string): (r: bool)
    ensures r <==> |prefix| <= |s| && forall i :: 0 <= i < |prefix| ==> s[i] == prefix[i]
  {
    |prefix| <= |s| && s[..|prefix|] == prefix
  }

  /** `sub` occurs in `s` starting at index `i`. */
  predicate OccursAt(s: string, sub: string, i: int)
  {
    0 <= i <= |s| - |sub| && s[i..i + |sub|] == sub
  }

  /** `s.includes(sub)`: `sub` occurs somewhere in `s`. */
  function Contains(s: string, sub: string): (r: bool)
    ensures r <==> exists i :: OccursAt(s, sub, i)
  {
    if StartsWith(s, sub) then
      assert OccursAt(s, sub, 0);
      true
    else if s == [] then
      assert forall i :: !OccursAt(s, sub, i);
      false
    else
      var r := Contains(s[1..], sub);
      assert forall i :: OccursAt(s[1..], sub, i) <==> OccursAt(s, sub, i + 1);
      assert !OccursAt(s, sub, 0);
      assert forall i :: OccursAt(s, sub, i) ==> i == 0 || OccursAt(s[1..], sub, i - 1);
      r
  }

  /** `toLowerCase` on one character (ASCII letters only). */
  function LowerChar(c: char): char
  {
    if 'A' <= c <= 'Z' then (c as int - 'A' as int + 'a' as int) as char else c
  }

  /**
   * `s.toLowerCase()` (ASCII letters only): same length, no capital left, each
   * capital replaced by its small letter (32 code points on) and every other
   * character kept.
   */
  function ToLower(s: string): (r: string)
    ensures |r| == |s|
    ensures forall i :: 0 <= i < |r| ==> !('A' <= r[i] <= 'Z')
    ensures forall i :: 0 <= i < |s| ==> if 'A' <= s[i] <= 'Z' then r[i] as int == s[i] as int + 32 else r[i] == s[i]
  {
    seq(|s|, i requires 0 <= i < |s| => LowerChar(s[i]))
  }

  /** Lower-casing twice is lower-casing once. */
  lemma ToLowerIdempotent(s: string)
    ensures ToLower(ToLower(s)) == ToLower(s)
  {
  }

  /** The inverse of `Split`: the pieces with `sep` between consecutive ones. */
  function Join(pieces: seq<string>, sep: char): string
    requires |pieces| >= 1
  {
    if |pieces| == 1 then pieces[0] else pieces[0] + [sep] + Join(pieces[1..], sep)
  }

  /**
   * `s.split(sep)`: the maximal runs of `s` between occurrences of `sep`. There
   * is always at least one piece, no piece contains `sep`, joining the pieces
   * with `sep` gives `s` back, and the first piece is everything before the
   * first `sep`.
   */
  function Split(s: string, sep: char): (pieces: seq<string>)
    ensures |pieces| >= 1
    ensures forall i :: 0 <= i < |pieces| ==> sep !in pieces[i]
    ensures Join(pieces, sep) == s
    ensures StartsWith(s, pieces[0]) && (|pieces[0]| == |s| || s[|pieces[0]|] == sep)
  {
    if s == [] then [""]
    else
      var rest := Split(s[1..], sep);
      if s[0] == sep then
        assert s == [sep] + s[1..];
        [""] + rest
      else
        var pieces := [[s[0]] + rest[0]] + rest[1..];
        assert pieces[1..] == rest[1..];
        assert s == [s[0]] + s[1..];
        pieces
  }

  /** Splitting text that starts with a `sep`-free `head` and a `sep` gives `head` and then the pieces of the rest. */
  lemma {:induction false} SplitAfterHead(head: string, sep: char, rest: string)
    requires sep !in head
    ensures Split(head + [sep] + rest, sep) == [head] + Split(rest, sep)
  {
    var s := head + [sep] + rest;
    if head == [] {
      assert s[1..] == rest;
    } else {
      assert s[1..] == head[1..] + [sep] + rest;
      SplitAfterHead(head[1..], sep, rest);
      assert [head[0]] + head[1..] == head;
    }
  }

  /**
   * The order `localeCompare` puts year texts in, taken as the lexicographic
   * order of code points: `a` sorts strictly before `b`.
   */
  predicate LexLess(a: string, b: string)
  {
    if a == [] then b != []
    else if b == [] then false
    else if a[0] != b[0] then a[0] < b[0]
    else LexLess(a[1..], b[1..])
  }

  /** `a` and `b` agree before index `k` and `a` has the smaller code point at `k`. */
  predicate FirstDifferenceBelow(a: string, b: string, k: int)
  {
    0 <= k < |a| && k < |b| && a[..k] == b[..k] && a[k] < b[k]
  }

  /**
   * `LexLess` is the code-point order: `a` is a proper prefix of `b`, or at the
   * first position where they differ `a` has the smaller code point.
   */
  lemma {:induction false} LexLessIsCodePointOrder(a: string, b: string)
    ensures LexLess(a, b) <==> (|a| < |b| && b[..|a|] == a) || exists k :: FirstDifferenceBelow(a, b, k)
  {
    if a == [] {
      assert forall k :: !FirstDifferenceBelow(a, b, k);
    } else if b == [] {
      assert forall k :: !FirstDifferenceBelow(a, b, k);
    } else if a[0] != b[0] {
      if a[0] < b[0] { assert FirstDifferenceBelow(a, b, 0); }
    } else {
      LexLessIsCodePointOrder(a[1..], b[1..]);
      forall k | FirstDifferenceBelow(a[1..], b[1..], k) ensures FirstDifferenceBelow(a, b, k + 1) {
        assert a[..k + 1] == [a[0]] + a[1..][..k];
        assert b[..k + 1] == [b[0]] + b[1..][..k];
      }
      forall k | FirstDifferenceBelow(a, b, k) ensures k > 0 && FirstDifferenceBelow(a[1..], b[1..], k - 1) {
        assert k != 0;
        assert a[1..][..k - 1] == a[..k][1..];
        assert b[1..][..k - 1] == b[..k][1..];
      }
      ProperPrefixShift(a, b);
    }
  }

  lemma {:induction false} LexIrreflexive(a: string)
    ensures !LexLess(a, a)
  {
    if a != [] {
      LexIrreflexive(a[1..]);
    }
  }

  lemma {:induction false} LexTransitive(a: string, b: string, c: string)
    requires LexLess(a, b) && LexLess(b, c)
    ensures LexLess(a, c)
  {
    if a != [] && b != [] && c != [] && a[0] == b[0] == c[0] {
      LexTransitive(a[1..], b[1..], c[1..]);
    }
  }

  lemma {:induction false} LexTotal(a: string, b: string)
    ensures a == b || LexLess(a, b) || LexLess(b, a)
  {
    if a != [] && b != [] && a[0] == b[0] {
      LexTotal(a[1..], b[1..]);
      if a[1..] == b[1..] {
        assert a == [a[0]] + a[1..] && b == [b[0]] + b[1..];
      }
    }
  }

  /** "not after": `a` sorts before `b` or level with it. */
  lemma LexNotLessTransitive(a: string, b: string, c: string)
    requires !LexLess(a, b) && !LexLess(b, c)
    ensures !LexLess(a, c)
  {
    LexTotal(a, b);
    LexTotal(b, c);
    if LexLess(a, c) {
      if a == b {
        LexIrreflexive(c);
        if b != c { LexTransitive(c, b, c); }
      } else if b == c {
        LexIrreflexive(a);
        LexTransitive(a, c, a);
      } else {
        LexTransitive(c, b, a);
        LexTransitive(a, c, a);
        LexIrreflexive(a);
      }
    }
  }

  predicate IsDigit(c: char)
  {
    '0' <= c <= '9'
  }

  function DigitChar(d: nat): (c: char)
    requires d < 10
    ensures IsDigit(c)
  {
    ('0' as int + d) as char
  }

  /** The decimal digits of `n`, without leading zeros. */
  function NatToDecimal(n: nat): (s: string)
    ensures |s| >= 1
    ensures forall i :: 0 <= i < |s| ==> IsDigit(s[i])
    ensures s[0] == '0' ==> s == "0"
    ensures n < 10 <==> |s| == 1
  {
    if n < 10 then [DigitChar(n)] else NatToDecimal(n / 10) + [DigitChar(n % 10)]
  }

  /** `${i}` for an integer: its decimal digits, after a minus sign when negative. */
  function IntToString(i: int): (s: string)
    ensures |s| >= 1 && (s[0] == '-' || IsDigit(s[0]))
    ensures forall k :: 1 <= k < |s| ==> IsDigit(s[k])
    ensures s[0] == '-' <==> i < 0
  {
    if i < 0 then "-" + NatToDecimal(-i) else NatToDecimal(i)
  }

  lemma {:induction false} NatToDecimalInjective(a: nat, b: nat)
    requires NatToDecimal(a) == NatToDecimal(b)
    ensures a == b
  {
    if a >= 10 && b >= 10 {
      var sa, sb := NatToDecimal(a), NatToDecimal(b);
      assert sa[..|sa| - 1] == NatToDecimal(a / 10);
      assert sb[..|sb| - 1] == NatToDecimal(b / 10);
      NatToDecimalInjective(a / 10, b / 10);
      assert DigitChar(a % 10) == sa[|sa| - 1] == DigitChar(b % 10);
    }
  }

  /** Different integers print differently. */
  lemma IntToStringInjective(a: int, b: int)
    requires IntToString(a) == IntToString(b)
    ensures a == b
  {
    if a < 0 && b < 0 {
      assert NatToDecimal(-a) == IntToString(a)[1..];
      assert NatToDecimal(-b) == IntToString(b)[1..];
      NatToDecimalInjective(-a, -b);
    } else if a >= 0 && b >= 0 {
      NatToDecimalInjective(a, b);
    }
  }

  /** The white space and line terminators `parseInt` skips before the number. */
  predicate IsJsWhitespace(c: char)
  {
    var n := c as int;
    n == 0x09 || n == 0x0A || n == 0x0B || n == 0x0C || n == 0x0D || n == 0x20 || n == 0xA0
    || n == 0x1680 || (0x2000 <= n <= 0x200A) || n == 0x2028 || n == 0x2029 || n == 0x202F
    || n == 0x205F || n == 0x3000 || n == 0xFEFF
  }

  function TrimStart(s: string): (r: string)
    ensures |r| <= |s| && s[|s| - |r|..] == r
    ensures forall i :: 0 <= i < |s| - |r| ==> IsJsWhitespace(s[i])
    ensures r == [] || !IsJsWhitespace(r[0])
  {
    if s != [] && IsJsWhitespace(s[0]) then TrimStart(s[1..]) else s
  }

  /** The value of a digit in radix up to 36 (letters in either case are 10 to 35); 36 for a non-digit. */
  function DigitValue(c: char): nat
  {
    if '0' <= c <= '9' then c as int - '0' as int
    else if 'a' <= c <= 'z' then c as int - 'a' as int + 10
    else if 'A' <= c <= 'Z' then c as int - 'A' as int + 10
    else 36
  }

  /** The longest prefix of `s` made of radix-`radix` digits. */
  function LeadingDigits(s: string, radix: nat): (z: string)
    ensures StartsWith(s, z)
    ensures forall i :: 0 <= i < |z| ==> DigitValue(z[i]) < radix
    ensures |z| == |s| || DigitValue(s[|z|]) >= radix
  {
    if s == [] || DigitValue(s[0]) >= radix then [] else [s[0]] + LeadingDigits(s[1..], radix)
  }

  /** The number the digits `z` spell in radix `radix`. */
  function DigitsValue(z: string, radix: nat): nat
  {
    if z == [] then 0 else DigitsValue(z[..|z| - 1], radix) * radix + DigitValue(z[|z| - 1])
  }

  /**
   * `parseInt` after the sign: hexadecimal after a `0x`/`0X` prefix, decimal
   * otherwise, up to the first character that is not a digit; no digit at all
   * is `NaN`, here `None`.
   */
  function ParseMagnitude(u: string): (r: Option<int>)
    ensures r.Some? ==> r.value >= 0
    ensures r.None? <==> if HexPrefixed(u) then |u| == 2 || DigitValue(u[2]) >= 16 else u == [] || DigitValue(u[0]) >= 10
    ensures r.Some? ==> r.value == DigitsValue(MagnitudeDigits(u), Radix(u))
  {
    var z := MagnitudeDigits(u);
    if z == [] then None else Some(DigitsValue(z, Radix(u)))
  }

  /** The radix `parseInt` reads in: 16 after a `0x`/`0X` prefix, 10 otherwise. */
  function Radix(u: string): nat
  {
    if HexPrefixed(u) then 16 else 10
  }

  /** The digits `parseInt` reads: the longest run of radix digits after the optional prefix. */
  function MagnitudeDigits(u: string): string
  {
    LeadingDigits(if HexPrefixed(u) then u[2..] else u, Radix(u))
  }

  /** `u` starts with `0x` or `0X`. */
  predicate HexPrefixed(u: string)
  {
    |u| >= 2 && u[0] == '0' && (u[1] == 'x' || u[1] == 'X')
  }

  /**
   * `parseInt(s)` with no radix: skip leading white space, take an optional sign,
   * read the magnitude. Nothing but white space is `NaN`; a negative number
   * needs a minus sign; without a sign the number is the magnitude read.
   */
  function ParseInt(s: string): (r: Option<int>)
    ensures TrimStart(s) == [] ==> r.None?
    ensures r.Some? && r.value < 0 ==> TrimStart(s)[0] == '-'
    ensures TrimStart(s) != [] && TrimStart(s)[0] != '-' && TrimStart(s)[0] != '+' ==> r == ParseMagnitude(TrimStart(s))
    ensures TrimStart(s) != [] && TrimStart(s)[0] == '+' ==> r == ParseMagnitude(TrimStart(s)[1..])
    ensures TrimStart(s) != [] && TrimStart(s)[0] == '-' ==>
              r == if ParseMagnitude(TrimStart(s)[1..]).Some? then Some(-ParseMagnitude(TrimStart(s)[1..]).value) else None
  {
    var t := TrimStart(s);
    if t == [] then None
    else if t[0] == '-' then
      match ParseMagnitude(t[1..])
      case None => None
      case Some(m) => Some(-m)
    else if t[0] == '+' then ParseMagnitude(t[1..])
    else ParseMagnitude(t)
  }

  lemma {:induction false} DecimalValue(n: nat)
    ensures DigitsValue(NatToDecimal(n), 10) == n
  {
    if n >= 10 {
      var s := NatToDecimal(n);
      assert s[..|s| - 1] == NatToDecimal(n / 10);
      DecimalValue(n / 10);
    }
  }

  lemma {:induction false} AllDigitsRead(s: string)
    requires forall i :: 0 <= i < |s| ==> IsDigit(s[i])
    ensures LeadingDigits(s, 10) == s
  {
    if s != [] {
      AllDigitsRead(s[1..]);
      assert s == [s[0]] + s[1..];
    }
  }

  lemma MagnitudeOfDecimal(n: nat)
    ensures ParseMagnitude(NatToDecimal(n)) == Some(n)
  {
    var u := NatToDecimal(n);
    assert !(|u| >= 2 && u[0] == '0');
    AllDigitsRead(u);
    DecimalValue(n);
  }

  /** Dropping a shared first character keeps "`a` is a proper prefix of `b`" as it was. */
  lemma ProperPrefixShift(a: string, b: string)
    requires a != [] && b != [] && a[0] == b[0]
    ensures (|a| < |b| && b[..|a|] == a) <==> (|a[1..]| < |b[1..]| && b[1..][..|a[1..]|] == a[1..])
  {
    if |a| <= |b| {
      assert b[..|a|] == [b[0]] + b[1..][..|a| - 1];
      assert a == [a[0]] + a[1..];
    }
  }

  /** `parseInt` reads back every integer `${i}` prints. */
  lemma ParseIntOfIntToString(i: int)
    ensures ParseInt(IntToString(i)) == Some(i)
  {
    if i < 0 {
      NegativeParse(i);
    } else {
      NonNegativeParse(i);
    }
  }

  lemma NonNegativeParse(i: int)
    requires i >= 0
    ensures ParseInt(IntToString(i)) == Some(i)
  {
    MagnitudeOfDecimal(i);
    UnsignedRead(IntToString(i));
  }

  lemma NegativeParse(i: int)
    requires i < 0
    ensures ParseInt(IntToString(i)) == Some(i)
  {
    var u := NatToDecimal(-i);
    assert IntToString(i) == "-" + u;
    MagnitudeOfDecimal(-i);
    MinusRead(u, -i);
  }

  /** Text starting with a digit is read as its magnitude. */
  lemma UnsignedRead(s: string)
    requires |s| >= 1 && IsDigit(s[0])
    ensures ParseInt(s) == ParseMagnitude(s)
  {
    NoLeadingSpace(s);
  }

  /** A minus sign followed by a readable magnitude is read as its negation. */
  lemma MinusRead(u: string, m: nat)
    requires ParseMagnitude(u) == Some(m)
    ensures ParseInt("-" + u) == Some(-(m as int))
  {
    var s := "-" + u;
    assert s[1..] == u;
    NoLeadingSpace(s);
  }

  /** A text that starts with a sign or a digit is left alone by the white-space skip. */
  lemma NoLeadingSpace(s: string)
    requires |s| >= 1 && (s[0] == '-' || s[0] == '+' || IsDigit(s[0]))
    ensures TrimStart(s) == s
  {
    assert !IsJsWhitespace(s[0]);
  }

  /** A plus sign is skipped and reading stops at the first non-digit: `parseInt("+12a")` is 12. */
  lemma ParsePlusWithTail()
    ensures ParseInt("+12a") == Some(12)
  {
    var s := "+12a";
    NoLeadingSpace(s);
    var u := s[1..];
    assert u == "12a" && !HexPrefixed(u);
    assert LeadingDigits("a", 10) == [];
    assert u[1..] == "2a" && u[1..][1..] == "a";
    assert MagnitudeDigits(u) == "12";
    assert DigitsValue("12", 10) == 12 by { assert "12"[..1] == "1"; }
  }

  /** White space, then a minus sign before a hexadecimal number: `parseInt(" -0x1A")` is -26. */
  lemma ParseSpacedNegativeHex()
    ensures ParseInt(" -0x1A") == Some(-26)
  {
    var s := " -0x1A";
    assert IsJsWhitespace(s[0]) && s[1..] == "-" + "0x1A";
    NoLeadingSpace(s[1..]);
    assert TrimStart(s) == "-" + "0x1A";
    HexMagnitude();
    MinusRead("0x1A", 26);
  }

  lemma HexMagnitude()
    ensures ParseMagnitude("0x1A") == Some(26)
  {
    var u := "0x1A";
    assert HexPrefixed(u) && u[2..] == "1A";
    assert LeadingDigits("1A", 16) == "1A" by { assert "1A"[1..] == "A"; }
    assert DigitsValue("1A", 16) == 26 by { assert "1A"[..1] == "1"; }
  }

  /** A `0x` prefix with no digit after it is `NaN`, and so is a lone minus sign. */
  lemma ParseWithoutDigits()
    ensures ParseInt("0x") == None
    ensures ParseInt("-") == None
  {
    NoLeadingSpace("0x");
    NoLeadingSpace("-");
    assert HexPrefixed("0x") && "0x"[2..] == [];
    assert "-"[1..] == [];
  }
}
