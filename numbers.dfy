/**
 * Integers as JavaScript writes and reads them: the decimal text that a
 * template literal produces for a whole number, and `parseInt` with no
 * radix argument (ECMAScript's `parseInt (string, radix)`, with `radix`
 * undefined). `NaN` is `None`.
 */
module Numbers {
  import opened Wrappers
  import opened Strings

  function DigitChar(d: nat): char
    requires d < 10
  {
    ('0' as int + d) as char
  }

  /** The decimal digits of `n`, with no leading zero. */
  function NatToString(n: nat): (r: string)
    ensures |r| >= 1
    ensures forall i :: 0 <= i < |r| ==> '0' <= r[i] <= '9'
    ensures r[0] == '0' ==> n == 0
  {
    if n < 10 then [DigitChar(n)] else NatToString(n / 10) + [DigitChar(n % 10)]
  }

  /** `${n}` for a whole number. */
  function IntToString(n: int): (r: string)
    ensures |r| >= 1 && (r[0] == '-' || '0' <= r[0] <= '9')
    ensures forall i :: 1 <= i < |r| ==> '0' <= r[i] <= '9'
  {
    if n < 0 then "-" + NatToString(-n) else NatToString(n)
  }

  /** The value of `c` as a digit in base 36, or 36 when it is none. */
  function DigitValue(c: char): nat
  {
    if '0' <= c <= '9' then c as int - '0' as int
    else if 'a' <= c <= 'z' then c as int - 'a' as int + 10
    else if 'A' <= c <= 'Z' then c as int - 'A' as int + 10
    else 36
  }

  /** The longest prefix of `s` made of digits below `radix`. */
  function DigitPrefix(s: string, radix: nat): (r: string)
    ensures |r| <= |s| && r == s[..|r|]
    ensures forall i :: 0 <= i < |r| ==> DigitValue(r[i]) < radix
    ensures |r| < |s| ==> DigitValue(s[|r|]) >= radix
  {
    if s != "" && DigitValue(s[0]) < radix then [s[0]] + DigitPrefix(s[1..], radix) else ""
  }

  /** The number the digits `ds` denote in base `radix`. */
  function DigitsValue(ds: string, radix: nat): nat
  {
    if ds == "" then 0 else DigitsValue(ds[..|ds| - 1], radix) * radix + DigitValue(ds[|ds| - 1])
  }

  /** The longest run of digits below `radix` at the front of `s`, as a number; `None` when there is none. */
  function ParseDigits(s: string, radix: nat): Option<nat>
  {
    var digits := DigitPrefix(s, radix);
    if digits == "" then None else Some(DigitsValue(digits, radix))
  }

  /** After the sign: a `0x` or `0X` prefix switches to base 16. */
  function ParseUnsigned(u: string): Option<nat>
  {
    if |u| >= 2 && u[0] == '0' && (u[1] == 'x' || u[1] == 'X') then ParseDigits(u[2..], 16)
    else ParseDigits(u, 10)
  }

  /** After the white space: an optional `-` or `+`. */
  function ParseSigned(t: string): Option<int>
  {
    if t != "" && t[0] == '-' then
      match ParseUnsigned(t[1..])
      case None => None
      case Some(v) => Some(-(v as int))
    else if t != "" && t[0] == '+' then ParseUnsigned(t[1..])
    else ParseUnsigned(t)
  }

  /**
   * `parseInt(s)`: leading white space skipped, an optional sign, a `0x` or
   * `0X` prefix switching to base 16, then the longest run of digits; no
   * digit at all is `NaN`.
   */
  function ParseInt(s: string): Option<int>
  {
    ParseSigned(TrimStart(s))
  }

  lemma {:induction false} NatToStringValue(n: nat)
    ensures DigitsValue(NatToString(n), 10) == n
  {
    var r := NatToString(n);
    if n >= 10 {
      NatToStringValue(n / 10);
      assert r[..|r| - 1] == NatToString(n / 10);
    }
  }

  /** A character that ends a run of decimal digits without turning `0` into a `0x` prefix. */
  predicate EndsDecimal(rest: string) {
    rest == "" || (DigitValue(rest[0]) >= 10 && rest[0] != 'x' && rest[0] != 'X')
  }

  /** Decimal digits followed by a non-digit are read as exactly those digits. */
  lemma ParseUnsignedDigits(ds: string, rest: string)
    requires |ds| >= 1 && forall i :: 0 <= i < |ds| ==> '0' <= ds[i] <= '9'
    requires EndsDecimal(rest)
    ensures ParseUnsigned(ds + rest) == Some(DigitsValue(ds, 10))
  {
    var u := ds + rest;
    DigitPrefixAppend(ds, rest);
    if |u| >= 2 {
      if |ds| >= 2 {
        assert u[1] == ds[1];
      } else {
        assert u[1] == rest[0];
      }
    }
    assert ParseUnsigned(u) == ParseDigits(u, 10);
  }

  lemma {:induction false} DigitPrefixAppend(ds: string, rest: string)
    requires forall i :: 0 <= i < |ds| ==> '0' <= ds[i] <= '9'
    requires EndsDecimal(rest)
    ensures DigitPrefix(ds + rest, 10) == ds
  {
    if ds == "" {
      assert ds + rest == rest;
    } else {
      assert (ds + rest)[1..] == ds[1..] + rest;
      DigitPrefixAppend(ds[1..], rest);
    }
  }

  /** Text that starts with a digit is read without a sign. */
  lemma ParseIntPlain(u: string)
    requires u != "" && '0' <= u[0] <= '9'
    ensures ParseInt(u) == ParseUnsigned(u)
  {
    TrimStartKeeps(u);
  }

  /** A leading `-` negates what follows it. */
  lemma ParseIntMinus(u: string)
    ensures ParseInt("-" + u) == (match ParseUnsigned(u) case None => None case Some(v) => Some(-(v as int)))
  {
    assert ("-" + u)[0] == '-';
    assert ("-" + u)[1..] == u;
    TrimStartKeeps("-" + u);
  }

  lemma ParseNatToString(m: nat, rest: string)
    requires EndsDecimal(rest)
    ensures ParseInt(NatToString(m) + rest) == Some(m)
  {
    var ds := NatToString(m);
    NatToStringValue(m);
    ParseUnsignedDigits(ds, rest);
    assert (ds + rest)[0] == ds[0];
    ParseIntPlain(ds + rest);
  }

  lemma ParseNegatedNatToString(m: nat, rest: string)
    requires EndsDecimal(rest)
    ensures ParseInt("-" + NatToString(m) + rest) == Some(-(m as int))
  {
    var ds := NatToString(m);
    NatToStringValue(m);
    ParseUnsignedDigits(ds, rest);
    ParseMinusDigits(ds, rest, m);
  }

  lemma ParseMinusDigits(ds: string, rest: string, v: nat)
    requires ParseUnsigned(ds + rest) == Some(v)
    ensures ParseInt("-" + ds + rest) == Some(-(v as int))
  {
    assert "-" + ds + rest == "-" + (ds + rest);
    ParseIntMinus(ds + rest);
  }

  /**
   * Reading back what a template literal wrote gives the number back, also
   * when text that is not a digit follows it (`parseInt("42s") == 42`).
   */
  lemma ParseIntToString(n: int, rest: string)
    requires EndsDecimal(rest)
    ensures ParseInt(IntToString(n) + rest) == Some(n)
  {
    if n < 0 {
      ParseNegatedNatToString(-n, rest);
    } else {
      ParseNatToString(n, rest);
    }
  }

  /** The number a text made of an optional `-` and decimal digits, and nothing else, denotes. */
  function DecimalValue(s: string): Option<int>
  {
    var negative := s != "" && s[0] == '-';
    var ds := if negative then s[1..] else s;
    if ds != "" && AllDecimal(ds) then
      Some(if negative then -(DigitsValue(ds, 10) as int) else DigitsValue(ds, 10))
    else None
  }

  predicate AllDecimal(ds: string) {
    forall i :: 0 <= i < |ds| ==> '0' <= ds[i] <= '9'
  }

  /** The decimal text of a number denotes that number. */
  lemma DecimalValueOfString(n: int)
    ensures DecimalValue(IntToString(n)) == Some(n)
  {
    var m: nat := if n < 0 then -n else n;
    var ds := NatToString(m);
    NatToStringValue(m);
    NatToStringDecimal(m);
    if n < 0 {
      assert IntToString(n) == "-" + ds;
      DecimalNegative(ds);
    } else {
      assert IntToString(n) == ds;
      DecimalPlain(ds);
    }
  }

  lemma NatToStringDecimal(m: nat)
    ensures AllDecimal(NatToString(m))
  {
  }

  lemma DecimalPlain(ds: string)
    requires |ds| >= 1 && AllDecimal(ds)
    ensures DecimalValue(ds) == Some(DigitsValue(ds, 10))
  {
  }

  lemma DecimalNegative(ds: string)
    requires |ds| >= 1 && AllDecimal(ds)
    ensures DecimalValue("-" + ds) == Some(-(DigitsValue(ds, 10) as int))
  {
    var s := "-" + ds;
    assert s[0] == '-';
    assert s[1..] == ds;
  }

  lemma {:induction false} AllDigitsPrefix(s: string, radix: nat)
    requires forall i :: 0 <= i < |s| ==> DigitValue(s[i]) < radix
    ensures DigitPrefix(s, radix) == s
  {
    if s != "" {
      AllDigitsPrefix(s[1..], radix);
    }
  }

  /** What `parseInt` reads digits from once white space is skipped: the text after an optional `-` or `+`. */
  function AfterSign(t: string): string
  {
    if t != "" && (t[0] == '-' || t[0] == '+') then t[1..] else t
  }

  /** Text that does not start (after white space and a sign) with a decimal digit reads as `NaN`. */
  lemma ParseIntNaN(s: string)
    requires var u := AfterSign(TrimStart(s)); u == "" || DigitValue(u[0]) >= 10
    ensures ParseInt(s) == None
  {
    ParseUnsignedNaN(AfterSign(TrimStart(s)));
  }

  /** Text whose first character is no decimal digit reads as `NaN` once the sign is gone. */
  lemma ParseUnsignedNaN(u: string)
    requires u == "" || DigitValue(u[0]) >= 10
    ensures ParseUnsigned(u) == None
  {
  }

  /** The labels of pre-release pieces carry no number in front. */
  lemma ParseIntOfLabels()
    ensures ParseInt("beta") == None && ParseInt("alpha") == None && ParseInt("rc") == None
  {
    LabelNaN("beta");
    LabelNaN("alpha");
    LabelNaN("rc");
  }

  lemma LabelNaN(word: string)
    requires word != "" && 'a' <= word[0] <= 'z'
    ensures ParseInt(word) == None
  {
    TrimStartKeeps(word);
    ParseIntNaN(word);
  }
}
