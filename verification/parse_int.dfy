/**
 This module models JavaScript's global `parseInt(string)` called with no radix,
 as specified in section 19.2.5 of ECMA-262 (ECMAScript Language Specification):
 leading white space is skipped, one optional sign is accepted, a `0x` or `0X`
 prefix switches to base 16, the longest run of digits of the chosen base is
 read, everything after it is ignored, and NaN (here `None`) is returned when
 that run is empty.

 The Number result is modelled as an unbounded integer, and `-0` is identified
 with `0`.
 */
module JsParseInt {
  import opened Wrappers

  /** StrWhiteSpaceChar of ECMA-262: WhiteSpace (including every Zs code point)
      and LineTerminator. */
  predicate IsStrWhiteSpace(c: char) {
    var u := c as int;
    // TAB, VT, FF, SP, NBSP, ZWNBSP and the other Zs code points
    || u == 0x09 || u == 0x0B || u == 0x0C || u == 0x20 || u == 0xA0 || u == 0xFEFF
    || u == 0x1680 || (0x2000 <= u <= 0x200A) || u == 0x202F || u == 0x205F || u == 0x3000
    // LF, CR, LINE SEPARATOR, PARAGRAPH SEPARATOR
    || u == 0x0A || u == 0x0D || u == 0x2028 || u == 0x2029
  }

  predicate AllWhiteSpace(s: string) {
    forall i :: 0 <= i < |s| ==> IsStrWhiteSpace(s[i])
  }

  /** The value of `c` as a digit of radix up to 36: `0`-`9`, then `a`-`z`
      (either case) for 10-35. */
  function DigitValue(c: char): Option<nat> {
    if '0' <= c <= '9' then Some(c as nat - '0' as nat)
    else if 'a' <= c <= 'z' then Some(c as nat - 'a' as nat + 10)
    else if 'A' <= c <= 'Z' then Some(c as nat - 'A' as nat + 10)
    else None
  }

  predicate IsDigit(c: char, radix: nat) {
    DigitValue(c).Some? && DigitValue(c).value < radix
  }

  predicate AllDigits(s: string, radix: nat) {
    forall i :: 0 <= i < |s| ==> IsDigit(s[i], radix)
  }

  /** The string with its leading white space removed (TrimString, start). */
  function TrimStart(s: string): (r: string)
    ensures |r| <= |s| && r == s[|s| - |r|..]
    ensures AllWhiteSpace(s[..|s| - |r|])
    ensures r == [] || !IsStrWhiteSpace(r[0])
  {
    if s != [] && IsStrWhiteSpace(s[0]) then
      var r := TrimStart(s[1..]);
      var k := |s| - |r|;
      assert s[1..][k - 1..] == s[k..];
      assert AllWhiteSpace(s[..k]) by {
        forall i | 0 < i < k ensures IsStrWhiteSpace(s[i]) {
          assert s[i] == s[1..][..k - 1][i - 1];
        }
      }
      r
    else s
  }

  /** Length of the longest prefix of `s` made of digits of `radix`. */
  function DigitRun(s: string, radix: nat): (n: nat)
    ensures n <= |s|
    ensures AllDigits(s[..n], radix)
    ensures n == |s| || !IsDigit(s[n], radix)
  {
    if s != [] && IsDigit(s[0], radix) then 1 + DigitRun(s[1..], radix) else 0
  }

  function Pow(b: nat, e: nat): (p: nat)
    ensures b >= 1 ==> p >= 1
  {
    if e == 0 then 1 else b * Pow(b, e - 1)
  }

  /** The mathematical value of a digit string read most-significant first. */
  function Value(ds: string, radix: nat): (v: nat)
    requires AllDigits(ds, radix)
    ensures v < Pow(radix, |ds|)
  {
    if ds == [] then 0
    else
      var init := ds[..|ds| - 1];
      assert AllDigits(init, radix);
      var d := DigitValue(ds[|ds| - 1]).value;
      var w := Value(init, radix);
      DigitStepBound(w, d, radix, |init|);
      assert |ds| == |init| + 1;
      w * radix + d
  }

  /** Appending a digit to a number of `n` digits gives a number of `n + 1` digits. */
  lemma DigitStepBound(w: nat, d: nat, radix: nat, n: nat)
    requires w < Pow(radix, n) && d < radix
    ensures 0 <= w * radix + d < Pow(radix, n + 1)
  {
    var p := Pow(radix, n);
    calc {
      w * radix + d;
    <
      (w + 1) * radix;
    <= { MulMono(w + 1, p, radix); }
      p * radix;
    ==
      Pow(radix, n + 1);
    }
  }

  lemma MulMono(a: nat, b: nat, c: nat)
    requires a <= b
    ensures a * c <= b * c
  {}

  /** How the parser splits its input: white space, sign, radix prefix, digits
      and the ignored remainder. */
  datatype Split = Split(space: string, sign: string, prefix: string, digits: string, rest: string)
  {
    function Radix(): nat { if prefix == "" then 10 else 16 }
    /** The text after the white space. */
    function Signed(): string { sign + (prefix + (digits + rest)) }
    function Whole(): string { space + Signed() }
    /** The signed value of the digits. */
    function Number(): int
      requires AllDigits(digits, Radix())
    {
      var v: int := Value(digits, Radix());
      if sign == "-" then -v else v
    }
  }

  predicate StartsWithHexPrefix(s: string) {
    |s| >= 2 && s[0] == '0' && (s[1] == 'x' || s[1] == 'X')
  }

  /** The longest digit prefix of `w` and what follows it. */
  function ScanDigits(w: string, radix: nat): (r: (string, string))
    ensures r.0 + r.1 == w
    ensures AllDigits(r.0, radix)
    ensures r.1 == [] || !IsDigit(r.1[0], radix)
  {
    var n := DigitRun(w, radix);
    assert w[..n] + w[n..] == w;
    (w[..n], w[n..])
  }

  /** Prefix, digits and remainder of a string whose sign has been removed. */
  function ScanUnsigned(u: string): (r: (string, string, string))
    ensures r.0 + (r.1 + r.2) == u
    ensures r.0 == "" || r.0 == "0x" || r.0 == "0X"
    ensures r.0 == "" <==> !StartsWithHexPrefix(u)
    ensures AllDigits(r.1, if r.0 == "" then 10 else 16)
    ensures r.2 == [] || !IsDigit(r.2[0], if r.0 == "" then 10 else 16)
  {
    if StartsWithHexPrefix(u) then
      var ds := ScanDigits(u[2..], 16);
      assert u[..2] + u[2..] == u;
      (u[..2], ds.0, ds.1)
    else
      var ds := ScanDigits(u, 10);
      ("", ds.0, ds.1)
  }

  /** The sign and the rest of a string whose leading white space has been removed. */
  function ScanSigned(t: string): (r: (string, string))
    ensures r.0 + r.1 == t
    ensures r.0 == "" || r.0 == "+" || r.0 == "-"
    ensures r.0 == "" ==> t == [] || (t[0] != '+' && t[0] != '-')
  {
    if t != [] && (t[0] == '+' || t[0] == '-') then
      assert t[..1] + t[1..] == t;
      (t[..1], t[1..])
    else ("", t)
  }

  /** The split that `parseInt` makes of `s`; each part is as long as the
      grammar of section 19.2.5 allows (`WellFormed`). */
  function Scan(s: string): Split {
    var t := TrimStart(s);
    var signed := ScanSigned(t);
    var unsigned := ScanUnsigned(signed.1);
    Split(s[..|s| - |t|], signed.0, unsigned.0, unsigned.1, unsigned.2)
  }

  /** The split `Scan` makes covers the whole input, and each of its parts
      is as long as the grammar allows. */
  lemma ScanWellFormed(s: string)
    ensures Scan(s).Whole() == s
    ensures WellFormed(Scan(s))
  {
    ScanWhole(s);
    ScanPartsWellFormed(s);
  }

  lemma ScanWhole(s: string)
    ensures Scan(s).Whole() == s
  {
    var t := TrimStart(s);
    var signed := ScanSigned(t);
    var unsigned := ScanUnsigned(signed.1);
    TakeDrop(s, |s| - |t|);
    assert unsigned.0 + (unsigned.1 + unsigned.2) == signed.1;
  }

  lemma ScanPartsWellFormed(s: string)
    ensures WellFormed(Scan(s))
  {
    var t := TrimStart(s);
    var signed := ScanSigned(t);
    var unsigned := ScanUnsigned(signed.1);
    assert unsigned.0 + (unsigned.1 + unsigned.2) == signed.1;
    PartsWellFormed(s[..|s| - |t|], t, signed.0, unsigned.0, unsigned.1, unsigned.2);
  }

  lemma TakeDrop(s: string, k: nat)
    requires k <= |s|
    ensures s[..k] + s[k..] == s
  {}

  /** The parts the three scanners return form a well-formed split. */
  lemma PartsWellFormed(space: string, t: string, sign: string, prefix: string,
                        digits: string, rest: string)
    requires AllWhiteSpace(space)
    requires t == [] || !IsStrWhiteSpace(t[0])
    requires sign + (prefix + (digits + rest)) == t
    requires sign == "" || sign == "+" || sign == "-"
    requires sign == "" ==> t == [] || (t[0] != '+' && t[0] != '-')
    requires prefix == "" || prefix == "0x" || prefix == "0X"
    requires prefix == "" <==> !StartsWithHexPrefix(prefix + (digits + rest))
    requires AllDigits(digits, if prefix == "" then 10 else 16)
    requires rest == [] || !IsDigit(rest[0], if prefix == "" then 10 else 16)
    ensures WellFormed(Split(space, sign, prefix, digits, rest))
    ensures Split(space, sign, prefix, digits, rest).Whole() == space + t
  {
    if sign == "" {
      assert prefix + (digits + rest) == t;
    }
    if prefix == "" {
      assert prefix + (digits + rest) == digits + rest;
    }
  }

  /** `parseInt(s)`: `None` is NaN. */
  function ParseInt(s: string): (r: Option<int>)
    ensures r.None? <==> Scan(s).digits == []
    ensures r.Some? && Scan(s).sign == "-" ==> r.value <= 0
    ensures r.Some? && Scan(s).sign != "-" ==> r.value >= 0
  {
    var sp := Scan(s);
    if sp.digits == [] then None else Some(sp.Number())
  }

  /** The lower-case digit character of value `v`. */
  function DigitChar(v: nat): (c: char)
    requires v < 16
    ensures DigitValue(c) == Some(v)
  {
    if v < 10 then ('0' as int + v) as char else ('a' as int + v - 10) as char
  }

  /** Digits of `n` in base `radix`, most significant first, lower case,
      without leading zeros ("0" for zero). */
  function ToDigits(n: nat, radix: nat): (ds: string)
    requires 2 <= radix <= 16
    ensures |ds| >= 1 && AllDigits(ds, radix)
    ensures n > 0 ==> ds[0] != '0'
    decreases n
  {
    if n < radix then [DigitChar(n)]
    else
      DivMod(n, radix);
      var init := ToDigits(n / radix, radix);
      var ds := init + [DigitChar(n % radix)];
      assert ds[0] == init[0];
      ds
  }

  lemma DivMod(n: nat, radix: nat)
    requires 2 <= radix <= n
    ensures 0 < n / radix < n && n % radix < radix
    ensures n == n / radix * radix + n % radix
  {}

  /** The plain decimal rendering of an integer (no exponent form). */
  function ShowInt(n: int): string {
    if n < 0 then "-" + ToDigits(-n, 10) else ToDigits(n, 10)
  }

  /** Reading back the digits of `n` yields `n`. */
  lemma {:induction false} ValueOfDigits(n: nat, radix: nat)
    requires 2 <= radix <= 16
    ensures Value(ToDigits(n, radix), radix) == n
    decreases n
  {
    var ds := ToDigits(n, radix);
    if n >= radix {
      var q := n / radix;
      DivMod(n, radix);
      ValueOfDigits(q, radix);
      assert ds[..|ds| - 1] == ToDigits(q, radix);
      assert DigitValue(ds[|ds| - 1]) == Some(n % radix);
      assert Value(ds, radix) == q * radix + n % radix;
    } else {
      assert ds[..0] == [];
    }
  }

  /** Leading white space in front of a non-space character is exactly what
      `TrimStart` removes. */
  lemma {:induction false} TrimStartSkips(ws: string, x: string)
    requires AllWhiteSpace(ws)
    requires x == [] || !IsStrWhiteSpace(x[0])
    ensures TrimStart(ws + x) == x
  {
    if ws != [] {
      assert (ws + x)[1..] == ws[1..] + x;
      TrimStartSkips(ws[1..], x);
    } else {
      assert ws + x == x;
    }
  }

  /** A digit string followed by a non-digit is read up to the non-digit. */
  lemma {:induction false} DigitRunStops(ds: string, rest: string, radix: nat)
    requires AllDigits(ds, radix)
    requires rest == [] || !IsDigit(rest[0], radix)
    ensures DigitRun(ds + rest, radix) == |ds|
  {
    if ds != [] {
      assert (ds + rest)[1..] == ds[1..] + rest;
      DigitRunStops(ds[1..], rest, radix);
    } else {
      assert ds + rest == rest;
    }
  }

  lemma ScanDigitsStops(ds: string, rest: string, radix: nat)
    requires AllDigits(ds, radix)
    requires rest == [] || !IsDigit(rest[0], radix)
    ensures ScanDigits(ds + rest, radix) == (ds, rest)
  {
    DigitRunStops(ds, rest, radix);
    assert (ds + rest)[..|ds|] == ds;
    assert (ds + rest)[|ds|..] == rest;
  }

  lemma ScanSignedOf(sign: string, u: string)
    requires sign == "" || sign == "+" || sign == "-"
    requires sign == "" ==> u == [] || (u[0] != '+' && u[0] != '-')
    ensures ScanSigned(sign + u) == (sign, u)
  {
    var t := sign + u;
    if sign != "" {
      assert t[..1] == sign && t[1..] == u;
    } else {
      assert t == u;
    }
  }

  lemma ScanUnsignedOf(prefix: string, ds: string, rest: string)
    requires prefix == "" || prefix == "0x" || prefix == "0X"
    requires prefix == "" ==> !StartsWithHexPrefix(ds + rest)
    requires AllDigits(ds, if prefix == "" then 10 else 16)
    requires rest == [] || !IsDigit(rest[0], if prefix == "" then 10 else 16)
    ensures ScanUnsigned(prefix + (ds + rest)) == (prefix, ds, rest)
  {
    var u := prefix + (ds + rest);
    if prefix == "" {
      assert u == ds + rest;
      ScanDigitsStops(ds, rest, 10);
    } else {
      assert u[..2] == prefix && u[2..] == ds + rest;
      ScanDigitsStops(ds, rest, 16);
    }
  }

  /** The converse of `Scan`'s contract: any split of `s` whose parts are each
      as long as the grammar allows is the one `Scan` makes, so the grammar
      determines the split uniquely. */
  lemma ScanUnique(sp: Split)
    requires WellFormed(sp)
    ensures Scan(sp.Whole()) == sp
  {
    var s := sp.Whole();
    var t := sp.Signed();
    TrimStartSkips(sp.space, t);
    assert s[..|s| - |t|] == sp.space;
    ScanSignedOf(sp.sign, sp.prefix + (sp.digits + sp.rest));
    ScanUnsignedOf(sp.prefix, sp.digits, sp.rest);
  }

  /** Whether `sp` is a split whose parts are each as long as the grammar allows. */
  predicate WellFormed(sp: Split) {
    && AllWhiteSpace(sp.space)
    && (sp.sign == "" || sp.sign == "+" || sp.sign == "-")
    && (sp.prefix == "" || sp.prefix == "0x" || sp.prefix == "0X")
    && AllDigits(sp.digits, sp.Radix())
    && (sp.Signed() == [] || !IsStrWhiteSpace(sp.Signed()[0]))
    && (sp.sign == "" ==> var u := sp.prefix + (sp.digits + sp.rest);
         u == [] || (u[0] != '+' && u[0] != '-'))
    && (sp.prefix == "" ==> !StartsWithHexPrefix(sp.digits + sp.rest))
    && (sp.rest == [] || !IsDigit(sp.rest[0], sp.Radix()))
  }

  /** `parseInt` of a well-formed split with digits is the signed value of the digits. */
  lemma ParseIntOfSplit(sp: Split)
    requires WellFormed(sp) && sp.digits != []
    ensures ParseInt(sp.Whole()) == Some(sp.Number())
  {
    ScanUnique(sp);
  }

  /** The split `parseInt` finds in white space, a decimal rendering and a tail. */
  function DecimalSplit(ws: string, n: int, rest: string): Split {
    Split(ws, if n < 0 then "-" else "", "", ToDigits(if n < 0 then -n else n, 10), rest)
  }

  lemma DecimalSplitWellFormed(ws: string, n: int, rest: string)
    requires AllWhiteSpace(ws)
    requires rest == [] || !IsDigit(rest[0], 10)
    requires n == 0 && rest != [] ==> rest[0] != 'x' && rest[0] != 'X'
    ensures WellFormed(DecimalSplit(ws, n, rest))
  {
    var sp := DecimalSplit(ws, n, rest);
    assert sp.digits == "0" ==> n == 0;
    DecimalWellFormed(ws, sp.sign, sp.digits, rest);
  }

  lemma DecimalSplitWhole(ws: string, n: int, rest: string)
    ensures DecimalSplit(ws, n, rest).Whole() == ws + ShowInt(n) + rest
  {
    var sp := DecimalSplit(ws, n, rest);
    assert ShowInt(n) == sp.sign + sp.digits;
    assert sp.prefix + (sp.digits + rest) == sp.digits + rest;
  }

  /** A decimal split is well formed when the digit run cannot be mistaken
      for the start of a hexadecimal literal. */
  lemma DecimalWellFormed(ws: string, sign: string, ds: string, rest: string)
    requires AllWhiteSpace(ws)
    requires sign == "" || sign == "-"
    requires ds != [] && AllDigits(ds, 10)
    requires rest == [] || !IsDigit(rest[0], 10)
    requires ds == "0" && rest != [] ==> rest[0] != 'x' && rest[0] != 'X'
    ensures WellFormed(Split(ws, sign, "", ds, rest))
  {
    var u := ds + rest;
    assert u[0] == ds[0];
    assert IsDigit(u[0], 10);
    assert !StartsWithHexPrefix(u) by {
      if |ds| >= 2 {
        assert u[1] == ds[1] && IsDigit(ds[1], 10);
      } else if rest != [] {
        assert u[1] == rest[0];
      }
    }
  }

  /** `parseInt` inverts the decimal rendering of any integer, whatever white
      space precedes it and whatever non-digit text follows it, except that a
      lone `0` followed by `x` or `X` starts a hexadecimal literal instead. */
  lemma ParseIntShowInt(ws: string, n: int, rest: string)
    requires AllWhiteSpace(ws)
    requires rest == [] || !IsDigit(rest[0], 10)
    requires n == 0 && rest != [] ==> rest[0] != 'x' && rest[0] != 'X'
    ensures ParseInt(ws + ShowInt(n) + rest) == Some(n)
  {
    DecimalSplitParses(ws, n, rest);
    DecimalSplitWhole(ws, n, rest);
    DecimalSplitNumber(ws, n, rest);
  }

  lemma DecimalSplitParses(ws: string, n: int, rest: string)
    requires AllWhiteSpace(ws)
    requires rest == [] || !IsDigit(rest[0], 10)
    requires n == 0 && rest != [] ==> rest[0] != 'x' && rest[0] != 'X'
    ensures ParseInt(DecimalSplit(ws, n, rest).Whole()) == Some(DecimalSplit(ws, n, rest).Number())
  {
    DecimalSplitWellFormed(ws, n, rest);
    ParseIntOfSplit(DecimalSplit(ws, n, rest));
  }

  lemma DecimalSplitNumber(ws: string, n: int, rest: string)
    ensures DecimalSplit(ws, n, rest).Number() == n
  {
    ValueOfDigits(if n < 0 then -n else n, 10);
  }

  /** Text that, after white space and an optional sign, does not start
      with a decimal digit is NaN. */
  lemma ParseIntNoDigits(ws: string, sign: string, rest: string)
    requires AllWhiteSpace(ws)
    requires sign == "" || sign == "+" || sign == "-"
    requires rest == [] || !IsDigit(rest[0], 10)
    requires sign == "" && rest != [] ==> !IsStrWhiteSpace(rest[0]) && rest[0] != '+' && rest[0] != '-'
    ensures ParseInt(ws + sign + rest) == None
  {
    var sp := Split(ws, sign, "", "", rest);
    NoDigitsWellFormed(ws, sign, rest);
    assert sp.Whole() == ws + sign + rest by {
      assert sp.Signed() == sign + rest;
    }
    ScanUnique(sp);
  }

  lemma NoDigitsWellFormed(ws: string, sign: string, rest: string)
    requires AllWhiteSpace(ws)
    requires sign == "" || sign == "+" || sign == "-"
    requires rest == [] || !IsDigit(rest[0], 10)
    requires sign == "" && rest != [] ==> !IsStrWhiteSpace(rest[0]) && rest[0] != '+' && rest[0] != '-'
    ensures WellFormed(Split(ws, sign, "", "", rest))
  {
    var sp := Split(ws, sign, "", "", rest);
    assert sp.Signed() == sign + rest;
    assert !StartsWithHexPrefix(rest) by {
      if |rest| >= 2 {
        assert IsDigit('0', 10);
      }
    }
  }

  /** `parseInt` of white space, a sign, a radix prefix and a digit run
      that the next character does not extend is the signed value of the run. */
  lemma ParseIntDigits(ws: string, sign: string, prefix: string, ds: string, rest: string)
    requires AllWhiteSpace(ws)
    requires sign == "" || sign == "+" || sign == "-"
    requires prefix == "" || prefix == "0x" || prefix == "0X"
    requires ds != [] && AllDigits(ds, if prefix == "" then 10 else 16)
    requires prefix == "" ==> !StartsWithHexPrefix(ds + rest)
    requires rest == [] || !IsDigit(rest[0], if prefix == "" then 10 else 16)
    ensures var v: int := Value(ds, if prefix == "" then 10 else 16);
      ParseInt(ws + (sign + (prefix + (ds + rest)))) == Some(if sign == "-" then -v else v)
  {
    DigitsSplitParses(ws, sign, prefix, ds, rest);
    DigitsSplitNumber(ws, sign, prefix, ds, rest);
  }

  lemma DigitsSplitParses(ws: string, sign: string, prefix: string, ds: string, rest: string)
    requires AllWhiteSpace(ws)
    requires sign == "" || sign == "+" || sign == "-"
    requires prefix == "" || prefix == "0x" || prefix == "0X"
    requires ds != [] && AllDigits(ds, if prefix == "" then 10 else 16)
    requires prefix == "" ==> !StartsWithHexPrefix(ds + rest)
    requires rest == [] || !IsDigit(rest[0], if prefix == "" then 10 else 16)
    ensures ParseInt(Split(ws, sign, prefix, ds, rest).Whole()) == Some(Split(ws, sign, prefix, ds, rest).Number())
  {
    DigitsWellFormed(ws, sign, prefix, ds, rest);
    ParseIntOfSplit(Split(ws, sign, prefix, ds, rest));
  }

  lemma DigitsSplitNumber(ws: string, sign: string, prefix: string, ds: string, rest: string)
    requires AllDigits(ds, if prefix == "" then 10 else 16)
    ensures var v: int := Value(ds, if prefix == "" then 10 else 16);
      Split(ws, sign, prefix, ds, rest).Number() == if sign == "-" then -v else v
  {
  }

  lemma DigitsWellFormed(ws: string, sign: string, prefix: string, ds: string, rest: string)
    requires AllWhiteSpace(ws)
    requires sign == "" || sign == "+" || sign == "-"
    requires prefix == "" || prefix == "0x" || prefix == "0X"
    requires ds != [] && AllDigits(ds, if prefix == "" then 10 else 16)
    requires prefix == "" ==> !StartsWithHexPrefix(ds + rest)
    requires rest == [] || !IsDigit(rest[0], if prefix == "" then 10 else 16)
    ensures WellFormed(Split(ws, sign, prefix, ds, rest))
  {
    var sp := Split(ws, sign, prefix, ds, rest);
    var u := prefix + (ds + rest);
    assert u[0] == if prefix == "" then ds[0] else '0';
    assert IsDigit(ds[0], sp.Radix());
    assert sp.Signed()[0] == if sign == "" then u[0] else sign[0];
  }

  /** With a `0x` or `0X` prefix the digits that follow are read in base 16. */
  lemma ParseIntHex(ws: string, negative: bool, x: char, n: nat, rest: string)
    requires AllWhiteSpace(ws)
    requires x == 'x' || x == 'X'
    requires rest == [] || !IsDigit(rest[0], 16)
    ensures ParseInt(ws + (if negative then "-" else "") + ['0', x] + ToDigits(n, 16) + rest)
         == Some(if negative then -(n as int) else n)
  {
    var sign := if negative then "-" else "";
    var ds := ToDigits(n, 16);
    var sp := Split(ws, sign, ['0', x], ds, rest);
    assert sp.Whole() == ws + sign + ['0', x] + ds + rest;
    assert WellFormed(sp) by {
      assert sp.Radix() == 16;
      var u := sp.prefix + (sp.digits + sp.rest);
      assert u[0] == '0';
      assert sp.Signed()[0] == if negative then '-' else '0';
    }
    ParseIntOfSplit(sp);
    assert sp.Number() == if negative then -(n as int) else n by {
      ValueOfDigits(n, 16);
    }
  }
}
