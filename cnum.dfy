/** The C library's decimal conversions the Fibonacci programs use:
    `strtol(s, &e, 10)`, which reports how far it read through the end
    pointer, and the `%ld` conversion of `printf`.  Both work in the C
    locale, where the white space is " \t\n\v\f\r" and the digits are
    "0".."9". */
module CNum {
  import opened Wrappers
  const LongMax: int := 0x7fff_ffff_ffff_ffff
  const LongMin: int := -0x8000_0000_0000_0000

  /** `isspace` in the C locale. */
  predicate IsSpace(c: char) {
    c == ' ' || c == '\t' || c == '\n' || c == 11 as char || c == 12 as char || c == '\r'
  }

  predicate IsDigit(c: char) { '0' <= c <= '9' }

  /** The number of leading white-space characters. */
  function SpaceRun(s: string): (r: nat)
    ensures r <= |s|
    ensures forall k :: 0 <= k < r ==> IsSpace(s[k])
    ensures r < |s| ==> !IsSpace(s[r])
  {
    if s != [] && IsSpace(s[0]) then 1 + SpaceRun(s[1..]) else 0
  }

  /** The number of leading digits. */
  function DigitRun(s: string): (r: nat)
    ensures r <= |s|
    ensures forall k :: 0 <= k < r ==> IsDigit(s[k])
    ensures r < |s| ==> !IsDigit(s[r])
  {
    if s != [] && IsDigit(s[0]) then 1 + DigitRun(s[1..]) else 0
  }

  /** The number a string of digits spells in base 10. */
  function Value(s: string): nat
    requires forall k :: 0 <= k < |s| ==> IsDigit(s[k])
  {
    if s == [] then 0
    else
      assert IsDigit(s[|s| - 1]);
      Value(s[..|s| - 1]) * 10 + (s[|s| - 1] as int - '0' as int)
  }

  /** strtol's result on overflow: LONG_MAX above the range, LONG_MIN
      below it. */
  function Clamp(v: int): (r: int)
    ensures LongMin <= r <= LongMax
    ensures LongMin <= v <= LongMax ==> r == v
    ensures v > LongMax ==> r == LongMax
    ensures v < LongMin ==> r == LongMin
  {
    if v > LongMax then LongMax else if v < LongMin then LongMin else v
  }

  /** What `strtol` returns and where its end pointer stops. */
  datatype Parsed = Parsed(value: int, end: nat)

  /** `strtol(s, &e, 10)`: white space, an optional sign, then digits.
      Without a digit the value is 0 and the end pointer is the start of
      `s`. */
  function StrToL(s: string): (r: Parsed)
    ensures r.end <= |s|
    ensures LongMin <= r.value <= LongMax
    ensures r.end == 0 ==> r.value == 0
    ensures r.end > 0 ==> IsDigit(s[r.end - 1]) && (r.end == |s| || !IsDigit(s[r.end]))
  {
    var w := SpaceRun(s);
    var t := s[w..];
    var signed := |t| > 0 && (t[0] == '-' || t[0] == '+');
    var u := if signed then t[1..] else t;
    var start := if signed then w + 1 else w;
    var d := DigitRun(u);
    if d == 0 then Parsed(0, 0)
    else
      assert s[start..] == u;
      var v: int := Value(u[..d]);
      Parsed(Clamp(if signed && t[0] == '-' then -v else v), start + d)
  }

  /** The check both programs make: the whole argument was read,
      `*e == '\0'`. */
  function ParseArg(s: string): (r: Option<int>)
    ensures r.Some? <==> StrToL(s).end == |s|
    ensures r.Some? ==> r.value == StrToL(s).value
  {
    var p := StrToL(s);
    if p.end == |s| then Some(p.value) else None
  }

  /** The digits of `n` in base 10, most significant first. */
  function Digits(n: nat): (r: string)
    ensures |r| >= 1
    ensures forall k :: 0 <= k < |r| ==> IsDigit(r[k])
  {
    var last := ('0' as int + n % 10) as char;
    if n < 10 then [last] else Digits(n / 10) + [last]
  }

  /** `printf("%ld", x)`. */
  function Decimal(x: int): (r: string)
    ensures |r| >= 1 && ' ' !in r && '\n' !in r && '\0' !in r
  {
    if x < 0 then "-" + Digits(-x) else Digits(x)
  }

  /** The digits of `n` spell `n`. */
  lemma {:induction false} ValueDigits(n: nat)
    ensures Value(Digits(n)) == n
  {
    var r := Digits(n);
    if n >= 10 {
      ValueDigits(n / 10);
      assert r[..|r| - 1] == Digits(n / 10);
    }
  }

  lemma {:induction false} DigitRunAll(s: string)
    requires forall k :: 0 <= k < |s| ==> IsDigit(s[k])
    ensures DigitRun(s) == |s|
  {
    if s != [] {
      DigitRunAll(s[1..]);
    }
  }

  /** strtol reads back exactly what `%ld` printed, for every value a
      `long` holds. */
  lemma ParseDecimal(x: int)
    requires LongMin <= x <= LongMax
    ensures StrToL(Decimal(x)) == Parsed(x, |Decimal(x)|)
    ensures ParseArg(Decimal(x)) == Some(x)
  {
    var s := Decimal(x);
    var ds := if x < 0 then Digits(-x) else Digits(x);
    assert SpaceRun(s) == 0;
    DigitRunAll(ds);
    ValueDigits(if x < 0 then -x else x);
    if x < 0 {
      assert s[0] == '-' && s[1..] == ds;
    } else {
      assert s == ds && !(s[0] == '-' || s[0] == '+');
    }
    assert ds[..|ds|] == ds;
  }

  /** An empty argument leaves the end pointer on the terminator, so it
      is read as 0; a lone sign or a trailing character is refused. */
  lemma ParseEdges()
    ensures ParseArg("") == Some(0)
    ensures ParseArg("-") == None && ParseArg("+") == None
    ensures ParseArg("7 ") == None && ParseArg(" 7") == Some(7)
  {
    assert DigitRun("-"[1..]) == 0;
    assert DigitRun("+"[1..]) == 0;
    assert SpaceRun("7 ") == 0 && DigitRun("7 ") == 1;
    assert SpaceRun(" 7") == 1 && " 7"[1..] == "7" && DigitRun("7") == 1;
    assert "7"[..1] == "7" && Value("7") == 7 by { assert "7"[..0] == ""; }
  }
}
