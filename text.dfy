/**
 * Python's string built-ins as the extractor uses them: `\d` and `\s`,
 * `str.strip`, `str.upper`, `str.replace`, `int()` on a digit string,
 * `float()` on a digit-and-dot string and the `02d` format.
 * Digits are the ASCII digits, and whitespace is six ASCII characters.
 */
module Text {
  import opened Results

  predicate IsDigit(c: char) { '0' <= c <= '9' }

  /** The six whitespace characters modelled: space, tab, line feed, carriage return, vertical tab, form feed. */
  predicate IsSpace(c: char) {
    c == ' ' || c == '\t' || c == '\n' || c == '\r' || c == '\U{B}' || c == '\U{C}'
  }

  predicate AllDigits(s: string) { forall k :: 0 <= k < |s| ==> IsDigit(s[k]) }

  function Pow10(n: nat): (r: nat)
    ensures r >= 1
  {
    if n == 0 then 1 else 10 * Pow10(n - 1)
  }

  function DigitValue(c: char): nat
    requires IsDigit(c)
  {
    c as int - '0' as int
  }

  function DigitChar(d: nat): (c: char)
    requires d < 10
    ensures IsDigit(c) && DigitValue(c) == d
  {
    ('0' as int + d) as char
  }

  /** `int(s)` for a string of decimal digits (leading zeros allowed). */
  function DigitsValue(s: string): (n: nat)
    requires AllDigits(s)
    ensures n < Pow10(|s|)
    decreases |s|
  {
    if s == [] then 0 else DigitsValue(s[..|s| - 1]) * 10 + DigitValue(s[|s| - 1])
  }

  /** Reading `a + b` is reading `a`, shifting by the length of `b`, and adding `b`. */
  lemma {:induction false} DigitsValueConcat(a: string, b: string)
    requires AllDigits(a) && AllDigits(b)
    ensures AllDigits(a + b)
    ensures DigitsValue(a + b) == DigitsValue(a) * Pow10(|b|) + DigitsValue(b)
    decreases |b|
  {
    if b == [] {
      assert a + b == a;
    } else {
      var b' := b[..|b| - 1];
      assert (a + b)[..|a + b| - 1] == a + b';
      assert (a + b)[|a + b| - 1] == b[|b| - 1];
      DigitsValueConcat(a, b');
      var va, vb, p, d := DigitsValue(a), DigitsValue(b'), Pow10(|b'|), DigitValue(b[|b| - 1]);
      assert DigitsValue(a + b) == DigitsValue(a + b') * 10 + d;
      assert Pow10(|b|) == 10 * p;
      assert DigitsValue(b) == vb * 10 + d;
      ShiftStep(va, vb, p, d);
    }
  }

  lemma ShiftStep(va: int, vb: int, p: int, d: int)
    ensures (va * p + vb) * 10 + d == va * (10 * p) + (vb * 10 + d)
  {
  }

  /** Leading zeros do not change the value `int()` reads. */
  lemma LeadingZerosIgnored(z: string, s: string)
    requires forall k :: 0 <= k < |z| ==> z[k] == '0'
    requires AllDigits(s)
    ensures AllDigits(z + s) && DigitsValue(z + s) == DigitsValue(s)
  {
    ZerosValue(z);
    DigitsValueConcat(z, s);
  }

  lemma {:induction false} ZerosValue(z: string)
    requires forall k :: 0 <= k < |z| ==> z[k] == '0'
    ensures AllDigits(z) && DigitsValue(z) == 0
    decreases |z|
  {
    if z != [] {
      ZerosValue(z[..|z| - 1]);
    }
  }

  /** The decimal numeral of `n` without leading zeros, as `str(n)` writes it. */
  function Decimal(n: nat): string
    decreases n
  {
    if n < 10 then [DigitChar(n)] else Decimal(n / 10) + [DigitChar(n % 10)]
  }

  /** `str(n)` is a nonempty digit string without a leading zero that `int()` reads back as `n`. */
  lemma {:induction false} DecimalSpec(n: nat)
    ensures 1 <= |Decimal(n)| && AllDigits(Decimal(n))
    ensures DigitsValue(Decimal(n)) == n
    ensures |Decimal(n)| > 1 ==> Decimal(n)[0] != '0'
    decreases n
  {
    if n >= 10 {
      DecimalSpec(n / 10);
      var s := Decimal(n);
      assert s == Decimal(n / 10) + [DigitChar(n % 10)];
      assert s[..|s| - 1] == Decimal(n / 10);
      assert DigitsValue(s) == DigitsValue(s[..|s| - 1]) * 10 + DigitValue(s[|s| - 1]);
    }
  }

  /** Left-pads `s` with `'0'` up to `width` characters, as the `0<width>d` format does. */
  function ZeroPad(s: string, width: nat): string {
    (if |s| < width then seq(width - |s|, _ => '0') else []) + s
  }

  /** Padding keeps `s` as the suffix and puts only zeros before it. */
  lemma ZeroPadSpec(s: string, width: nat)
    ensures var r := ZeroPad(s, width);
      && |r| == (if |s| < width then width else |s|)
      && r[|r| - |s|..] == s
      && forall k :: 0 <= k < |r| - |s| ==> r[k] == '0'
  {
    var zeros: string := if |s| < width then seq(width - |s|, _ => '0') else [];
    assert ZeroPad(s, width) == zeros + s;
    assert (zeros + s)[|zeros|..] == s;
  }

  /** `f"{n:0<width>d}"`: the numeral of `n`, zero-padded to `width`. */
  function FormatPadded(n: nat, width: nat): string {
    ZeroPad(Decimal(n), width)
  }

  /** The padded numeral is `width` long unless `str(n)` is longer, and it still reads back as `n`. */
  lemma FormatPaddedSpec(n: nat, width: nat)
    ensures |FormatPadded(n, width)| == if |Decimal(n)| < width then width else |Decimal(n)|
    ensures AllDigits(FormatPadded(n, width)) && DigitsValue(FormatPadded(n, width)) == n
  {
    DecimalSpec(n);
    ZeroPadSpec(Decimal(n), width);
    var r := FormatPadded(n, width);
    var z := r[..|r| - |Decimal(n)|];
    assert r == z + Decimal(n);
    LeadingZerosIgnored(z, Decimal(n));
  }

  /** `str.strip()` removes leading whitespace ... */
  function StripLeft(s: string): (r: string)
    ensures |r| <= |s| && r == s[|s| - |r|..]
    ensures forall k :: 0 <= k < |s| - |r| ==> IsSpace(s[k])
    ensures r == [] || !IsSpace(r[0])
  {
    if s != [] && IsSpace(s[0]) then StripLeft(s[1..]) else s
  }

  /** ... and trailing whitespace. */
  function StripRight(s: string): (r: string)
    ensures |r| <= |s| && r == s[..|r|]
    ensures forall k :: |r| <= k < |s| ==> IsSpace(s[k])
    ensures r == [] || !IsSpace(r[|r| - 1])
  {
    if s != [] && IsSpace(s[|s| - 1]) then StripRight(s[..|s| - 1]) else s
  }

  function Strip(s: string): string {
    StripRight(StripLeft(s))
  }

  /** A character that is not whitespace survives `strip()`. */
  lemma StripKeeps(s: string, k: nat)
    requires k < |s| && !IsSpace(s[k])
    ensures s[k] in Strip(s)
  {
    var l := StripLeft(s);
    var d := |s| - |l|;
    assert k >= d;
    assert l[k - d] == s[k];
    var r := StripRight(l);
    assert k - d < |r|;
    assert r[k - d] == s[k];
  }

  /**
   * `str.upper()` on one character: ASCII and Latin-1 letters, plus the
   * three characters of Latin Extended-A and Latin-1 that upper-case to
   * ASCII (`ı` to `I`, `ſ` to `S`, `ß` to `SS`).
   */
  function UpperChar(c: char): (u: string)
    ensures IsDigit(c) ==> u == [c]
  {
    if 'a' <= c <= 'z' then [(c as int - 32) as char]
    else if '\U{E0}' <= c <= '\U{FE}' && c != '\U{F7}' then [(c as int - 32) as char]
    else if c == '\U{FF}' then ['\U{178}']
    else if c == '\U{B5}' then ['\U{39C}']
    else if c == '\U{DF}' then "SS"
    else if c == '\U{131}' then "I"
    else if c == '\U{17F}' then "S"
    else [c]
  }

  function Upper(s: string): string
    decreases |s|
  {
    if s == [] then [] else UpperChar(s[0]) + Upper(s[1..])
  }

  /** A digit survives `upper()`. */
  lemma {:induction false} UpperKeepsDigits(s: string, c: char)
    requires c in s && IsDigit(c)
    ensures c in Upper(s)
    decreases |s|
  {
    if s[0] == c {
      assert Upper(s)[0] == c;
    } else {
      UpperKeepsDigits(s[1..], c);
      assert Upper(s) == UpperChar(s[0]) + Upper(s[1..]);
    }
  }

  /** `s.replace(from, to)` for single characters, position by position. */
  function Replace(s: string, from: char, to: char): (r: string)
    ensures |r| == |s|
    ensures forall k :: 0 <= k < |s| ==> r[k] == if s[k] == from then to else s[k]
    decreases |s|
  {
    if s == [] then [] else [if s[0] == from then to else s[0]] + Replace(s[1..], from, to)
  }

  /** Replacing again changes nothing. */
  lemma ReplaceIdempotent(s: string, from: char, to: char)
    ensures Replace(Replace(s, from, to), from, to) == Replace(s, from, to)
  {
  }

  function CountOf(s: string, c: char): (n: nat)
    ensures n <= |s|
    ensures n == 0 <==> c !in s
    decreases |s|
  {
    if s == [] then 0 else (if s[0] == c then 1 else 0) + CountOf(s[1..], c)
  }

  /** The position of the first `c` in `s`, or `|s|` when there is none. */
  function IndexOf(s: string, c: char): (i: nat)
    ensures i <= |s|
    ensures i < |s| ==> s[i] == c
    ensures c !in s[..i]
    decreases |s|
  {
    if s == [] then 0
    else if s[0] == c then 0
    else
      var i := 1 + IndexOf(s[1..], c);
      assert s[..i] == [s[0]] + s[1..][..i - 1];
      i
  }

  predicate DigitsAndDots(t: string) {
    forall k :: 0 <= k < |t| ==> IsDigit(t[k]) || t[k] == '.'
  }

  /**
   * `float(t)` for a string made of digits and dots (the only strings it
   * receives here): `None` stands for the `ValueError` Python raises.
   */
  function ParseDecimal(t: string): Option<real>
    requires DigitsAndDots(t)
  {
    var d := IndexOf(t, '.');
    if d == |t| then
      if t == [] then None else Some(DigitsValue(t) as real)
    else
      var whole, frac := t[..d], t[d + 1..];
      if '.' in frac || (whole == [] && frac == []) then None
      else Some(DigitsValue(whole) as real + DigitsValue(frac) as real / Pow10(|frac|) as real)
  }

  /** A well-formed decimal numeral: at most one dot and at least one digit. */
  predicate IsDecimal(t: string) {
    CountOf(t, '.') <= 1 && exists k :: 0 <= k < |t| && IsDigit(t[k])
  }

  /** `t` with its dot (if any) removed. */
  function DropDot(t: string): string {
    var d := IndexOf(t, '.');
    if d == |t| then t else t[..d] + t[d + 1..]
  }

  /** How many digits follow the dot. */
  function FractionDigits(t: string): nat {
    var d := IndexOf(t, '.');
    if d == |t| then 0 else |t| - d - 1
  }

  /**
   * `float()` accepts exactly the well-formed decimals, and reads one as the
   * integer its digits spell, divided by ten to the number of digits after the dot.
   */
  lemma ParseDecimalSpec(t: string)
    requires DigitsAndDots(t)
    ensures ParseDecimal(t).Some? <==> IsDecimal(t)
    ensures ParseDecimal(t).Some? ==>
      AllDigits(DropDot(t)) &&
      ParseDecimal(t).value == DigitsValue(DropDot(t)) as real / Pow10(FractionDigits(t)) as real
  {
    ParseDecimalAccepts(t);
    if ParseDecimal(t).Some? {
      ParseDecimalValue(t);
    }
  }

  lemma ParseDecimalAccepts(t: string)
    requires DigitsAndDots(t)
    ensures ParseDecimal(t).Some? <==> IsDecimal(t)
  {
    var d := IndexOf(t, '.');
    if d == |t| {
      assert t[..d] == t;
    } else {
      var whole, frac := t[..d], t[d + 1..];
      assert t == whole + ['.'] + frac;
      CountSplit(whole, frac);
      if '.' !in frac && !(whole == [] && frac == []) {
        assert IsDigit(t[if whole != [] then 0 else d + 1]);
      } else if whole == [] && frac == [] {
        assert t == ".";
      }
    }
  }

  lemma ParseDecimalValue(t: string)
    requires DigitsAndDots(t) && ParseDecimal(t).Some?
    ensures AllDigits(DropDot(t))
    ensures ParseDecimal(t).value == DigitsValue(DropDot(t)) as real / Pow10(FractionDigits(t)) as real
  {
    var d := IndexOf(t, '.');
    if d == |t| {
      assert t[..d] == t;
      assert Pow10(FractionDigits(t)) == 1;
    } else {
      var whole, frac := t[..d], t[d + 1..];
      assert DropDot(t) == whole + frac;
      DottedValue(whole, frac);
      SameRatio(DigitsValue(whole + frac) as real, Pow10(|frac|) as real,
        DigitsValue(DropDot(t)) as real, Pow10(FractionDigits(t)) as real);
    }
  }

  lemma SameRatio(a: real, b: real, c: real, e: real)
    requires a == c && b == e && b != 0.0
    ensures a / b == c / e
  {
  }

  lemma DottedValue(whole: string, frac: string)
    requires AllDigits(whole) && AllDigits(frac)
    ensures AllDigits(whole + frac)
    ensures DigitsValue(whole + frac) as real / Pow10(|frac|) as real
         == DigitsValue(whole) as real + DigitsValue(frac) as real / Pow10(|frac|) as real
  {
    DigitsValueConcat(whole, frac);
    RealShift(DigitsValue(whole), DigitsValue(frac), Pow10(|frac|));
  }

  lemma RealShift(w: nat, f: nat, p: nat)
    requires p >= 1
    ensures (w * p + f) as real / p as real == w as real + f as real / p as real
  {
    assert (w * p + f) as real == w as real * p as real + f as real;
  }

  lemma CountSplit(whole: string, frac: string)
    requires '.' !in whole
    ensures CountOf(whole + ['.'] + frac, '.') == 1 + CountOf(frac, '.')
  {
    assert whole + ['.'] + frac == whole + (['.'] + frac);
    CountConcat(whole, ['.'] + frac, '.');
    assert (['.'] + frac)[1..] == frac;
  }

  lemma {:induction false} CountConcat(a: string, b: string, c: char)
    ensures CountOf(a + b, c) == CountOf(a, c) + CountOf(b, c)
    decreases |a|
  {
    if a == [] {
      assert a + b == b;
    } else {
      assert (a + b)[1..] == a[1..] + b;
      CountConcat(a[1..], b, c);
    }
  }

  /** The first `c` of `a + [c] + b` is the one right after `a` when `a` holds none. */
  lemma {:induction false} IndexOfJoin(a: string, c: char, b: string)
    requires c !in a
    ensures IndexOf(a + [c] + b, c) == |a|
    decreases |a|
  {
    if a != [] {
      assert (a + [c] + b)[1..] == a[1..] + [c] + b;
      IndexOfJoin(a[1..], c, b);
    }
  }

  /** `float("w.f")` for digit strings `w` (not empty) and `f`: `w` plus `f` tenths, hundredths, ... */
  lemma ParseDotted(whole: string, frac: string)
    requires AllDigits(whole) && AllDigits(frac) && whole != []
    ensures DigitsAndDots(whole + "." + frac)
    ensures ParseDecimal(whole + "." + frac).Some?
    ensures ParseDecimal(whole + "." + frac).value
         == DigitsValue(whole) as real + DigitsValue(frac) as real / Pow10(|frac|) as real
  {
    DottedIsDecimal(whole, frac);
    DottedReads(whole, frac, whole + "." + frac);
  }

  lemma NoDot(s: string)
    requires AllDigits(s)
    ensures '.' !in s
  {
    assert forall k :: 0 <= k < |s| ==> s[k] != '.' by {
      forall k | 0 <= k < |s| ensures s[k] != '.' { assert IsDigit(s[k]); }
    }
  }

  lemma DottedIsDecimal(whole: string, frac: string)
    requires AllDigits(whole) && AllDigits(frac) && whole != []
    ensures DigitsAndDots(whole + "." + frac)
    ensures ParseDecimal(whole + "." + frac).Some?
  {
    var t := whole + "." + frac;
    NoDot(whole);
    NoDot(frac);
    IndexOfJoin(whole, '.', frac);
    assert t[..|whole|] == whole && t[|whole| + 1..] == frac;
  }

  lemma DottedReads(whole: string, frac: string, t: string)
    requires AllDigits(whole) && AllDigits(frac) && t == whole + "." + frac && DigitsAndDots(t)
    ensures ParseDecimal(t).Some? ==>
      ParseDecimal(t).value == DigitsValue(whole) as real + DigitsValue(frac) as real / Pow10(|frac|) as real
  {
    NoDot(whole);
    IndexOfJoin(whole, '.', frac);
    assert t[..|whole|] == whole && t[|whole| + 1..] == frac;
  }


}
