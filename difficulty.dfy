/**
 * `parse_value`, the helper of the `best` command that turns the miner's
 * magnitude text ("568M", "12.3K", "950") into a number: surrounding
 * whitespace is stripped, a trailing `M` multiplies by a million, a trailing
 * `K` by a thousand, and whatever `float()` rejects gives None. Numbers are
 * exact reals here; Python's doubles round.
 */
module Difficulty {
  import opened Options
  import opened Text

  predicate IsDigit(c: char) {
    '0' <= c <= '9'
  }

  predicate AllDigits(s: string) {
    forall i :: 0 <= i < |s| ==> IsDigit(s[i])
  }

  function DigitValue(c: char): nat
    requires IsDigit(c)
  {
    c as int - '0' as int
  }

  /** The value of the digits before the decimal point. */
  function WholeValue(s: string): nat
    requires AllDigits(s)
  {
    if s == [] then 0 else 10 * WholeValue(s[..|s| - 1]) + DigitValue(s[|s| - 1])
  }

  /** The value of the digits after the decimal point, always below one. */
  function FractionValue(s: string): (r: real)
    requires AllDigits(s)
    ensures 0.0 <= r < 1.0
  {
    if s == [] then 0.0 else (DigitValue(s[0]) as real + FractionValue(s[1..])) / 10.0
  }

  /** The position of the first decimal point, or |s| when there is none. */
  function DotIndex(s: string): (i: nat)
    ensures i <= |s|
    ensures i < |s| ==> s[i] == '.'
  {
    if s == [] || s[0] == '.' then 0 else 1 + DotIndex(s[1..])
  }

  /** No decimal point comes before DotIndex(s). */
  lemma {:induction false} DotIndexFirst(s: string, k: nat)
    requires k < DotIndex(s)
    ensures s[k] != '.'
  {
    if k > 0 {
      DotIndexFirst(s[1..], k - 1);
    }
  }

  /** An unsigned decimal: digits around at most one point, at least one digit. */
  function ParseUnsigned(s: string): Option<real> {
    var i := DotIndex(s);
    var whole := s[..i];
    var fraction := if i < |s| then s[i + 1..] else [];
    if AllDigits(whole) && AllDigits(fraction) && |whole| + |fraction| > 0 then
      Some(WholeValue(whole) as real + FractionValue(fraction))
    else
      None
  }

  /** Python's `float(text)` on decimal literals; it skips surrounding
      whitespace itself, with its own narrower set (`NumberStrip`). */
  function ParseFloat(text: string): Option<real> {
    ParseSigned(NumberStrip(text))
  }

  /** What `float` reads once the whitespace is skipped: an optional sign,
      then an unsigned decimal. */
  function ParseSigned(t: string): Option<real> {
    var (sign, rest) := SplitSign(t);
    match ParseUnsigned(rest)
    case Some(v) => Some(Signed(sign, v))
    case None => None
  }

  /** The sign in front of the digits, if there is one, and what follows it. */
  function SplitSign(t: string): (Sign, string) {
    if |t| > 0 && t[0] == '+' then (Plus, t[1..])
    else if |t| > 0 && t[0] == '-' then (Minus, t[1..])
    else (NoSign, t)
  }

  /** `parse_value(raw)`. */
  function ParseValue(raw: string): Option<real> {
    var t := Strip(raw);
    if |t| > 0 && t[|t| - 1] == 'M' then Scaled(ParseFloat(t[..|t| - 1]), 1000000.0)
    else if |t| > 0 && t[|t| - 1] == 'K' then Scaled(ParseFloat(t[..|t| - 1]), 1000.0)
    else Scaled(ParseFloat(t), 1.0)
  }

  function Scaled(v: Option<real>, multiplier: real): Option<real> {
    match v
    case Some(x) => Some(x * multiplier)
    case None => None
  }

  // ---------------------------------------------------------------------
  // The accepted language, stated as a set of strings

  /** Digits and points only, at most one point, at least one digit. */
  predicate IsUnsignedLiteral(s: string) {
    && (forall i :: 0 <= i < |s| ==> IsDigit(s[i]) || s[i] == '.')
    && multiset(s)['.'] <= 1
    && exists i :: 0 <= i < |s| && IsDigit(s[i])
  }

  /** An unsigned literal, optionally preceded by one sign. */
  predicate IsFloatLiteral(t: string) {
    IsUnsignedLiteral(t) || (|t| > 0 && (t[0] == '+' || t[0] == '-') && IsUnsignedLiteral(t[1..]))
  }

  /** Text `parse_value` accepts: after stripping, a float literal, or a
      float literal (possibly followed by whitespace `float()` skips) and
      then `M` or `K`. */
  predicate IsMagnitude(raw: string) {
    var t := Strip(raw);
    || IsFloatLiteral(t)
    || (|t| > 0 && (t[|t| - 1] == 'M' || t[|t| - 1] == 'K') && IsFloatLiteral(NumberStrip(t[..|t| - 1])))
  }

  /** How `s` splits around its first decimal point. */
  lemma SplitAtDot(s: string)
    ensures var i := DotIndex(s);
      var fraction := if i < |s| then s[i + 1..] else [];
      && s == s[..i] + (if i < |s| then ['.'] else []) + fraction
      && multiset(s)['.'] == (if i < |s| then 1 else 0) + multiset(fraction)['.']
  {
    var i := DotIndex(s);
    var whole := s[..i];
    var fraction := if i < |s| then s[i + 1..] else [];
    if i < |s| {
      assert s == whole + [s[i]] + fraction;
    } else {
      assert s == whole;
    }
    assert '.' !in multiset(whole) by {
      if '.' in whole {
        var k :| 0 <= k < |whole| && whole[k] == '.';
        DotIndexFirst(s, k);
      }
    }
  }

  /** A digit string holds no decimal point. */
  lemma NoDotInDigits(w: string)
    requires AllDigits(w)
    ensures multiset(w)['.'] == 0
  {
  }

  /** The condition under which ParseUnsigned succeeds, spelled out. */
  predicate AcceptedParts(s: string) {
    var i := DotIndex(s);
    var fraction := if i < |s| then s[i + 1..] else [];
    AllDigits(s[..i]) && AllDigits(fraction) && i + |fraction| > 0
  }

  lemma ParseUnsignedAccepts(s: string)
    ensures ParseUnsigned(s).Some? <==> AcceptedParts(s)
  {
  }

  lemma AcceptedCharacters(s: string)
    requires AcceptedParts(s)
    ensures forall k :: 0 <= k < |s| ==> IsDigit(s[k]) || s[k] == '.'
  {
    var i := DotIndex(s);
    var whole := s[..i];
    var fraction := if i < |s| then s[i + 1..] else [];
    forall k | 0 <= k < |s| ensures IsDigit(s[k]) || s[k] == '.' {
      if k < i { assert s[k] == whole[k]; } else if k > i { assert s[k] == fraction[k - i - 1]; }
    }
  }

  lemma AcceptedOnePoint(s: string)
    requires AcceptedParts(s)
    ensures multiset(s)['.'] <= 1
  {
    var i := DotIndex(s);
    SplitAtDot(s);
    NoDotInDigits(if i < |s| then s[i + 1..] else []);
  }

  lemma AcceptedDigit(s: string)
    requires AcceptedParts(s)
    ensures exists k :: 0 <= k < |s| && IsDigit(s[k])
  {
    var i := DotIndex(s);
    if i > 0 {
      assert IsDigit(s[..i][0]);
    } else {
      assert IsDigit(s[i + 1..][0]);
    }
  }

  /** What ParseUnsigned accepts is an unsigned literal. */
  lemma ParseUnsignedSound(s: string)
    requires ParseUnsigned(s).Some?
    ensures IsUnsignedLiteral(s)
  {
    ParseUnsignedAccepts(s);
    AcceptedCharacters(s);
    AcceptedOnePoint(s);
    AcceptedDigit(s);
  }

  /** In an unsigned literal, everything before the first point is a digit. */
  lemma LiteralWholeDigits(s: string)
    requires IsUnsignedLiteral(s)
    ensures AllDigits(s[..DotIndex(s)])
  {
    var whole := s[..DotIndex(s)];
    forall k | 0 <= k < |whole| ensures IsDigit(whole[k]) {
      DotIndexFirst(s, k);
      assert whole[k] == s[k];
    }
  }

  /** In an unsigned literal, everything after the first point is a digit. */
  lemma LiteralFractionDigits(s: string)
    requires IsUnsignedLiteral(s) && DotIndex(s) < |s|
    ensures AllDigits(s[DotIndex(s) + 1..])
  {
    var i := DotIndex(s);
    var fraction := s[i + 1..];
    SplitAtDot(s);
    forall k | 0 <= k < |fraction| ensures IsDigit(fraction[k]) {
      assert fraction[k] == s[i + 1 + k];
      assert fraction[k] in multiset(fraction);
    }
  }

  /** An unsigned literal has a digit before or after its first point. */
  lemma LiteralHasDigit(s: string)
    requires IsUnsignedLiteral(s)
    ensures DotIndex(s) > 0 || DotIndex(s) + 1 < |s|
  {
    var i := DotIndex(s);
    var d :| 0 <= d < |s| && IsDigit(s[d]);
    assert d != i || i == |s|;
  }

  /** Every unsigned literal is accepted by ParseUnsigned. */
  lemma ParseUnsignedComplete(s: string)
    requires IsUnsignedLiteral(s)
    ensures ParseUnsigned(s).Some?
  {
    LiteralWholeDigits(s);
    if DotIndex(s) < |s| {
      LiteralFractionDigits(s);
    }
    LiteralHasDigit(s);
  }

  lemma ParseUnsignedDefined(s: string)
    ensures ParseUnsigned(s).Some? <==> IsUnsignedLiteral(s)
  {
    if ParseUnsigned(s).Some? { ParseUnsignedSound(s); }
    if IsUnsignedLiteral(s) { ParseUnsignedComplete(s); }
  }

  lemma ParseFloatDefined(text: string)
    ensures ParseFloat(text).Some? <==> IsFloatLiteral(NumberStrip(text))
  {
    var t := NumberStrip(text);
    ParseUnsignedDefined(t);
    if |t| > 0 {
      ParseUnsignedDefined(t[1..]);
      if t[0] == '+' || t[0] == '-' {
        assert !IsUnsignedLiteral(t) by { assert t[0] !in "0123456789."; }
      }
    }
  }

  /** parse_value returns a number exactly on the text it accepts, and None
      (never a zero standing in for a failure) on everything else. */
  lemma ParseValueDefined(raw: string)
    ensures ParseValue(raw).Some? <==> IsMagnitude(raw)
  {
    var t := Strip(raw);
    NumberStripOfStrip(raw);
    ParseFloatDefined(t);
    if |t| > 0 {
      ParseFloatDefined(t[..|t| - 1]);
      if t[|t| - 1] == 'M' || t[|t| - 1] == 'K' {
        assert !IsUnsignedLiteral(t) by { assert !IsDigit(t[|t| - 1]) && t[|t| - 1] != '.'; }
        assert |t| > 1 ==> !IsUnsignedLiteral(t[1..]) by {
          if |t| > 1 { assert t[1..][|t| - 2] == t[|t| - 1]; }
        }
      }
    }
  }

  // ---------------------------------------------------------------------
  // Values

  /** A digit string never contains a decimal point. */
  lemma {:induction false} DotIndexOfDigits(w: string, rest: string)
    requires AllDigits(w)
    requires rest == [] || rest[0] == '.'
    ensures DotIndex(w + rest) == |w|
  {
    if w != [] {
      assert (w + rest)[1..] == w[1..] + rest;
      DotIndexOfDigits(w[1..], rest);
    } else {
      assert w + rest == rest;
    }
  }

  /** The multiplier a magnitude suffix stands for. */
  function SuffixScale(suffix: string): real {
    if suffix == "M" then 1000000.0 else if suffix == "K" then 1000.0 else 1.0
  }

  /** A body that starts with a digit and ends in a digit or a point. */
  predicate IsPlainBody(body: string) {
    && |body| > 0 && IsDigit(body[0])
    && (IsDigit(body[|body| - 1]) || body[|body| - 1] == '.')
  }

  /** Such a body has no whitespace around it. */
  lemma StripPlain(body: string)
    requires IsPlainBody(body)
    ensures Strip(body) == body
    ensures NumberStrip(body) == body
  {
    StripTight(body);
    NumberStripTight(body);
  }

  lemma ParseFloatPlain(body: string)
    requires IsPlainBody(body) && NumberStrip(body) == body
    ensures ParseFloat(body) == ParseUnsigned(body)
  {
  }

  /** Such a body has no sign and no whitespace: float reads it unsigned. */
  lemma ParseFloatOfBody(body: string)
    requires IsPlainBody(body)
    ensures ParseFloat(body) == ParseUnsigned(body)
  {
    StripPlain(body);
    ParseFloatPlain(body);
  }

  lemma ScaledByOne(v: Option<real>)
    ensures Scaled(v, 1.0) == v
  {
  }

  lemma ParseValueUnsuffixed(body: string)
    requires IsPlainBody(body) && Strip(body) == body
    ensures ParseValue(body) == Scaled(ParseFloat(body), 1.0)
  {
  }

  lemma ParseValueBare(body: string)
    requires IsPlainBody(body)
    ensures ParseValue(body) == ParseUnsigned(body)
  {
    StripPlain(body);
    ParseValueUnsuffixed(body);
    ParseFloatPlain(body);
    ScaledByOne(ParseUnsigned(body));
  }

  lemma ParseValueWithSuffix(s: string, body: string, suffix: string)
    requires Strip(s) == s && s == body + suffix
    requires suffix == "K" || suffix == "M"
    ensures ParseValue(s) == Scaled(ParseFloat(body), SuffixScale(suffix))
  {
    assert s[..|s| - 1] == body;
  }

  lemma StripSuffixed(body: string, suffix: string)
    requires IsPlainBody(body)
    requires suffix == "K" || suffix == "M"
    ensures Strip(body + suffix) == body + suffix
  {
    var s := body + suffix;
    assert s[0] == body[0] && s[|s| - 1] == suffix[0];
    StripTight(s);
  }

  lemma ParseValueSuffixed(body: string, suffix: string)
    requires IsPlainBody(body)
    requires suffix == "K" || suffix == "M"
    ensures ParseValue(body + suffix) == Scaled(ParseUnsigned(body), SuffixScale(suffix))
  {
    StripSuffixed(body, suffix);
    ParseValueWithSuffix(body + suffix, body, suffix);
    ParseFloatOfBody(body);
  }

  /** parse_value on a stripped body that starts with a digit, with no suffix,
      a `K` or an `M` after it, is the body's unsigned parse, scaled. */
  lemma ParseValueOfBody(body: string, suffix: string)
    requires IsPlainBody(body)
    requires suffix == "" || suffix == "K" || suffix == "M"
    ensures ParseValue(body + suffix) == Scaled(ParseUnsigned(body), SuffixScale(suffix))
  {
    if suffix == "" {
      assert body + suffix == body;
      ParseValueBare(body);
      ScaledByOne(ParseUnsigned(body));
    } else {
      ParseValueSuffixed(body, suffix);
    }
  }

  /** The unsigned parse of a whole number. */
  lemma ParseUnsignedWhole(w: string)
    requires AllDigits(w) && |w| > 0
    ensures ParseUnsigned(w) == Some(WholeValue(w) as real)
  {
    DotIndexOfWhole(w);
    assert w[..|w|] == w;
    assert FractionValue([]) == 0.0;
  }

  /** A whole number has no decimal point. */
  lemma DotIndexOfWhole(w: string)
    requires AllDigits(w)
    ensures DotIndex(w) == |w|
  {
    assert w + [] == w;
    DotIndexOfDigits(w, []);
  }

  /** The unsigned parse of a string whose first point is at `i`. */
  lemma ParseUnsignedAt(s: string, i: nat)
    requires i < |s| && s[i] == '.'
    requires AllDigits(s[..i]) && AllDigits(s[i + 1..]) && |s| > 1
    ensures ParseUnsigned(s) == Some(WholeValue(s[..i]) as real + FractionValue(s[i + 1..]))
  {
    assert s == s[..i] + s[i..];
    DotIndexOfDigits(s[..i], s[i..]);
  }

  /** The unsigned parse of a text made of digits `w`, a point and digits `f`. */
  lemma ParseUnsignedParts(w: string, f: string, body: string)
    requires AllDigits(w) && AllDigits(f) && |w| + |f| > 0
    requires |body| == |w| + 1 + |f| && body[..|w|] == w && body[|w|] == '.' && body[|w| + 1..] == f
    ensures ParseUnsigned(body) == Some(WholeValue(w) as real + FractionValue(f))
  {
    assert body == w + body[|w|..];
    DotIndexOfDigits(w, body[|w|..]);
    ParseUnsignedAt(body, |w|);
  }

  /** The unsigned parse of a number with a decimal point. */
  lemma ParseUnsignedFraction(w: string, f: string)
    requires AllDigits(w) && |w| > 0 && AllDigits(f)
    ensures ParseUnsigned(w + "." + f) == Some(WholeValue(w) as real + FractionValue(f))
  {
    var body := w + "." + f;
    assert body[..|w|] == w && body[|w| + 1..] == f;
    ParseUnsignedParts(w, f, body);
  }

  /** The unsigned parse of digits `w`, a point and digits `f`, or of the
      digits `w` alone; either side of the point may be empty, not both. */
  lemma ParseUnsignedLiteral(w: string, f: string, u: string)
    requires AllDigits(w) && AllDigits(f) && |w| + |f| > 0
    requires u == w + "." + f || (f == [] && u == w)
    ensures ParseUnsigned(u) == Some(WholeValue(w) as real + FractionValue(f))
  {
    if u == w + "." + f {
      assert u[..|w|] == w && u[|w|] == '.' && u[|w| + 1..] == f;
      ParseUnsignedParts(w, f, u);
    } else {
      ParseUnsignedWhole(w);
    }
  }

  /** The optional sign in front of a literal. */
  datatype Sign = NoSign | Plus | Minus

  function SignText(sign: Sign): string {
    match sign
    case NoSign => ""
    case Plus => "+"
    case Minus => "-"
  }

  /** A magnitude with a leading sign applied. */
  function Signed(sign: Sign, v: real): real {
    if sign == Minus then -v else v
  }

  /** An unsigned literal starts with a digit or a point. */
  lemma LiteralStart(w: string, f: string, u: string)
    requires AllDigits(w) && |w| + |f| > 0
    requires u == w + "." + f || (f == [] && u == w)
    ensures |u| > 0 && (IsDigit(u[0]) || u[0] == '.')
  {
    if |w| > 0 { assert u[0] == w[0]; }
  }

  /** `u` is the digits `w`, then a point and the digits `f` or, when `f` is
      empty, possibly no point; at least one digit in all. */
  predicate IsLiteralOf(u: string, w: string, f: string) {
    && AllDigits(w) && AllDigits(f) && |w| + |f| > 0
    && (u == w + "." + f || (f == [] && u == w))
  }

  /** An optional sign followed by an unsigned literal `u`. */
  lemma ParseSignedOf(sign: Sign, u: string, v: real)
    requires |u| > 0 && (IsDigit(u[0]) || u[0] == '.')
    requires ParseUnsigned(u) == Some(v)
    ensures ParseSigned(SignText(sign) + u) == Some(Signed(sign, v))
  {
    var t := SignText(sign) + u;
    if sign == NoSign {
      assert t == u;
    } else {
      assert t[0] == SignText(sign)[0] && t[1..] == u;
    }
    assert SplitSign(t) == (sign, u);
  }

  /** The value `float` gives a literal: an optional sign, then digits
      around an optional point, after the whitespace it skips. */
  lemma ParseFloatValue(text: string, sign: Sign, w: string, f: string, u: string)
    requires IsLiteralOf(u, w, f)
    requires NumberStrip(text) == SignText(sign) + u
    ensures ParseFloat(text) == Some(Signed(sign, WholeValue(w) as real + FractionValue(f)))
  {
    LiteralStart(w, f, u);
    ParseUnsignedLiteral(w, f, u);
    ParseSignedOf(sign, u, WholeValue(w) as real + FractionValue(f));
  }

  lemma DigitsOfFive()
    ensures AllDigits("5") && WholeValue("5") == 5 && FractionValue("5") == 0.5
  {
    assert "5"[..0] == [] && "5"[1..] == [];
  }

  /** "-5" reads as -5. */
  lemma ParseFloatNegativeExample()
    ensures ParseFloat("-5") == Some(-5.0)
  {
    DigitsOfFive();
    NumberStripTight("-5");
    assert "-5" == "-" + "5";
    ParseFloatValue("-5", Minus, "5", "", "5");
  }

  /** " +.5" reads as 0.5: the space is skipped, the sign and the empty whole
      part are allowed. */
  lemma ParseFloatPointExample()
    ensures ParseFloat(" +.5") == Some(0.5)
  {
    DigitsOfFive();
    NumberStripUnique(" +.5", 1, 4);
    assert " +.5"[1..4] == "+" + ("" + "." + "5");
    ParseFloatValue(" +.5", Plus, "", "5", ".5");
  }

  /** A separator character 0x1c .. 0x1f is removed by `str.strip()` but not
      skipped by `float()`: before a suffix it makes the text unreadable. */
  lemma ParseRejectsSeparatorBeforeSuffix()
    ensures ParseValue("5\U{1c}M") == None
    ensures ParseValue("5M") == Some(5000000.0)
  {
    var raw := "5\U{1c}M";
    StripTight(raw);
    var body := raw[..2];
    assert body == "5\U{1c}";
    NumberStripTight(body);
    assert DotIndex(body) == 2;
    assert !AllDigits(body[..2]);
    ParseWholeLiteral("5", "M");
    assert WholeValue("5") == 5 by { assert "5"[..0] == []; }
    assert "5" + "M" == "5M";
  }

  /** parse_value of a whole number `w`, bare or followed by `K` or `M`. */
  lemma ParseWholeLiteral(w: string, suffix: string)
    requires AllDigits(w) && |w| > 0
    requires suffix == "" || suffix == "K" || suffix == "M"
    ensures ParseValue(w + suffix) == Scaled(Some(WholeValue(w) as real), SuffixScale(suffix))
  {
    ParseValueOfBody(w, suffix);
    ParseUnsignedWhole(w);
  }

  /** parse_value of `w`, a point and `f` for digit strings `w` (not empty)
      and `f`, bare or followed by `K` or `M`. */
  lemma ParseFractionLiteral(w: string, f: string, suffix: string)
    requires AllDigits(w) && |w| > 0 && AllDigits(f)
    requires suffix == "" || suffix == "K" || suffix == "M"
    ensures ParseValue(w + "." + f + suffix)
         == Scaled(Some(WholeValue(w) as real + FractionValue(f)), SuffixScale(suffix))
  {
    var body := w + "." + f;
    assert body[0] == w[0];
    assert body[|body| - 1] == if f == [] then '.' else f[|f| - 1];
    ParseValueOfBody(body, suffix);
    ParseUnsignedFraction(w, f);
  }

  /** The decimal digits of a number, most significant first. */
  function Digits(n: nat): (r: string)
    ensures |r| > 0 && AllDigits(r)
  {
    if n < 10 then ['0' + n as char] else Digits(n / 10) + ['0' + (n % 10) as char]
  }

  lemma {:induction false} WholeValueDigits(n: nat)
    ensures WholeValue(Digits(n)) == n
  {
    if n >= 10 {
      var d := Digits(n);
      assert d[..|d| - 1] == Digits(n / 10);
      WholeValueDigits(n / 10);
    }
  }

  /** Writing a count with a magnitude suffix and parsing it back gives the
      count scaled by the suffix: "568M" stands for 568 * 10^6. */
  lemma FormatParseRoundTrip(n: nat, suffix: string)
    requires suffix == "" || suffix == "K" || suffix == "M"
    ensures ParseValue(Digits(n) + suffix) == Scaled(Some(n as real), SuffixScale(suffix))
  {
    ParseWholeLiteral(Digits(n), suffix);
    WholeValueDigits(n);
  }

  /** Whitespace around the text does not change the parse. */
  lemma ParseValuePadded(pre: string, raw: string, post: string)
    requires AllSpace(pre) && AllSpace(post)
    ensures ParseValue(pre + raw + post) == ParseValue(raw)
  {
    StripPadded(pre, raw, post);
  }

  /** "568M" is 568 million. */
  lemma ParseExampleMillions()
    ensures ParseValue("568M") == Some(568000000.0)
  {
    var w := "568";
    assert WholeValue(w) == 568 by {
      assert w[..2] == "56" && w[..2][..1] == "5" && w[..2][..1][..0] == [];
      assert WholeValue(w[..2][..1]) == 5;
      assert WholeValue(w[..2]) == 56;
    }
    ParseWholeLiteral(w, "M");
    assert w + "M" == "568M";
  }

  /** "568.0M", the same value spelled with a point, is 568000000 too. */
  lemma ParseExampleMillionsPoint()
    ensures ParseValue("568.0M") == Some(568000000.0)
  {
    var w, f := "568", "0";
    DigitsOfFiveSixtyEight();
    ParseFractionLiteral(w, f, "M");
    assert w + "." + f + "M" == "568.0M";
  }

  lemma DigitsOfFiveSixtyEight()
    ensures AllDigits("568") && AllDigits("0")
    ensures WholeValue("568") as real + FractionValue("0") == 568.0
  {
    var w, f := "568", "0";
    assert WholeValue(w) == 568 by {
      assert w[..2] == "56" && w[..2][..1] == "5" && w[..2][..1][..0] == [];
      assert WholeValue(w[..2][..1]) == 5;
      assert WholeValue(w[..2]) == 56;
    }
    assert FractionValue(f) == 0.0 by { assert f[1..] == []; }
  }

  /** "12.3K" is 12300. */
  lemma ParseExampleThousands()
    ensures ParseValue("12.3K") == Some(12300.0)
  {
    var w, f := "12", "3";
    DigitsOfTwelvePointThree();
    ParseFractionLiteral(w, f, "K");
    assert w + "." + f + "K" == "12.3K";
  }

  lemma DigitsOfTwelvePointThree()
    ensures AllDigits("12") && AllDigits("3")
    ensures WholeValue("12") as real + FractionValue("3") == 12.3
  {
    var w, f := "12", "3";
    assert WholeValue(w) == 12 by { assert w[..1] == "1" && w[..1][..0] == []; }
    assert FractionValue(f) == 0.3 by { assert f[1..] == []; }
  }

  /** "950", without a suffix, is 950. */
  lemma ParseExampleBare()
    ensures ParseValue("950") == Some(950.0)
  {
    var w := "950";
    assert WholeValue(w) == 950 by {
      assert w[..2] == "95" && w[..2][..1] == "9" && w[..2][..1][..0] == [];
      assert WholeValue(w[..2][..1]) == 9;
      assert WholeValue(w[..2]) == 95;
    }
    ParseWholeLiteral(w, "");
    assert w + "" == "950";
  }

  /** Nothing that is empty or starts with a character other than a digit,
      a sign or a point is a float literal. */
  lemma NotFloatLiteral(x: string)
    requires x == [] || (!IsDigit(x[0]) && x[0] !in "+-.")
    ensures !IsFloatLiteral(x)
  {
    if x != [] {
      assert !(IsDigit(x[0]) || x[0] == '.');
    }
  }

  /** Text that strips to nothing, or whose stripped form starts with a
      character that cannot begin a number, is rejected: parse failures
      give None, never a number. */
  lemma ParseRejectsLetters(raw: string)
    requires var t := Strip(raw); t == [] || (!IsDigit(t[0]) && t[0] !in "+-.")
    ensures ParseValue(raw) == None
  {
    var t := Strip(raw);
    ParseValueDefined(raw);
    NotFloatLiteral(t);
    if |t| > 0 {
      var body := t[..|t| - 1];
      StripStart(raw);
      if body != [] {
        assert body[0] == t[0];
        NumberStripStart(body);
      }
      NotFloatLiteral(NumberStrip(body));
    }
  }

  /** The placeholder "N/A" and a word are not numbers. */
  lemma ParseExamplesRejected()
    ensures ParseValue("N/A") == None
    ensures ParseValue("not-a-number") == None
  {
    StripTight("N/A");
    ParseRejectsLetters("N/A");
    StripTight("not-a-number");
    ParseRejectsLetters("not-a-number");
  }
}
