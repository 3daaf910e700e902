/**
 * The live dashboard of the `dashboard` command: how it reads the best
 * difficulty to decide whether to highlight it, and how it classifies the
 * hashrate and the stratum URL for display.
 */
module Dashboard {
  import opened Options
  import opened Text
  import opened Difficulty
  import Alerts

  // ---------------------------------------------------------------------
  // parse_best

  /** The characters `parse_best` keeps: digits and points, with every comma
      turned into a point; everything else is dropped. */
  function NumberChars(s: string): (r: string)
    ensures |r| <= |s|
  {
    if s == [] then []
    else if IsDigit(s[0]) || s[0] == '.' then [s[0]] + NumberChars(s[1..])
    else if s[0] == ',' then "." + NumberChars(s[1..])
    else NumberChars(s[1..])
  }

  lemma {:induction false} NumberCharsOnly(s: string)
    ensures forall i :: 0 <= i < |NumberChars(s)| ==> IsDigit(NumberChars(s)[i]) || NumberChars(s)[i] == '.'
    decreases |s|
  {
    if s != [] {
      NumberCharsOnly(s[1..]);
    }
  }

  lemma {:induction false} NumberCharsConcat(a: string, b: string)
    ensures NumberChars(a + b) == NumberChars(a) + NumberChars(b)
    decreases |a|
  {
    if a == [] {
      assert a + b == b;
    } else {
      assert (a + b)[0] == a[0] && (a + b)[1..] == a[1..] + b;
      NumberCharsConcat(a[1..], b);
    }
  }

  /** What happens to one character: a digit or a point is kept, a comma
      becomes a point, anything else is dropped. */
  lemma NumberCharsOfChar(c: char)
    ensures NumberChars([c]) == if IsDigit(c) || c == '.' then [c] else if c == ',' then "." else []
  {
    assert [c][1..] == [];
  }

  lemma {:induction false} NumberCharsOfDigits(w: string)
    requires AllDigits(w)
    ensures NumberChars(w) == w
    decreases |w|
  {
    if w != [] {
      NumberCharsOfDigits(w[1..]);
      assert w == [w[0]] + w[1..];
    }
  }

  /** `parse_best` as intended: keep the number characters, then `float`. */
  function ParseBest(s: string): Option<real> {
    ParseFloat(NumberChars(s))
  }

  /** `parse_best` as written: the module `re` is never imported, so the
      call `re.sub` raises a NameError, which the surrounding `except
      Exception` turns into None for every input. */
  function ParseBestAsWritten(s: string): Option<real> {
    None
  }

  /** The intended `parse_best` succeeds exactly when the kept characters
      form an unsigned decimal; the result is never negative. */
  lemma ParseBestDefined(s: string)
    ensures ParseBest(s).Some? <==> IsUnsignedLiteral(NumberChars(s))
    ensures ParseBest(s).Some? ==> ParseBest(s).value >= 0.0
  {
    var t := NumberChars(s);
    NumberCharsOnly(s);
    if t != [] {
      assert !IsNumberSpace(t[0]) && !IsNumberSpace(t[|t| - 1]);
      assert t[0] != '+' && t[0] != '-';
    }
    assert SplitSign(t) == (NoSign, t);
    NumberStripTight(t);
    ParseUnsignedDefined(t);
    if ParseUnsigned(t).Some? {
      var i := DotIndex(t);
      var fraction := if i < |t| then t[i + 1..] else [];
      assert ParseUnsigned(t).value == WholeValue(t[..i]) as real + FractionValue(fraction);
    }
  }

  /** A whole number followed by a unit without number characters is read
      as that number: the unit is dropped, not applied. */
  lemma ParseBestOfCount(n: nat, unit: string)
    requires NumberChars(unit) == []
    ensures ParseBest(Digits(n) + unit) == Some(n as real)
  {
    var w := Digits(n);
    NumberCharsConcat(w, unit);
    NumberCharsOfDigits(w);
    assert NumberChars(w + unit) == w;
    assert !IsNumberSpace(w[0]) && !IsNumberSpace(w[|w| - 1]);
    NumberStripTight(w);
    assert w[0] != '+' && w[0] != '-';
    ParseUnsignedWhole(w);
    WholeValueDigits(n);
  }

  lemma DigitsExamples()
    ensures Digits(500) == "500" && Digits(568) == "568"
  {
    assert Digits(50) == Digits(5) + ['0'];
    assert Digits(56) == Digits(5) + ['6'];
  }

  // ---------------------------------------------------------------------
  // The highlight tracker

  /** The tracker's variables after one refresh. */
  datatype Tracker = Tracker(lastBest: Option<real>, highlight: bool)

  /** One refresh: highlight a strict increase over the last parsed value,
      and remember the new value only when it parsed. */
  function Refresh(lastBest: Option<real>, v: Option<real>): (r: Tracker)
    ensures r.highlight <==> lastBest.Some? && v.Some? && v.value > lastBest.value
    ensures r.lastBest == (if v.Some? then v else lastBest)
  {
    var highlight := lastBest.Some? && v.Some? && v.value > lastBest.value;
    Tracker(if v.Some? then v else lastBest, highlight)
  }

  /** The highlight flags of a sequence of refreshes. */
  function Highlights(lastBest: Option<real>, vs: seq<Option<real>>): (r: seq<bool>)
    ensures |r| == |vs|
    decreases |vs|
  {
    if vs == [] then []
    else
      var t := Refresh(lastBest, vs[0]);
      [t.highlight] + Highlights(t.lastBest, vs[1..])
  }

  /** The last value that parsed among `vs`, or `initial` if none did. */
  function LatestParsed(initial: Option<real>, vs: seq<Option<real>>): Option<real>
    decreases |vs|
  {
    if vs == [] then initial
    else if vs[|vs| - 1].Some? then vs[|vs| - 1]
    else LatestParsed(initial, vs[..|vs| - 1])
  }

  lemma {:induction false} LatestParsedCons(initial: Option<real>, v: Option<real>, rest: seq<Option<real>>)
    ensures LatestParsed(initial, [v] + rest) == LatestParsed(Refresh(initial, v).lastBest, rest)
    decreases |rest|
  {
    var s := [v] + rest;
    if rest == [] {
      assert s[..|s| - 1] == [];
    } else {
      assert s[|s| - 1] == rest[|rest| - 1];
      assert s[..|s| - 1] == [v] + rest[..|rest| - 1];
      LatestParsedCons(initial, v, rest[..|rest| - 1]);
    }
  }

  /** Unparsable readings leave the remembered value alone. */
  lemma {:induction false} LatestParsedSkips(initial: Option<real>, vs: seq<Option<real>>, junk: seq<Option<real>>)
    requires forall i :: 0 <= i < |junk| ==> junk[i].None?
    ensures LatestParsed(initial, vs + junk) == LatestParsed(initial, vs)
    decreases |junk|
  {
    if junk == [] {
      assert vs + junk == vs;
    } else {
      var s := vs + junk;
      assert s[|s| - 1] == junk[|junk| - 1];
      assert s[..|s| - 1] == vs + junk[..|junk| - 1];
      LatestParsedSkips(initial, vs, junk[..|junk| - 1]);
    }
  }

  /** The i-th refresh is highlighted exactly when it parsed and exceeds the
      last value that parsed before it: a larger reading after unparsable
      ones still counts, and nothing is highlighted before a first value. */
  lemma {:induction false} HighlightsIff(lastBest: Option<real>, vs: seq<Option<real>>, i: nat)
    requires i < |vs|
    ensures var before := LatestParsed(lastBest, vs[..i]);
      Highlights(lastBest, vs)[i] <==> before.Some? && vs[i].Some? && vs[i].value > before.value
    decreases i
  {
    if i > 0 {
      var t := Refresh(lastBest, vs[0]);
      assert vs[1..][i - 1] == vs[i];
      assert vs[..i] == [vs[0]] + vs[1..][..i - 1];
      HighlightsIff(t.lastBest, vs[1..], i - 1);
      LatestParsedCons(lastBest, vs[0], vs[1..][..i - 1]);
    }
  }

  /** The intended parse of each reading. */
  function ParsedReadings(readings: seq<string>): (r: seq<Option<real>>)
    ensures |r| == |readings|
    ensures forall i :: 0 <= i < |readings| ==> r[i] == ParseBest(readings[i])
  {
    seq(|readings|, i requires 0 <= i < |readings| => ParseBest(readings[i]))
  }

  /** Peeling the first refresh off the readings from index `i` on. */
  lemma HighlightsFrom(lastBest: Option<real>, vs: seq<Option<real>>, i: nat)
    requires i < |vs|
    ensures var t := Refresh(lastBest, vs[i]);
      Highlights(lastBest, vs[i..]) == [t.highlight] + Highlights(t.lastBest, vs[i + 1..])
  {
    assert vs[i..][0] == vs[i] && vs[i..][1..] == vs[i + 1..];
  }

  /** Regrouping a concatenation of highlight flags. `RunDashboard` uses it
      to extend its flags by one; stated on its own so that the loop body's
      proof does not have to rediscover it among the parser's definitions. */
  lemma ConcatAssoc(a: seq<bool>, b: seq<bool>, c: seq<bool>)
    ensures a + (b + c) == (a + b) + c
  {
  }

  /** The refresh loop of the `dashboard` command over the best-difficulty
      texts it fetches, after the initial one: it yields the highlight flag
      of each refresh. */
  method RunDashboard(initial: string, readings: seq<string>) returns (highlights: seq<bool>)
    ensures highlights == Highlights(ParseBest(initial), ParsedReadings(readings))
  {
    var lastBest := ParseBest(initial);
    highlights := [];
    var i := 0;
    ghost var vs := ParsedReadings(readings);
    while i < |readings|
      invariant 0 <= i <= |readings|
      invariant Highlights(ParseBest(initial), vs) == highlights + Highlights(lastBest, vs[i..])
    {
      HighlightsFrom(lastBest, vs, i);
      var newBest := ParseBest(readings[i]);
      assert newBest == vs[i];
      ghost var t := Refresh(lastBest, newBest);
      ghost var rest := Highlights(t.lastBest, vs[i + 1..]);
      var highlight := lastBest.Some? && newBest.Some? && newBest.value > lastBest.value;
      if newBest.Some? {
        lastBest := newBest;
      }
      assert highlight == t.highlight && lastBest == t.lastBest;
      ConcatAssoc(highlights, [highlight], rest);
      highlights := highlights + [highlight];
      i := i + 1;
    }
    assert vs[i..] == [];
  }

  /** As written, the dashboard never highlights anything: every parse is
      None, so no refresh has a value to compare. */
  lemma {:induction false} NeverHighlightsAsWritten(initial: string, readings: seq<string>, i: nat)
    requires i < |readings|
    ensures !Highlights(ParseBestAsWritten(initial),
                        seq(|readings|, j requires 0 <= j < |readings| => ParseBestAsWritten(readings[j])))[i]
  {
    var vs := seq(|readings|, j requires 0 <= j < |readings| => ParseBestAsWritten(readings[j]));
    HighlightsIff(ParseBestAsWritten(initial), vs, i);
  }

  /** "500M" then "568M": the intended parser highlights the rise, the
      written one does not. */
  /** The intended `parse_best` reads "500M" as 500 and "568M" as 568. */
  lemma ParseBestExamples()
    ensures ParseBest("500M") == Some(500.0) && ParseBest("568M") == Some(568.0)
  {
    DigitsExamples();
    assert NumberChars("M") == [];
    ParseBestOfCount(500, "M");
    ParseBestOfCount(568, "M");
    assert Digits(500) + "M" == "500M";
    assert Digits(568) + "M" == "568M";
  }

  lemma HighlightCounterexample()
    ensures Highlights(ParseBest("500M"), ParsedReadings(["568M"])) == [true]
    ensures Highlights(ParseBestAsWritten("500M"), [ParseBestAsWritten("568M")]) == [false]
  {
    ParseBestExamples();
    var vs := ParsedReadings(["568M"]);
    assert vs == [Some(568.0)];
    HighlightsOne(Some(500.0), Some(568.0));
    HighlightsOne(None, None);
  }

  /** One refresh highlights exactly a parsed rise. */
  lemma HighlightsOne(lastBest: Option<real>, v: Option<real>)
    ensures Highlights(lastBest, [v]) == [lastBest.Some? && v.Some? && v.value > lastBest.value]
  {
    assert [v][1..] == [];
  }

  // ---------------------------------------------------------------------
  // Display classifiers

  /** The cases of `format_hashrate`: three thresholds on the number, and
      `NotANumber` for a reading that `float` rejects, which skips the
      thresholds and is shown raw. */
  datatype HashrateTier = Strong | Normal | Weak | NotANumber

  function TierOf(hashRate: Option<real>): (t: HashrateTier)
    ensures t == NotANumber <==> hashRate.None?
  {
    match hashRate
    case None => NotANumber
    case Some(hr) =>
      if hr >= 400.0 then Strong
      else if hr >= 350.0 then Normal
      else Weak
  }

  /** The three icons of `format_hashrate`. */
  datatype HashrateIcon = Muscle | Lightning | Fire

  /** The icon shown for each case: a rejected reading gets the icon of the
      strong tier. */
  function IconOf(t: HashrateTier): HashrateIcon {
    match t
    case Strong => Muscle
    case NotANumber => Muscle
    case Normal => Lightning
    case Weak => Fire
  }

  /** The top icon marks a reading of 400 and up or one that is not a number
      at all; the other two icons mark exactly their ranges. */
  lemma IconOfReading(hashRate: Option<real>)
    ensures IconOf(TierOf(hashRate)) == Muscle <==> hashRate.None? || hashRate.value >= 400.0
    ensures IconOf(TierOf(hashRate)) == Lightning <==> hashRate.Some? && 350.0 <= hashRate.value < 400.0
    ensures IconOf(TierOf(hashRate)) == Fire <==> hashRate.Some? && hashRate.value < 350.0
    ensures IconOf(TierOf(None)) == IconOf(TierOf(Some(400.0)))
  {
  }

  /** The dashboard tiers use the alert thresholds: a weak reading always
      leaves the low-hashrate flag set, a strong one always clears it, and a
      normal one keeps it as it was. */
  lemma TierAgreesWithAlerts(announced: bool, rate: real)
    ensures TierOf(Some(rate)) == Weak <==> rate < Alerts.LowHashrate
    ensures TierOf(Some(rate)) == Strong <==> rate >= Alerts.StableHashrate
    ensures TierOf(Some(rate)) == Weak ==> Alerts.HashrateStep(announced, rate).0
    ensures TierOf(Some(rate)) == Strong ==> !Alerts.HashrateStep(announced, rate).0
    ensures TierOf(Some(rate)) == Normal ==> Alerts.HashrateStep(announced, rate).0 == announced
  {
  }

  /** The icons of `format_stratum`. */
  datatype StratumKind = NoStratum | PoolHost | OtherHost

  function StratumOf(url: string): (k: StratumKind)
    ensures k == NoStratum <==> url == [] || url == "N/A"
  {
    if url == [] || url == "N/A" then NoStratum
    else if Contains(Lower(url), "pool") then PoolHost
    else OtherHost
  }

  /** The word "pool" in any letter case anywhere in the URL marks a pool. */
  lemma PoolInAnyCase(pre: string, word: string, post: string)
    requires Lower(word) == "pool"
    ensures StratumOf(pre + word + post) == PoolHost
  {
    var url := pre + word + post;
    var low := Lower(url);
    assert |url| >= 4;
    assert low[|pre|..][..4] == Lower(word) by {
      forall k | 0 <= k < 4 ensures low[|pre|..][..4][k] == Lower(word)[k] {
        assert url[|pre| + k] == word[k];
      }
    }
    assert "pool" <= low[|pre|..];
  }

  /** URLs that agree up to letter case get the same icon, unless one of
      them is the literal "N/A". */
  lemma StratumIgnoresCase(a: string, b: string)
    requires Lower(a) == Lower(b) && a != "N/A" && b != "N/A"
    ensures StratumOf(a) == StratumOf(b)
  {
    assert |a| == |Lower(a)| == |b|;
  }
}
