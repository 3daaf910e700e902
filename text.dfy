/**
 * The handful of Python string operations the bot relies on: `str.strip()`,
 * the narrower whitespace trim of `float()`, `str.lower()` and the substring
 * test `needle in haystack`, restricted to ASCII characters.
 */
module Text {

  /** The ASCII characters `str.isspace()` accepts (tab .. carriage return,
      the four separators 0x1c .. 0x1f, and the space). */
  predicate IsSpace(c: char) {
    c == ' ' || (9 <= c as int <= 13) || (28 <= c as int <= 31)
  }

  predicate AllSpace(s: string) {
    forall i :: 0 <= i < |s| ==> IsSpace(s[i])
  }

  /** `s.lstrip()`: drops the leading whitespace, and only that. */
  function TrimLeft(s: string): (r: string)
    ensures |r| <= |s|
    ensures r == [] || !IsSpace(r[0])
  {
    if s != [] && IsSpace(s[0]) then TrimLeft(s[1..]) else s
  }

  /** What the left trim drops is whitespace, and what it keeps is a suffix. */
  lemma {:induction false} TrimLeftSlice(s: string)
    ensures TrimLeft(s) == s[|s| - |TrimLeft(s)|..]
    ensures AllSpace(s[..|s| - |TrimLeft(s)|])
  {
    if s != [] && IsSpace(s[0]) {
      TrimLeftSlice(s[1..]);
      var k := |s| - |TrimLeft(s)|;
      assert s[1..][k - 1..] == s[k..];
      forall m | 0 <= m < k ensures IsSpace(s[m]) {
        if m > 0 { assert s[m] == s[1..][..k - 1][m - 1]; }
      }
    }
  }

  /** `s.rstrip()`: drops the trailing whitespace, and only that. */
  function TrimRight(s: string): (r: string)
    ensures |r| <= |s|
    ensures r == [] || !IsSpace(r[|r| - 1])
  {
    if s != [] && IsSpace(s[|s| - 1]) then TrimRight(s[..|s| - 1]) else s
  }

  /** What the right trim drops is whitespace, and what it keeps is a prefix. */
  lemma {:induction false} TrimRightSlice(s: string)
    ensures TrimRight(s) == s[..|TrimRight(s)|]
    ensures AllSpace(s[|TrimRight(s)|..])
  {
    if s != [] && IsSpace(s[|s| - 1]) {
      var t := s[..|s| - 1];
      TrimRightSlice(t);
      var k := |TrimRight(s)|;
      assert t[..k] == s[..k];
      forall m | k <= m < |s| ensures IsSpace(s[m]) {
        if m < |s| - 1 { assert s[m] == t[k..][m - k]; }
      }
    }
  }

  /** `s.strip()`. */
  function Strip(s: string): string {
    TrimRight(TrimLeft(s))
  }

  /** Left trimming stops at the first character that is not whitespace. */
  lemma {:induction false} TrimLeftAt(s: string, i: nat)
    requires i <= |s| && AllSpace(s[..i])
    requires i < |s| ==> !IsSpace(s[i])
    ensures TrimLeft(s) == s[i..]
  {
    if i > 0 {
      assert IsSpace(s[..i][0]);
      assert s[1..][..i - 1] == s[..i][1..];
      TrimLeftAt(s[1..], i - 1);
      assert s[1..][i - 1..] == s[i..];
    }
  }

  /** Right trimming stops after the last character that is not whitespace. */
  lemma {:induction false} TrimRightAt(s: string, j: nat)
    requires j <= |s| && AllSpace(s[j..])
    requires 0 < j ==> !IsSpace(s[j - 1])
    ensures TrimRight(s) == s[..j]
    decreases |s| - j
  {
    if j < |s| {
      assert IsSpace(s[j..][|s| - 1 - j]);
      var t := s[..|s| - 1];
      assert t[j..] == s[j..][..|s| - 1 - j];
      TrimRightAt(t, j);
      assert t[..j] == s[..j];
    }
  }

  /** A string made only of whitespace strips to the empty string. */
  lemma StripAllSpace(s: string)
    requires AllSpace(s)
    ensures Strip(s) == []
  {
    assert s[..|s|] == s;
    TrimLeftAt(s, |s|);
  }

  /** The stripped string is the unique slice of `s` that has only whitespace
      around it in `s` and neither begins nor ends with whitespace. */
  lemma StripUnique(s: string, i: nat, j: nat)
    requires i < j <= |s|
    requires AllSpace(s[..i]) && AllSpace(s[j..])
    requires !IsSpace(s[i]) && !IsSpace(s[j - 1])
    ensures Strip(s) == s[i..j]
  {
    TrimLeftAt(s, i);
    assert s[i..][j - i..] == s[j..];
    assert s[i..][j - i - 1] == s[j - 1];
    TrimRightAt(s[i..], j - i);
    assert s[i..][..j - i] == s[i..j];
  }

  /** Leading whitespace does not change the left trim. */
  lemma {:induction false} TrimLeftSpaces(pre: string, s: string)
    requires AllSpace(pre)
    ensures TrimLeft(pre + s) == TrimLeft(s)
  {
    if pre != [] {
      assert (pre + s)[0] == pre[0] && IsSpace(pre[0]);
      assert (pre + s)[1..] == pre[1..] + s;
      TrimLeftSpaces(pre[1..], s);
    } else {
      assert pre + s == s;
    }
  }

  /** Trailing whitespace does not change the right trim. */
  lemma {:induction false} TrimRightSpaces(s: string, post: string)
    requires AllSpace(post)
    ensures TrimRight(s + post) == TrimRight(s)
  {
    if post != [] {
      var p := post[..|post| - 1];
      assert (s + post)[|s + post| - 1] == post[|post| - 1] && IsSpace(post[|post| - 1]);
      assert (s + post)[..|s + post| - 1] == s + p;
      TrimRightSpaces(s, p);
    } else {
      assert s + post == s;
    }
  }

  /** Once a non-whitespace character is reached, what follows is kept. */
  lemma {:induction false} TrimLeftAppend(s: string, post: string)
    requires TrimLeft(s) != []
    ensures TrimLeft(s + post) == TrimLeft(s) + post
  {
    assert (s + post)[0] == s[0];
    if IsSpace(s[0]) {
      assert (s + post)[1..] == s[1..] + post;
      TrimLeftAppend(s[1..], post);
    }
  }

  /** Whitespace around a string does not change what `strip()` returns. */
  lemma StripPadded(pre: string, s: string, post: string)
    requires AllSpace(pre) && AllSpace(post)
    ensures Strip(pre + s + post) == Strip(s)
  {
    assert pre + s + post == pre + (s + post);
    TrimLeftSpaces(pre, s + post);
    var l := TrimLeft(s);
    TrimLeftSlice(s);
    if l == [] {
      assert AllSpace(s + post) by {
        forall m | 0 <= m < |s + post| ensures IsSpace((s + post)[m]) {
          if m < |s| { assert s[m] == s[..|s|][m]; } else { assert (s + post)[m] == post[m - |s|]; }
        }
      }
      StripAllSpace(s + post);
    } else {
      TrimLeftAppend(s, post);
      TrimRightSpaces(l, post);
    }
  }

  /** A string that neither begins nor ends with whitespace is its own strip. */
  lemma StripTight(s: string)
    requires s == [] || (!IsSpace(s[0]) && !IsSpace(s[|s| - 1]))
    ensures Strip(s) == s
  {
    if s != [] {
      assert s[..0] == [] && s[|s|..] == [] && s[0..|s|] == s;
      StripUnique(s, 0, |s|);
    }
  }

  /** Stripping twice is stripping once. */
  lemma StripIdempotent(s: string)
    ensures Strip(Strip(s)) == Strip(s)
  {
    var l := TrimLeft(s);
    var r := TrimRight(l);
    TrimRightSlice(l);
    if r != [] {
      assert r[0] == l[0];
    }
    StripTight(r);
  }

  // ---------------------------------------------------------------------
  // The trim `float()` applies to its argument

  /** The ASCII whitespace `float()` skips around a number: tab .. carriage
      return and the space. The separators 0x1c .. 0x1f, which `str.strip()`
      removes, are not among them. */
  predicate IsNumberSpace(c: char) {
    c == ' ' || (9 <= c as int <= 13)
  }

  predicate AllNumberSpace(s: string) {
    forall i :: 0 <= i < |s| ==> IsNumberSpace(s[i])
  }

  /** Drops the leading whitespace `float()` skips, and only that. */
  function NumberTrimLeft(s: string): (r: string)
    ensures |r| <= |s|
    ensures r == [] || !IsNumberSpace(r[0])
  {
    if s != [] && IsNumberSpace(s[0]) then NumberTrimLeft(s[1..]) else s
  }

  /** Drops the trailing whitespace `float()` skips, and only that. */
  function NumberTrimRight(s: string): (r: string)
    ensures |r| <= |s|
    ensures r == [] || !IsNumberSpace(r[|r| - 1])
  {
    if s != [] && IsNumberSpace(s[|s| - 1]) then NumberTrimRight(s[..|s| - 1]) else s
  }

  /** The text `float()` reads after skipping surrounding whitespace. */
  function NumberStrip(s: string): string {
    NumberTrimRight(NumberTrimLeft(s))
  }

  /** The left trim of `float()` stops at the first character it does not skip. */
  lemma {:induction false} NumberTrimLeftAt(s: string, i: nat)
    requires i <= |s| && AllNumberSpace(s[..i])
    requires i < |s| ==> !IsNumberSpace(s[i])
    ensures NumberTrimLeft(s) == s[i..]
  {
    if i > 0 {
      assert IsNumberSpace(s[..i][0]);
      assert s[1..][..i - 1] == s[..i][1..];
      NumberTrimLeftAt(s[1..], i - 1);
      assert s[1..][i - 1..] == s[i..];
    }
  }

  /** The right trim of `float()` stops after the last character it does not skip. */
  lemma {:induction false} NumberTrimRightAt(s: string, j: nat)
    requires j <= |s| && AllNumberSpace(s[j..])
    requires 0 < j ==> !IsNumberSpace(s[j - 1])
    ensures NumberTrimRight(s) == s[..j]
    decreases |s| - j
  {
    if j < |s| {
      assert IsNumberSpace(s[j..][|s| - 1 - j]);
      var t := s[..|s| - 1];
      assert t[j..] == s[j..][..|s| - 1 - j];
      NumberTrimRightAt(t, j);
      assert t[..j] == s[..j];
    }
  }

  /** What `float()` reads is the unique slice of `s` with only skipped
      whitespace around it that neither begins nor ends with such whitespace;
      a separator 0x1c .. 0x1f next to a number stays in that slice. */
  lemma NumberStripUnique(s: string, i: nat, j: nat)
    requires i < j <= |s|
    requires AllNumberSpace(s[..i]) && AllNumberSpace(s[j..])
    requires !IsNumberSpace(s[i]) && !IsNumberSpace(s[j - 1])
    ensures NumberStrip(s) == s[i..j]
  {
    NumberTrimLeftAt(s, i);
    assert s[i..][j - i..] == s[j..];
    assert s[i..][j - i - 1] == s[j - 1];
    NumberTrimRightAt(s[i..], j - i);
    assert s[i..][..j - i] == s[i..j];
  }

  /** A text that neither begins nor ends with skipped whitespace is read whole. */
  lemma NumberStripTight(s: string)
    requires s == [] || (!IsNumberSpace(s[0]) && !IsNumberSpace(s[|s| - 1]))
    ensures NumberStrip(s) == s
  {
  }

  /** The right trim of `float()` keeps a prefix of its input. */
  lemma {:induction false} NumberTrimRightPrefix(s: string)
    ensures NumberTrimRight(s) == s[..|NumberTrimRight(s)|]
    decreases |s|
  {
    if s != [] && IsNumberSpace(s[|s| - 1]) {
      var p := s[..|s| - 1];
      NumberTrimRightPrefix(p);
      assert p[..|NumberTrimRight(p)|] == s[..|NumberTrimRight(p)|];
    }
  }

  /** When a text does not begin with whitespace `float()` skips, what it
      reads begins where the text does. */
  lemma NumberStripStart(s: string)
    requires s != [] && !IsNumberSpace(s[0])
    ensures NumberStrip(s) == [] || NumberStrip(s)[0] == s[0]
  {
    NumberTrimRightPrefix(s);
  }

  /** A stripped text does not begin with whitespace. */
  lemma StripStart(s: string)
    ensures Strip(s) == [] || !IsSpace(Strip(s)[0])
  {
    var l := TrimLeft(s);
    TrimRightSlice(l);
    if Strip(s) != [] {
      assert Strip(s)[0] == l[0];
    }
  }

  /** After `str.strip()` there is nothing left for `float()` to skip. */
  lemma NumberStripOfStrip(s: string)
    ensures NumberStrip(Strip(s)) == Strip(s)
  {
    var l := TrimLeft(s);
    var r := TrimRight(l);
    TrimRightSlice(l);
    if r != [] {
      assert r[0] == l[0];
    }
    NumberStripTight(r);
  }

  /** ASCII `str.lower()` of one character. */
  function LowerChar(c: char): char {
    if 'A' <= c <= 'Z' then (c as int + 32) as char else c
  }

  /** ASCII `str.lower()`. */
  function Lower(s: string): (r: string)
    ensures |r| == |s|
    ensures forall i :: 0 <= i < |s| ==> r[i] == LowerChar(s[i])
  {
    seq(|s|, i requires 0 <= i < |s| => LowerChar(s[i]))
  }

  /** Lower-casing leaves no upper-case ASCII letter, keeps every character
      that is not one, and turns each upper-case letter into its lower-case
      partner. */
  lemma LowerEffect(s: string)
    ensures forall i :: 0 <= i < |s| ==> !('A' <= Lower(s)[i] <= 'Z')
    ensures forall i :: 0 <= i < |s| && !('A' <= s[i] <= 'Z') ==> Lower(s)[i] == s[i]
    ensures forall i :: 0 <= i < |s| && 'A' <= s[i] <= 'Z' ==> 'a' <= Lower(s)[i] <= 'z' && Lower(s)[i] as int == s[i] as int + 32
  {
  }

  /** Lower-casing twice is lower-casing once. */
  lemma LowerIdempotent(s: string)
    ensures Lower(Lower(s)) == Lower(s)
  {
    var l := Lower(s);
    forall i | 0 <= i < |l| ensures Lower(l)[i] == l[i] {
      assert !('A' <= l[i] <= 'Z');
    }
  }

  /** Python's `needle in haystack` on strings. */
  predicate Contains(haystack: string, needle: string) {
    exists i :: 0 <= i <= |haystack| - |needle| && needle <= haystack[i..]
  }
}
