/** The Python string built-ins the tracker relies on, stated over
    `seq<char>`: `str.strip()`, `str.lstrip(chars)`, `str.split(sep)` with a
    one-character separator, `int(text)` for decimal text, and the
    zero-padded integer format `f"{n:0Wd}"`. */
module PyStr {
  import opened Util

  /** The characters for which Python's `str.isspace()` holds: the ones
      `strip()` removes. */
  predicate IsSpace(c: char) {
    c == ' ' || ('\t' <= c <= '\r') || ('\U{1c}' <= c <= '\U{1f}') ||
    c == '\U{85}' || c == '\U{a0}' || c == '\U{1680}' ||
    ('\U{2000}' <= c <= '\U{200a}') || c == '\U{2028}' || c == '\U{2029}' ||
    c == '\U{202f}' || c == '\U{205f}' || c == '\U{3000}'
  }

  /** The whitespace `int()` ignores around its digits. It turns every
      non-ASCII whitespace character into a space and then skips only ASCII
      whitespace, which leaves out the four separators U+001C to U+001F
      although `str.isspace()` holds for them. */
  predicate IsIntSpace(c: char) {
    IsSpace(c) && !('\U{1c}' <= c <= '\U{1f}')
  }

  /** Which whitespace a strip removes: `str.strip()`'s or `int()`'s. */
  datatype Whitespace = StrSpace | IntSpace {
    predicate Has(c: char) {
      if this == StrSpace then IsSpace(c) else IsIntSpace(c)
    }
  }

  predicate IsDigit(c: char) {
    '0' <= c <= '9'
  }

  // ---------- strip / lstrip ----------

  /** Removes the longest prefix of characters of `ws`. */
  function LStrip(s: string, ws: Whitespace): (r: string)
    ensures |r| <= |s| && r == s[|s| - |r|..]
    ensures forall k :: 0 <= k < |s| - |r| ==> ws.Has(s[k])
    ensures r != [] ==> !ws.Has(r[0])
  {
    if s != [] && ws.Has(s[0]) then LStrip(s[1..], ws) else s
  }

  /** Removes the longest suffix of characters of `ws`. */
  function RStrip(s: string, ws: Whitespace): (r: string)
    ensures |r| <= |s| && r == s[..|r|]
    ensures forall k :: |r| <= k < |s| ==> ws.Has(s[k])
    ensures r != [] ==> !ws.Has(r[|r| - 1])
  {
    if s != [] && ws.Has(s[|s| - 1]) then RStrip(s[..|s| - 1], ws) else s
  }

  function StripBy(s: string, ws: Whitespace): (r: string)
    ensures |r| <= |s|
  {
    RStrip(LStrip(s, ws), ws)
  }

  /** `s.strip()` */
  function Strip(s: string): (r: string)
    ensures |r| <= |s|
  {
    StripBy(s, StrSpace)
  }

  /** `strip()` leaves nothing exactly when the text is all whitespace, and
      otherwise leaves text that starts and ends with a non-space. */
  lemma StripShape(s: string)
    ensures Strip(s) == [] <==> forall k :: 0 <= k < |s| ==> IsSpace(s[k])
    ensures Strip(s) != [] ==> !IsSpace(Strip(s)[0]) && !IsSpace(Strip(s)[|Strip(s)| - 1])
  {
    StripEmpty(s);
    StripEnds(s);
  }

  lemma StripEmpty(s: string)
    ensures Strip(s) == [] <==> forall k :: 0 <= k < |s| ==> IsSpace(s[k])
  {
    var l := LStrip(s, StrSpace);
    assert RStrip(l, StrSpace) == [] ==> l == [];
  }

  lemma StripEnds(s: string)
    ensures Strip(s) != [] ==> !IsSpace(Strip(s)[0]) && !IsSpace(Strip(s)[|Strip(s)| - 1])
  {
    var l := LStrip(s, StrSpace);
    var r := RStrip(l, StrSpace);
    assert r != [] ==> r[0] == l[0];
  }

  /** `s.lstrip("0")` */
  function LStripZeros(s: string): (r: string)
    ensures |r| <= |s| && r == s[|s| - |r|..]
    ensures forall k :: 0 <= k < |s| - |r| ==> s[k] == '0'
    ensures r != [] ==> r[0] != '0'
  {
    if s != [] && s[0] == '0' then LStripZeros(s[1..]) else s
  }

  /** Text that starts and ends with a character outside `ws` is left
      alone by stripping `ws`. */
  lemma StripNoSpaceEnds(s: string, ws: Whitespace)
    requires s != [] ==> !ws.Has(s[0]) && !ws.Has(s[|s| - 1])
    ensures StripBy(s, ws) == s
  {
  }

  /** `strip()` removes exactly the leading and trailing whitespace: when
      `s[i..j]` has non-space ends and only whitespace surrounds it, that is
      what `strip()` returns. */
  lemma StripExact(s: string, i: nat, j: nat)
    requires i < j <= |s|
    requires forall k :: 0 <= k < i ==> IsSpace(s[k])
    requires forall k :: j <= k < |s| ==> IsSpace(s[k])
    requires !IsSpace(s[i]) && !IsSpace(s[j - 1])
    ensures Strip(s) == s[i..j]
  {
    LStripExact(s, i);
    RStripSuffix(s, i, j);
  }

  /** Right-stripping the tail `s[i..]` leaves `s[i..j]`. */
  lemma RStripSuffix(s: string, i: nat, j: nat)
    requires i < j <= |s|
    requires forall k :: j <= k < |s| ==> IsSpace(s[k])
    requires !IsSpace(s[j - 1])
    ensures RStrip(s[i..], StrSpace) == s[i..j]
  {
    var t := s[i..];
    var r := RStrip(t, StrSpace);
    assert t[j - i - 1] == s[j - 1];
    assert |r| >= j - i;
    assert r[|r| - 1] == s[i + |r| - 1];
    SliceOfSlice(s, i, j);
  }

  /** A slice identity, stated apart to keep the caller's proof small. */
  lemma SliceOfSlice(s: string, i: nat, j: nat)
    requires i <= j <= |s|
    ensures s[i..][..j - i] == s[i..j]
  {
  }

  lemma LStripExact(s: string, i: nat)
    requires i < |s|
    requires forall k :: 0 <= k < i ==> IsSpace(s[k])
    requires !IsSpace(s[i])
    ensures LStrip(s, StrSpace) == s[i..]
  {
    var l := LStrip(s, StrSpace);
    assert i >= |s| - |l|;
    assert l[0] == s[|s| - |l|];
  }

  /** `strip()` removes nothing more when applied a second time. */
  lemma StripIdempotent(s: string)
    ensures Strip(Strip(s)) == Strip(s)
  {
    StripShape(s);
    StripNoSpaceEnds(Strip(s), StrSpace);
  }

  // ---------- split ----------

  /** `sep.join(parts)` for a one-character separator. */
  function Join(parts: seq<string>, sep: char): string
    requires |parts| >= 1
  {
    if |parts| == 1 then parts[0] else parts[0] + [sep] + Join(parts[1..], sep)
  }

  /** `s.split(sep)` for a one-character separator: never empty. */
  function Split(s: string, sep: char): (r: seq<string>)
    ensures |r| >= 1
  {
    if s == [] then [""]
    else
      var rest := Split(s[1..], sep);
      if s[0] == sep then [""] + rest
      else [[s[0]] + rest[0]] + rest[1..]
  }

  /** One half of the round trip: no piece holds the separator, and joining
      the pieces with it gives back `s`. */
  lemma {:induction false} JoinSplit(s: string, sep: char)
    ensures forall i :: 0 <= i < |Split(s, sep)| ==> sep !in Split(s, sep)[i]
    ensures Join(Split(s, sep), sep) == s
  {
    if s != [] {
      var rest := Split(s[1..], sep);
      JoinSplit(s[1..], sep);
      var r := Split(s, sep);
      if s[0] == sep {
        assert r[1..] == rest;
      } else {
        assert |rest| > 1 ==> r[1..] == rest[1..];
        assert r[0] == [s[0]] + rest[0];
      }
    }
  }

  /** A piece without the separator splits into itself. */
  lemma {:induction false} SplitPlain(p: string, sep: char)
    requires sep !in p
    ensures Split(p, sep) == [p]
  {
    if p != [] {
      SplitPlain(p[1..], sep);
      assert [p[0]] + p[1..] == p;
    }
  }

  /** Splitting `p + sep + t` yields `p` followed by the pieces of `t`. */
  lemma {:induction false} SplitCons(p: string, sep: char, t: string)
    requires sep !in p
    ensures Split(p + [sep] + t, sep) == [p] + Split(t, sep)
    decreases |p|
  {
    var s := p + [sep] + t;
    if p == [] {
      assert s[1..] == t;
    } else {
      assert s[1..] == p[1..] + [sep] + t;
      SplitCons(p[1..], sep, t);
      assert [p[0]] + p[1..] == p;
    }
  }

  /** The other half of the round trip: pieces free of the separator are
      recovered exactly from their join. */
  lemma {:induction false} SplitJoin(parts: seq<string>, sep: char)
    requires |parts| >= 1
    requires forall i :: 0 <= i < |parts| ==> sep !in parts[i]
    ensures Split(Join(parts, sep), sep) == parts
  {
    if |parts| == 1 {
      SplitPlain(parts[0], sep);
    } else {
      SplitJoin(parts[1..], sep);
      SplitCons(parts[0], sep, Join(parts[1..], sep));
      assert [parts[0]] + parts[1..] == parts;
    }
  }

  /** The first piece of a split is the text before the first separator. */
  lemma {:induction false} SplitFirst(s: string, sep: char, k: nat)
    requires k <= |s| && sep !in s[..k]
    requires k < |s| ==> s[k] == sep
    ensures Split(s, sep)[0] == s[..k]
  {
    if k < |s| {
      assert s == s[..k] + [sep] + s[k + 1..];
      SplitCons(s[..k], sep, s[k + 1..]);
    } else {
      assert s[..k] == s;
      SplitPlain(s, sep);
    }
  }

  // ---------- int(text) ----------

  /** A run of digits as Python's `int()` accepts it: starts and ends with a
      digit, and each `_` sits between two digits. */
  predicate IsDigitRun(s: string) {
    |s| > 0 && IsDigit(s[0]) && IsDigit(s[|s| - 1]) &&
    (forall i :: 0 <= i < |s| ==> IsDigit(s[i]) || s[i] == '_') &&
    (forall i, j :: 0 <= i < |s| && 0 <= j < |s| && j == i + 1 && s[i] == '_' ==> IsDigit(s[j]))
  }

  predicate DigitsOrUnderscores(s: string) {
    forall i :: 0 <= i < |s| ==> IsDigit(s[i]) || s[i] == '_'
  }

  /** The decimal value of a digit run, underscores ignored. */
  function RunValue(s: string): nat
    requires DigitsOrUnderscores(s)
  {
    if s == [] then 0
    else
      var last := s[|s| - 1];
      if last == '_' then RunValue(s[..|s| - 1])
      else RunValue(s[..|s| - 1]) * 10 + (last as int - '0' as int)
  }

  /** `int(text)`: the whitespace `int()` ignores around the text, an
      optional sign, then a digit run; `None` where Python raises
      `ValueError`. */
  function ParseInt(s: string): Option<int> {
    var t := StripBy(s, IntSpace);
    if |t| > 0 && (t[0] == '+' || t[0] == '-') then
      if IsDigitRun(t[1..]) then
        var v: int := RunValue(t[1..]);
        Some(if t[0] == '-' then -v else v)
      else None
    else if IsDigitRun(t) then Some(RunValue(t))
    else None
  }

  /** `int()` does not skip the separators U+001C to U+001F, which
      `strip()` removes: text that starts with one strips as if it were not
      there, but `int()` rejects it. */
  lemma ParseIntSeparatorFirst(s: string)
    requires s != [] && '\U{1c}' <= s[0] <= '\U{1f}'
    ensures Strip(s) == Strip(s[1..])
    ensures ParseInt(s) == None
  {
    StripSkipsSeparator(s);
    ParseIntBadFirst(s);
  }

  /** `int()` rejects text whose first character is neither whitespace it
      skips, nor a sign, nor a digit. */
  lemma ParseIntBadFirst(s: string)
    requires s != [] && !IsIntSpace(s[0]) && !IsDigit(s[0]) && s[0] != '+' && s[0] != '-'
    ensures ParseInt(s) == None
  {
    IntStripPrefix(s, 0);
    var t := StripBy(s, IntSpace);
    assert t[0] == s[0];
  }

  lemma StripSkipsSeparator(s: string)
    requires s != [] && IsSpace(s[0])
    ensures Strip(s) == Strip(s[1..])
  {
    assert LStrip(s, StrSpace) == LStrip(s[1..], StrSpace);
  }

  /** Text that starts with a character `int()` does not skip loses only a
      tail to `int()`'s stripping, and keeps every character up to any
      other such character. */
  lemma IntStripPrefix(s: string, k: nat)
    requires k < |s| && !IsIntSpace(s[0]) && !IsIntSpace(s[k])
    ensures |StripBy(s, IntSpace)| > k
    ensures StripBy(s, IntSpace) == s[..|StripBy(s, IntSpace)|]
  {
    assert LStrip(s, IntSpace) == s;
  }

  // ---------- f"{n:0Wd}" ----------

  function Repeat(c: char, k: nat): (r: string)
    ensures |r| == k && forall i :: 0 <= i < k ==> r[i] == c
  {
    if k == 0 then [] else Repeat(c, k - 1) + [c]
  }

  function DigitChar(d: nat): char
    requires d < 10
  {
    ('0' as int + d) as char
  }

  /** The decimal digits of `n`, most significant first, without leading zeros. */
  function Digits(n: nat): (r: string)
    ensures |r| >= 1 && forall i :: 0 <= i < |r| ==> IsDigit(r[i])
  {
    if n < 10 then [DigitChar(n)] else Digits(n / 10) + [DigitChar(n % 10)]
  }

  function Pow10(k: nat): nat {
    if k == 0 then 1 else 10 * Pow10(k - 1)
  }

  function ZeroPad(d: string, width: nat): (r: string) {
    if |d| < width then Repeat('0', width - |d|) + d else d
  }

  /** `f"{n:0{width}d}"`: the digits of |n| padded with zeros on the left to
      `width` characters, the minus sign counting towards the width. */
  function FormatPadded(n: int, width: nat): string {
    if n >= 0 then ZeroPad(Digits(n), width)
    else "-" + ZeroPad(Digits(-n), if width > 0 then width - 1 else 0)
  }

  lemma {:induction false} RunValueDigits(n: nat)
    ensures DigitsOrUnderscores(Digits(n)) && RunValue(Digits(n)) == n
  {
    var d := Digits(n);
    if n >= 10 {
      RunValueDigits(n / 10);
      assert d[..|d| - 1] == Digits(n / 10);
    }
  }

  lemma {:induction false} RunValueLeadingZeros(k: nat, d: string)
    requires DigitsOrUnderscores(d)
    ensures DigitsOrUnderscores(Repeat('0', k) + d)
    ensures RunValue(Repeat('0', k) + d) == RunValue(d)
    decreases |d|, k
  {
    var s := Repeat('0', k) + d;
    if d == [] {
      assert s == Repeat('0', k);
      if k > 0 {
        assert s[..|s| - 1] == Repeat('0', k - 1) + [];
        RunValueLeadingZeros(k - 1, []);
      }
    } else {
      assert s[..|s| - 1] == Repeat('0', k) + d[..|d| - 1];
      RunValueLeadingZeros(k, d[..|d| - 1]);
    }
  }

  lemma PaddedDigits(n: nat, width: nat)
    ensures IsDigitRun(ZeroPad(Digits(n), width))
    ensures RunValue(ZeroPad(Digits(n), width)) == n
  {
    RunValueDigits(n);
    var d := Digits(n);
    if |d| < width {
      RunValueLeadingZeros(width - |d|, d);
      ZerosThenDigits(width - |d|, d);
    }
  }

  lemma ZerosThenDigits(k: nat, d: string)
    requires |d| > 0 && forall i :: 0 <= i < |d| ==> IsDigit(d[i])
    ensures IsDigitRun(Repeat('0', k) + d)
  {
    var s := Repeat('0', k) + d;
    forall i | 0 <= i < |s| ensures IsDigit(s[i]) {
      if i >= k { assert s[i] == d[i - k]; }
    }
  }

  /** Reading a formatted integer back with `int()` gives the integer: the
      format loses nothing, for negative numbers too. */
  lemma FormatPaddedRoundTrip(n: int, width: nat)
    ensures ParseInt(FormatPadded(n, width)) == Some(n)
  {
    if n >= 0 {
      PaddedRoundTrip(n, width);
    } else {
      NegativeRoundTrip(n, width);
    }
  }

  lemma PaddedRoundTrip(n: nat, width: nat)
    ensures ParseInt(ZeroPad(Digits(n), width)) == Some(n)
  {
    PaddedDigits(n, width);
    ParseDigitRun(ZeroPad(Digits(n), width), n);
  }

  lemma NegativeRoundTrip(n: int, width: nat)
    requires n < 0
    ensures ParseInt(FormatPadded(n, width)) == Some(n)
  {
    var m: nat := -n;
    var w: nat := if width > 0 then width - 1 else 0;
    NegativeFormat(n, width, m, w);
    NegatedPadded(m, w);
  }

  /** The negative branch of `FormatPadded`, stated apart to keep the round-trip proof small. */
  lemma NegativeFormat(n: int, width: nat, m: nat, w: nat)
    requires n < 0 && m == -n && w == (if width > 0 then width - 1 else 0)
    ensures FormatPadded(n, width) == "-" + ZeroPad(Digits(m), w)
  {
  }

  lemma NegatedPadded(m: nat, w: nat)
    ensures ParseInt("-" + ZeroPad(Digits(m), w)) == Some(-(m as int))
  {
    PaddedDigits(m, w);
    ParseNegativeDigitRun(ZeroPad(Digits(m), w), m);
  }

  /** `int()` reads a digit run as its value. */
  lemma ParseDigitRun(t: string, v: nat)
    requires IsDigitRun(t) && RunValue(t) == v
    ensures ParseInt(t) == Some(v)
  {
    StripNoSpaceEnds(t, IntSpace);
  }

  /** `int()` reads a minus sign and a digit run as the negated value. */
  lemma ParseNegativeDigitRun(t: string, v: nat)
    requires IsDigitRun(t) && RunValue(t) == v
    ensures ParseInt("-" + t) == Some(-(v as int))
  {
    var s := "-" + t;
    assert s[0] == '-' && s[|s| - 1] == t[|t| - 1];
    StripNoSpaceEnds(s, IntSpace);
    assert s[1..] == t;
  }

  /** Distinct integers format to distinct text. */
  lemma FormatPaddedInjective(m: int, n: int, width: nat)
    requires FormatPadded(m, width) == FormatPadded(n, width)
    ensures m == n
  {
    FormatPaddedRoundTrip(m, width);
    FormatPaddedRoundTrip(n, width);
  }

  lemma {:induction false} DigitsLength(n: nat, k: nat)
    requires 1 <= k && n < Pow10(k)
    ensures |Digits(n)| <= k
  {
    if n >= 10 {
      DigitsLength(n / 10, k - 1);
    }
  }

  /** A non-negative number below 10^width formats to exactly `width` digits,
      all of them decimal digits. */
  lemma FormatPaddedWidth(n: nat, width: nat)
    requires 1 <= width && n < Pow10(width)
    ensures |FormatPadded(n, width)| == width
    ensures forall i :: 0 <= i < width ==> IsDigit(FormatPadded(n, width)[i])
  {
    DigitsLength(n, width);
    PaddedDigits(n, width);
  }
}
