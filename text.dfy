/**
  The string operations of Python's standard library that the scraper relies
  on: `str.find`, `str.split`, slicing with a possibly negative stop,
  `urllib.parse.unquote`, `str.strip`, `str.lower` and `str(int)`.
  `find`, `split`, slicing, `strip` and `str(int)` are modelled exactly;
  `unquote` and `lower` are ASCII approximations (see README).
*/
module Text {

  /** `pat` occurs in `s` starting at index `i`. */
  predicate OccursAt(s: string, pat: string, i: int)
  {
    0 <= i && i + |pat| <= |s| && s[i..i + |pat|] == pat
  }

  /** `s.find(pat, from)`: the least index at or after `from` where `pat` occurs, or -1. */
  function FindFrom(s: string, pat: string, from: nat): (r: int)
    ensures r == -1 || (from <= r && OccursAt(s, pat, r))
    ensures r == -1 ==> forall j :: from <= j ==> !OccursAt(s, pat, j)
    ensures r != -1 ==> forall j :: from <= j < r ==> !OccursAt(s, pat, j)
    decreases |s| - from
  {
    if from + |pat| > |s| then -1
    else if s[from..from + |pat|] == pat then from
    else FindFrom(s, pat, from + 1)
  }

  /** `s.find(pat)`. */
  function Find(s: string, pat: string): (r: int)
    ensures r == -1 <==> forall j :: !OccursAt(s, pat, j)
    ensures r != -1 ==> OccursAt(s, pat, r) && forall j :: 0 <= j < r ==> !OccursAt(s, pat, j)
  {
    FindFrom(s, pat, 0)
  }

  /** `s.find(pat) > -1`, the containment test the scorer uses. */
  predicate Contains(s: string, pat: string)
  {
    Find(s, pat) > -1
  }

  lemma ContainsIff(s: string, pat: string)
    ensures Contains(s, pat) <==> exists j :: OccursAt(s, pat, j)
  {
  }

  /** Every string contains the empty string: `s.find('')` is 0. */
  lemma ContainsEmpty(s: string)
    ensures Contains(s, "")
  {
    assert OccursAt(s, "", 0);
  }

  /** `s[:stop]`: a negative stop counts from the end, and both ends are clamped. */
  function SliceTo(s: string, stop: int): (r: string)
    ensures |r| <= |s| && r == s[..|r|]
    ensures 0 <= stop <= |s| ==> |r| == stop
    ensures |s| < stop ==> r == s
    ensures -|s| <= stop < 0 ==> |r| == |s| + stop
    ensures stop < -|s| ==> r == []
  {
    if 0 <= stop then s[..if stop <= |s| then stop else |s|]
    else s[..if -stop <= |s| then |s| + stop else 0]
  }

  /** Joins `parts` with `sep` in between, as `sep.join(parts)`. */
  function Join(parts: seq<string>, sep: char): string
    requires |parts| >= 1
  {
    if |parts| == 1 then parts[0] else parts[0] + [sep] + Join(parts[1..], sep)
  }

  lemma JoinCons(head: string, rest: seq<string>, sep: char)
    requires |rest| >= 1
    ensures Join([head] + rest, sep) == head + [sep] + Join(rest, sep)
  {
    assert ([head] + rest)[1..] == rest;
  }

  /** Where `[sep]` does not occur before `stop`, the prefix up to `stop` holds no `sep`. */
  lemma NoSepBefore(s: string, sep: char, stop: nat)
    requires stop <= |s|
    requires forall j :: 0 <= j < stop ==> !OccursAt(s, [sep], j)
    ensures sep !in s[..stop]
  {
    forall q | 0 <= q < stop ensures s[q] != sep {
      assert !OccursAt(s, [sep], q);
      assert s[q..q + 1] == [s[q]];
    }
  }

  /** `s.split(sep)` for a one-character separator. */
  function Split(s: string, sep: char): (parts: seq<string>)
    ensures |parts| >= 1
    ensures forall k :: 0 <= k < |parts| ==> sep !in parts[k]
    ensures Join(parts, sep) == s
    decreases |s|
  {
    var k := Find(s, [sep]);
    if k == -1 then
      NoSepBefore(s, sep, |s|);
      assert s[..|s|] == s;
      [s]
    else
      NoSepBefore(s, sep, k);
      assert s[k..k + 1] == [sep];
      var rest := Split(s[k + 1..], sep);
      JoinCons(s[..k], rest, sep);
      assert s == s[..k] + [sep] + s[k + 1..];
      [s[..k]] + rest
  }

  /** Python's `str.isspace` on one character (the characters `str.strip()` removes). */
  predicate IsSpace(c: char)
  {
    var n := c as int;
    (9 <= n <= 13) || (28 <= n <= 32) || n == 0x85 || n == 0xA0 || n == 0x1680
    || (0x2000 <= n <= 0x200A) || n == 0x2028 || n == 0x2029 || n == 0x202F
    || n == 0x205F || n == 0x3000
  }

  /** `s.lstrip()`: the longest suffix of `s` that does not start with whitespace. */
  function TrimStart(s: string): (r: string)
    ensures |r| <= |s| && r == s[|s| - |r|..]
    ensures forall q :: 0 <= q < |s| - |r| ==> IsSpace(s[q])
    ensures r != [] ==> !IsSpace(r[0])
  {
    if s != [] && IsSpace(s[0]) then TrimStart(s[1..]) else s
  }

  /** `s.rstrip()`: the longest prefix of `s` that does not end with whitespace. */
  function TrimEnd(s: string): (r: string)
    ensures |r| <= |s| && r == s[..|r|]
    ensures forall q :: |r| <= q < |s| ==> IsSpace(s[q])
    ensures r != [] ==> !IsSpace(r[|r| - 1])
  {
    if s != [] && IsSpace(s[|s| - 1]) then TrimEnd(s[..|s| - 1]) else s
  }

  /**
    `r` is `s` with the whitespace at both ends removed: it sits at `i`,
    everything before and after it is whitespace, and it neither starts nor
    ends with whitespace.
  */
  predicate Trimmed(s: string, i: int, r: string)
  {
    OccursAt(s, r, i)
    && (forall q :: 0 <= q < i ==> IsSpace(s[q]))
    && (forall q :: i + |r| <= q < |s| ==> IsSpace(s[q]))
    && (r != [] ==> !IsSpace(r[0]) && !IsSpace(r[|r| - 1]))
  }

  /** Trimming the start and then the end of `s` trims it. */
  lemma TrimBoth(s: string)
    ensures Trimmed(s, |s| - |TrimStart(s)|, TrimEnd(TrimStart(s)))
  {
    TrimBothOccurs(s);
    TrimBothAfter(s);
    var t := TrimStart(s);
    var r := TrimEnd(t);
    if r != [] {
      assert r[0] == t[0];
    }
  }

  lemma TrimBothOccurs(s: string)
    ensures OccursAt(s, TrimEnd(TrimStart(s)), |s| - |TrimStart(s)|)
  {
    var t := TrimStart(s);
    var r := TrimEnd(t);
    var i := |s| - |t|;
    SliceOfSuffix(s, i, |r|);
  }

  lemma SliceOfSuffix(s: string, i: nat, n: nat)
    requires i + n <= |s|
    ensures s[i..][..n] == s[i..i + n]
  {
  }

  lemma TrimBothAfter(s: string)
    ensures var i := |s| - |TrimStart(s)|;
            forall q :: i + |TrimEnd(TrimStart(s))| <= q < |s| ==> IsSpace(s[q])
  {
    var t := TrimStart(s);
    var r := TrimEnd(t);
    var i := |s| - |t|;
    forall q | i + |r| <= q < |s| ensures IsSpace(s[q]) {
      assert s[q] == t[q - i];
    }
  }

  /** `s.strip()`. */
  function Strip(s: string): (r: string)
    ensures exists i :: Trimmed(s, i, r)
  {
    TrimBoth(s);
    TrimEnd(TrimStart(s))
  }

  /** There is only one way to trim a string, so `Strip` is that way. */
  lemma TrimmedUnique(s: string, i: int, r: string, j: int, t: string)
    requires Trimmed(s, i, r) && Trimmed(s, j, t)
    ensures r == t
    ensures r != [] ==> i == j
  {
    if r != [] {
      assert s[i] == r[0] && s[i + |r| - 1] == r[|r| - 1];
    }
    if t != [] {
      assert s[j] == t[0] && s[j + |t| - 1] == t[|t| - 1];
    }
    if r != [] && t != [] {
      assert i == j;
      assert |r| == |t|;
      assert r == s[i..i + |r|] && t == s[j..j + |t|];
    }
  }

  predicate IsUpper(c: char)
  {
    'A' <= c <= 'Z'
  }

  /** `c.lower()` for ASCII: `A`-`Z` become `a`-`z`, every other character is kept. */
  function LowerChar(c: char): (l: char)
    ensures IsUpper(c) ==> l as int == c as int + 32
    ensures !IsUpper(c) ==> l == c
    ensures !IsUpper(l) && IsSpace(l) == IsSpace(c)
  {
    if IsUpper(c) then (c as int - 'A' as int + 'a' as int) as char else c
  }

  /** `s.lower()` on ASCII letters; other characters are kept. */
  function Lower(s: string): (r: string)
    ensures |r| == |s|
    ensures forall k :: 0 <= k < |s| ==>
              (IsUpper(s[k]) ==> r[k] as int == s[k] as int + 32) && (!IsUpper(s[k]) ==> r[k] == s[k])
    ensures forall k :: 0 <= k < |r| ==> !IsUpper(r[k]) && IsSpace(r[k]) == IsSpace(s[k])
  {
    seq(|s|, k requires 0 <= k < |s| => LowerChar(s[k]))
  }

  predicate IsHexDigit(c: char)
  {
    '0' <= c <= '9' || 'a' <= c <= 'f' || 'A' <= c <= 'F'
  }

  function HexValue(c: char): (v: nat)
    requires IsHexDigit(c)
    ensures v < 16
  {
    if '0' <= c <= '9' then c as int - '0' as int
    else if 'a' <= c <= 'f' then c as int - 'a' as int + 10
    else c as int - 'A' as int + 10
  }

  /** `s` starts with a percent escape `%XX` for an ASCII character. */
  predicate AsciiEscapeAt(s: string, i: nat)
  {
    i + 3 <= |s| && s[i] == '%' && IsHexDigit(s[i + 1]) && IsHexDigit(s[i + 2])
    && HexValue(s[i + 1]) * 16 + HexValue(s[i + 2]) < 128
  }

  /**
    `unquote(s)` for escapes of ASCII characters: each `%XX` below `%80` becomes
    that character, everything else is copied.
  */
  function Unquote(s: string): (r: string)
    ensures |r| <= |s|
    ensures '%' !in s ==> r == s
    ensures AsciiEscapeAt(s, 0) ==> r != [] && r[0] == (HexValue(s[1]) * 16 + HexValue(s[2])) as char
    ensures s != [] && !AsciiEscapeAt(s, 0) ==> r != [] && r[0] == s[0]
    decreases |s|
  {
    if s == [] then []
    else if AsciiEscapeAt(s, 0) then
      [(HexValue(s[1]) * 16 + HexValue(s[2])) as char] + Unquote(s[3..])
    else
      [s[0]] + Unquote(s[1..])
  }

  /** The normalisation `unquote(link).strip().lower()` applied to every candidate. */
  function Sanitize(link: string): (r: string)
    ensures forall k :: 0 <= k < |r| ==> !IsUpper(r[k])
    ensures r != [] ==> !IsSpace(r[0]) && !IsSpace(r[|r| - 1])
    ensures exists i, t :: Trimmed(Unquote(link), i, t) && LowerOf(t, r)
  {
    var r := Lower(Strip(Unquote(link)));
    LowerStripped(Unquote(link), r);
    r
  }

  /** Stripping and then lower-casing `u` lower-cases a trimming of `u`. */
  lemma LowerStripped(u: string, r: string)
    requires r == Lower(Strip(u))
    ensures forall k :: 0 <= k < |r| ==> !IsUpper(r[k])
    ensures r != [] ==> !IsSpace(r[0]) && !IsSpace(r[|r| - 1])
    ensures exists i, t :: Trimmed(u, i, t) && LowerOf(t, r)
  {
    var t := Strip(u);
    var i :| Trimmed(u, i, t);
    LowerIsLowerOf(t);
  }

  lemma LowerIsLowerOf(t: string)
    ensures LowerOf(t, Lower(t))
  {
  }

  /** `r` is `t` with each character lower-cased. */
  predicate LowerOf(t: string, r: string)
  {
    |r| == |t| && forall k :: 0 <= k < |t| ==> r[k] == LowerChar(t[k])
  }

  /** The hexadecimal digit of `v`, upper case as `urllib.parse.quote` writes it. */
  function HexDigit(v: nat): (c: char)
    requires v < 16
    ensures IsHexDigit(c) && HexValue(c) == v
  {
    if v < 10 then ('0' as int + v) as char else ('A' as int + v - 10) as char
  }

  /** Every character of `s` written as a `%XX` escape; the characters must be ASCII. */
  function Escape(s: string): string
    requires forall k :: 0 <= k < |s| ==> s[k] as int < 128
  {
    if s == [] then []
    else ['%', HexDigit(s[0] as int / 16), HexDigit(s[0] as int % 16)] + Escape(s[1..])
  }

  /** `unquote` decodes what `Escape` writes: ASCII escapes round-trip. */
  lemma {:induction false} UnquoteEscape(s: string)
    requires forall k :: 0 <= k < |s| ==> s[k] as int < 128
    ensures Unquote(Escape(s)) == s
    decreases |s|
  {
    if s != [] {
      var c := s[0] as int;
      var hi, lo := HexDigit(c / 16), HexDigit(c % 16);
      var e := ['%', hi, lo] + Escape(s[1..]);
      assert e == Escape(s);
      assert e[1] == hi && e[2] == lo && e[3..] == Escape(s[1..]);
      assert HexValue(hi) * 16 + HexValue(lo) == c;
      UnquoteEscape(s[1..]);
      UnquoteAtEscape(e);
    }
  }

  /** An ASCII escape at the start is decoded and the rest is unquoted after it. */
  lemma UnquoteAtEscape(e: string)
    requires AsciiEscapeAt(e, 0)
    ensures Unquote(e) == [(HexValue(e[1]) * 16 + HexValue(e[2])) as char] + Unquote(e[3..])
  {
  }

  function DigitChar(d: nat): (c: char)
    requires d < 10
    ensures '0' <= c <= '9'
  {
    ('0' as int + d) as char
  }

  /** `str(n)` / `f'{n}'`: the decimal numeral of `n`. */
  function NatToString(n: nat): (s: string)
    ensures 1 <= |s|
    ensures forall k :: 0 <= k < |s| ==> '0' <= s[k] <= '9'
    ensures |s| == 1 <==> n < 10
  {
    if n < 10 then [DigitChar(n)] else NatToString(n / 10) + [DigitChar(n % 10)]
  }

  /** Different numbers have different numerals. */
  lemma {:induction false} NatToStringInjective(a: nat, b: nat)
    requires NatToString(a) == NatToString(b)
    ensures a == b
  {
    if a >= 10 && b >= 10 {
      var sa, sb := NatToString(a), NatToString(b);
      assert sa[|sa| - 1] == sb[|sb| - 1];
      assert DigitChar(a % 10) == DigitChar(b % 10);
      assert sa[..|sa| - 1] == NatToString(a / 10);
      assert sb[..|sb| - 1] == NatToString(b / 10);
      NatToStringInjective(a / 10, b / 10);
    } else if a < 10 && b < 10 {
      assert NatToString(a)[0] == DigitChar(a);
    }
  }
}
