/**
  The four regular expressions of script.py:24-27 and `re.findall` over them.

  Each pattern is a scanner `MatchAt(p, s, i)` that returns the end of the
  match starting at `i`, if any; `FindAll` scans left to right and restarts
  after each match, as `findall` does. All four patterns end in a greedy
  repetition and none can match the empty string, so the match the regex
  engine returns at `i` is the longest one, and `MatchAtIsLongest` proves that
  the scanners return exactly that.

  The twitter and facebook patterns `https?://(?:www\.)?DOMAIN/[a-zA-Z0-9-._]*`
  are expanded into their four literal prefixes, in the order the
  backtracking engine tries them (with `s` before without, with `www.` before
  without), followed by a run of handle characters.
*/
module Patterns {
  import opened Wrappers
  import opened Text

  datatype Pattern = TwitterLink | FacebookLink | EmailAddress | ProductLink

  /** The character classes used by the patterns. */
  datatype CharClass =
    | NotQuote    // [^"]
    | HandleChar  // [a-zA-Z0-9-._]
    | LocalChar   // [a-z0-9-.]
    | DomainChar  // [a-z.]

  predicate InClass(c: char, cls: CharClass)
  {
    match cls
    case NotQuote => c != '"'
    case HandleChar => 'a' <= c <= 'z' || 'A' <= c <= 'Z' || '0' <= c <= '9' || c == '-' || c == '.' || c == '_'
    case LocalChar => 'a' <= c <= 'z' || '0' <= c <= '9' || c == '-' || c == '.'
    case DomainChar => 'a' <= c <= 'z' || c == '.'
  }

  /** Every character of `s[from..to]` is in `cls`. */
  predicate AllIn(s: string, from: int, to: int, cls: CharClass)
    requires 0 <= from
    requires to <= |s|
  {
    forall q :: from <= q < to ==> InClass(s[q], cls)
  }

  /** The end of the longest run of `cls` characters starting at `from`. */
  function RunEnd(s: string, from: nat, cls: CharClass): (r: nat)
    requires from <= |s|
    ensures from <= r <= |s|
    ensures AllIn(s, from, r, cls)
    ensures r == |s| || !InClass(s[r], cls)
    decreases |s| - from
  {
    if from < |s| && InClass(s[from], cls) then RunEnd(s, from + 1, cls) else from
  }

  /** A run of `cls` from `from` reaches at least `to` exactly when the longest one does. */
  lemma RunEndCovers(s: string, from: nat, to: nat, cls: CharClass)
    requires from <= to <= |s|
    ensures AllIn(s, from, to, cls) <==> to <= RunEnd(s, from, cls)
  {
  }

  const ProductPrefix := "/collections/all/products/"

  /** The literal part of `https?://(?:www\.)?DOMAIN/`, in the order the engine tries it. */
  function SocialPrefixes(domain: string): seq<string>
  {
    ["https://www." + domain + "/", "https://" + domain + "/",
     "http://www." + domain + "/", "http://" + domain + "/"]
  }

  const TwitterDomain := "twitter.com"
  const FacebookDomain := "facebook.com"

  predicate IsPrefix(x: string, y: string)
  {
    |x| <= |y| && y[..|x|] == x
  }

  /** No alternative is a prefix of another one: at most one can occur at a position. */
  predicate PrefixFree(alts: seq<string>)
  {
    forall a, b :: 0 <= a < |alts| && 0 <= b < |alts| && a != b ==> !IsPrefix(alts[a], alts[b])
  }

  /**
    A literal alternative followed by a greedy run of `cls` of length at least
    `minRun`: the first alternative, in order, that lets the whole pattern match.
  */
  function AltRunAt(s: string, i: nat, alts: seq<string>, cls: CharClass, minRun: nat): (r: Option<nat>)
    requires i <= |s|
    requires forall k :: 0 <= k < |alts| ==> alts[k] != []
    ensures r.Some? ==> i < r.value <= |s|
    decreases |alts|
  {
    if alts == [] then None
    else if OccursAt(s, alts[0], i) && i + |alts[0]| + minRun <= RunEnd(s, i + |alts[0]|, cls) then
      Some(RunEnd(s, i + |alts[0]|, cls))
    else
      AltRunAt(s, i, alts[1..], cls, minRun)
  }

  /** `m` as a whole matches "one of `alts`, then at least `minRun` characters of `cls`". */
  predicate AltRunShape(m: string, alts: seq<string>, cls: CharClass, minRun: nat)
  {
    exists k :: 0 <= k < |alts| && |alts[k]| + minRun <= |m| && IsPrefix(alts[k], m) && AllIn(m, |alts[k]|, |m|, cls)
  }

  /** `[a-z0-9-.]+@[a-z.]+` at position `i`. */
  function EmailAt(s: string, i: nat): (r: Option<nat>)
    requires i <= |s|
    ensures r.Some? ==> i < r.value <= |s|
  {
    var at := RunEnd(s, i, LocalChar);
    if i < at < |s| && s[at] == '@' then
      var j := RunEnd(s, at + 1, DomainChar);
      if at + 1 < j then Some(j) else None
    else
      None
  }

  /** `m` as a whole matches `[a-z0-9-.]+@[a-z.]+`. */
  predicate EmailShape(m: string)
  {
    exists k :: 0 < k < |m| - 1 && m[k] == '@' && AllIn(m, 0, k, LocalChar) && AllIn(m, k + 1, |m|, DomainChar)
  }

  /** The end of the match of `p` starting at `i` in `s`, if there is one. */
  function MatchAt(p: Pattern, s: string, i: nat): (r: Option<nat>)
    requires i <= |s|
    ensures r.Some? ==> i < r.value <= |s|
  {
    match p
    case TwitterLink => AltRunAt(s, i, SocialPrefixes(TwitterDomain), HandleChar, 0)
    case FacebookLink => AltRunAt(s, i, SocialPrefixes(FacebookDomain), HandleChar, 0)
    case EmailAddress => EmailAt(s, i)
    case ProductLink => AltRunAt(s, i, [ProductPrefix], NotQuote, 1)
  }

  /** `m` as a whole matches the regular expression of `p`. */
  predicate Shape(p: Pattern, m: string)
  {
    match p
    case TwitterLink => AltRunShape(m, SocialPrefixes(TwitterDomain), HandleChar, 0)
    case FacebookLink => AltRunShape(m, SocialPrefixes(FacebookDomain), HandleChar, 0)
    case EmailAddress => EmailShape(m)
    case ProductLink => AltRunShape(m, [ProductPrefix], NotQuote, 1)
  }

  lemma DifferAt(x: string, y: string, q: nat)
    requires q < |x| && q < |y| && x[q] != y[q]
    ensures !IsPrefix(x, y) && !IsPrefix(y, x)
  {
    if |x| <= |y| { assert y[..|x|][q] != x[q]; }
    if |y| <= |x| { assert x[..|y|][q] != y[q]; }
  }

  /** The four social prefixes exclude each other when the domain does not start with `w`. */
  lemma SocialPrefixesPrefixFree(domain: string)
    requires domain != [] && domain[0] != 'w'
    ensures PrefixFree(SocialPrefixes(domain))
  {
    var alts := SocialPrefixes(domain);
    assert alts[0][4] == 's' && alts[1][4] == 's' && alts[2][4] == ':' && alts[3][4] == ':';
    assert alts[0][8] == 'w' && alts[1][8] == domain[0];
    assert alts[2][7] == 'w' && alts[3][7] == domain[0];
    DifferAt(alts[0], alts[1], 8);
    DifferAt(alts[0], alts[2], 4);
    DifferAt(alts[0], alts[3], 4);
    DifferAt(alts[1], alts[2], 4);
    DifferAt(alts[1], alts[3], 4);
    DifferAt(alts[2], alts[3], 7);
  }

  /** Two alternatives that both occur at `i` are prefixes of one another. */
  lemma BothOccur(s: string, i: nat, x: string, y: string)
    requires OccursAt(s, x, i) && OccursAt(s, y, i) && |x| <= |y|
    ensures IsPrefix(x, y)
  {
    assert y[..|x|] == s[i..i + |y|][..|x|] == s[i..i + |x|];
  }

  /** If alternative `k` lets the pattern match, the scanner takes it. */
  lemma {:induction false} AltRunFinds(s: string, i: nat, alts: seq<string>, cls: CharClass, minRun: nat, k: nat)
    requires i <= |s|
    requires forall a :: 0 <= a < |alts| ==> alts[a] != []
    requires PrefixFree(alts)
    requires k < |alts| && OccursAt(s, alts[k], i)
    requires i + |alts[k]| + minRun <= RunEnd(s, i + |alts[k]|, cls)
    ensures AltRunAt(s, i, alts, cls, minRun) == Some(RunEnd(s, i + |alts[k]|, cls))
  {
    if k > 0 {
      if OccursAt(s, alts[0], i) {
        if |alts[0]| <= |alts[k]| {
          BothOccur(s, i, alts[0], alts[k]);
        } else {
          BothOccur(s, i, alts[k], alts[0]);
        }
        assert false;
      }
      var rest := alts[1..];
      assert forall a, b :: 0 <= a < |rest| && 0 <= b < |rest| && a != b ==> rest[a] == alts[a + 1] && rest[b] == alts[b + 1];
      AltRunFinds(s, i, rest, cls, minRun, k - 1);
    }
  }

  /** Any match of the shape at `i` ends no later than what `AltRunAt` returns. */
  lemma AltRunComplete(s: string, i: nat, alts: seq<string>, cls: CharClass, minRun: nat, j: nat)
    requires i <= j <= |s|
    requires forall a :: 0 <= a < |alts| ==> alts[a] != []
    requires PrefixFree(alts)
    requires AltRunShape(s[i..j], alts, cls, minRun)
    ensures AltRunAt(s, i, alts, cls, minRun).Some? && j <= AltRunAt(s, i, alts, cls, minRun).value
  {
    var m := s[i..j];
    var k :| 0 <= k < |alts| && |alts[k]| + minRun <= |m| && IsPrefix(alts[k], m) && AllIn(m, |alts[k]|, |m|, cls);
    var a := alts[k];
    assert OccursAt(s, a, i) by { assert s[i..i + |a|] == m[..|a|]; }
    assert AllIn(s, i + |a|, j, cls) by {
      forall q | i + |a| <= q < j ensures InClass(s[q], cls) {
        assert s[q] == m[q - i];
      }
    }
    RunEndCovers(s, i + |a|, j, cls);
    AltRunFinds(s, i, alts, cls, minRun, k);
  }

  /** `AltRunAt` returns the end of the longest match of its shape at `i`, or nothing if none exists. */
  lemma AltRunLongest(s: string, i: nat, alts: seq<string>, cls: CharClass, minRun: nat)
    requires i <= |s|
    requires forall a :: 0 <= a < |alts| ==> alts[a] != []
    requires PrefixFree(alts)
    ensures AltRunAt(s, i, alts, cls, minRun).Some? ==>
              AltRunShape(s[i..AltRunAt(s, i, alts, cls, minRun).value], alts, cls, minRun)
    ensures forall j :: i <= j <= |s| && AltRunShape(s[i..j], alts, cls, minRun) ==>
              AltRunAt(s, i, alts, cls, minRun).Some? && j <= AltRunAt(s, i, alts, cls, minRun).value
  {
    if AltRunAt(s, i, alts, cls, minRun).Some? {
      AltRunSound(s, i, alts, cls, minRun);
    }
    forall j | i <= j <= |s| && AltRunShape(s[i..j], alts, cls, minRun)
      ensures AltRunAt(s, i, alts, cls, minRun).Some? && j <= AltRunAt(s, i, alts, cls, minRun).value
    {
      AltRunComplete(s, i, alts, cls, minRun, j);
    }
  }

  /** What `AltRunAt` returns is a match of its shape. */
  lemma {:induction false} AltRunSound(s: string, i: nat, alts: seq<string>, cls: CharClass, minRun: nat)
    requires i <= |s|
    requires forall a :: 0 <= a < |alts| ==> alts[a] != []
    requires AltRunAt(s, i, alts, cls, minRun).Some?
    ensures AltRunShape(s[i..AltRunAt(s, i, alts, cls, minRun).value], alts, cls, minRun)
    decreases |alts|
  {
    var j := AltRunAt(s, i, alts, cls, minRun).value;
    var m := s[i..j];
    if OccursAt(s, alts[0], i) && i + |alts[0]| + minRun <= RunEnd(s, i + |alts[0]|, cls) {
      assert m[..|alts[0]|] == alts[0];
      assert AllIn(m, |alts[0]|, |m|, cls) by {
        forall q | |alts[0]| <= q < |m| ensures InClass(m[q], cls) {
          assert m[q] == s[i + q];
        }
      }
      assert 0 < |alts|;
    } else {
      var rest := alts[1..];
      AltRunSound(s, i, rest, cls, minRun);
      var k :| 0 <= k < |rest| && |rest[k]| + minRun <= |m| && IsPrefix(rest[k], m) && AllIn(m, |rest[k]|, |m|, cls);
      assert alts[k + 1] == rest[k];
    }
  }

  /** `EmailAt` returns the end of the longest email match at `i`, or nothing if none exists. */
  lemma EmailLongest(s: string, i: nat)
    requires i <= |s|
    ensures EmailAt(s, i).Some? ==> EmailShape(s[i..EmailAt(s, i).value])
    ensures forall j :: i <= j <= |s| && EmailShape(s[i..j]) ==> EmailAt(s, i).Some? && j <= EmailAt(s, i).value
  {
    var at := RunEnd(s, i, LocalChar);
    if EmailAt(s, i).Some? {
      var j := EmailAt(s, i).value;
      var m := s[i..j];
      var k := at - i;
      assert m[k] == '@';
      assert AllIn(m, 0, k, LocalChar) by {
        forall q | 0 <= q < k ensures InClass(m[q], LocalChar) { assert m[q] == s[i + q]; }
      }
      assert AllIn(m, k + 1, |m|, DomainChar) by {
        forall q | k + 1 <= q < |m| ensures InClass(m[q], DomainChar) { assert m[q] == s[i + q]; }
      }
    }
    forall j | i <= j <= |s| && EmailShape(s[i..j])
      ensures EmailAt(s, i).Some? && j <= EmailAt(s, i).value
    {
      var m := s[i..j];
      var k :| 0 < k < |m| - 1 && m[k] == '@' && AllIn(m, 0, k, LocalChar) && AllIn(m, k + 1, |m|, DomainChar);
      assert s[i + k] == '@' && !InClass(s[i + k], LocalChar);
      assert AllIn(s, i, i + k, LocalChar) by {
        forall q | i <= q < i + k ensures InClass(s[q], LocalChar) { assert s[q] == m[q - i]; }
      }
      RunEndCovers(s, i, i + k, LocalChar);
      assert at == i + k;
      assert AllIn(s, i + k + 1, j, DomainChar) by {
        forall q | i + k + 1 <= q < j ensures InClass(s[q], DomainChar) { assert s[q] == m[q - i]; }
      }
      RunEndCovers(s, i + k + 1, j, DomainChar);
    }
  }

  /**
    The regex engine's answer at position `i`: `MatchAt` returns the end of the
    longest substring starting at `i` that matches the pattern, and nothing
    when no substring starting at `i` matches.
  */
  lemma MatchAtIsLongest(p: Pattern, s: string, i: nat)
    requires i <= |s|
    ensures MatchAt(p, s, i).Some? ==> Shape(p, s[i..MatchAt(p, s, i).value])
    ensures forall j :: i <= j <= |s| && Shape(p, s[i..j]) ==> MatchAt(p, s, i).Some? && j <= MatchAt(p, s, i).value
  {
    match p
    case TwitterLink =>
      SocialPrefixesPrefixFree(TwitterDomain);
      AltRunLongest(s, i, SocialPrefixes(TwitterDomain), HandleChar, 0);
    case FacebookLink =>
      SocialPrefixesPrefixFree(FacebookDomain);
      AltRunLongest(s, i, SocialPrefixes(FacebookDomain), HandleChar, 0);
    case EmailAddress =>
      EmailLongest(s, i);
    case ProductLink =>
      AltRunLongest(s, i, [ProductPrefix], NotQuote, 1);
  }

  /** A match of `findall`: the half-open range `[start, end)` of the body. */
  datatype Span = Span(start: nat, end: nat)

  /** No match of `p` starts anywhere in `[from, to)`. */
  predicate NoMatchIn(p: Pattern, s: string, from: nat, to: int)
  {
    forall q :: from <= q < to && q <= |s| ==> MatchAt(p, s, q).None?
  }

  /**
    The matches `findall` reports when it scans `s` from `from`: each one starts
    where `MatchAt` succeeds, and they come in order without overlapping.
  */
  function ScanFrom(p: Pattern, s: string, from: nat): (r: seq<Span>)
    requires from <= |s|
    ensures forall k :: 0 <= k < |r| ==> from <= r[k].start < r[k].end <= |s|
    ensures forall k :: 0 <= k < |r| - 1 ==> r[k].end <= r[k + 1].start
    decreases |s| - from
  {
    if from == |s| then []
    else match MatchAt(p, s, from)
      case Some(j) =>
        var rest := ScanFrom(p, s, j);
        var r := [Span(from, j)] + rest;
        assert forall k :: 1 <= k < |r| ==> r[k] == rest[k - 1];
        r
      case None => ScanFrom(p, s, from + 1)
  }

  /** Every span of `r` starts where `MatchAt` succeeds and ends where that match ends. */
  predicate SpansMatch(p: Pattern, s: string, r: seq<Span>)
    decreases |r|
  {
    r == [] || (r[0].start <= |s| && MatchAt(p, s, r[0].start) == Some(r[0].end) && SpansMatch(p, s, r[1..]))
  }

  lemma {:induction false} SpansMatchAt(p: Pattern, s: string, r: seq<Span>, k: nat)
    requires SpansMatch(p, s, r) && k < |r|
    ensures r[k].start <= |s| && MatchAt(p, s, r[k].start) == Some(r[k].end)
    decreases |r|
  {
    if k > 0 {
      SpansMatchAt(p, s, r[1..], k - 1);
    }
  }

  lemma {:induction false} ScanFromSpansMatch(p: Pattern, s: string, from: nat)
    requires from <= |s|
    ensures SpansMatch(p, s, ScanFrom(p, s, from))
    decreases |s| - from
  {
    if from < |s| {
      var m := MatchAt(p, s, from);
      if m.Some? {
        ScanFromSpansMatch(p, s, m.value);
        ScanFromAfterMatch(p, s, from);
        assert ScanFrom(p, s, from)[1..] == ScanFrom(p, s, m.value);
      } else {
        ScanFromSpansMatch(p, s, from + 1);
        ScanFromNoMatch(p, s, from);
      }
    }
  }

  /** After a match at `from`, the scan resumes where that match ends. */
  lemma ScanFromAfterMatch(p: Pattern, s: string, from: nat)
    requires from <= |s| && MatchAt(p, s, from).Some?
    ensures ScanFrom(p, s, from) == [Span(from, MatchAt(p, s, from).value)] + ScanFrom(p, s, MatchAt(p, s, from).value)
  {
  }

  /** Each span starts where `MatchAt` succeeds and ends where that match ends. */
  lemma ScanFromMatches(p: Pattern, s: string, from: nat)
    requires from <= |s|
    ensures forall k :: 0 <= k < |ScanFrom(p, s, from)| ==>
              MatchAt(p, s, ScanFrom(p, s, from)[k].start) == Some(ScanFrom(p, s, from)[k].end)
  {
    ScanFromSpansMatch(p, s, from);
    forall k | 0 <= k < |ScanFrom(p, s, from)|
      ensures MatchAt(p, s, ScanFrom(p, s, from)[k].start) == Some(ScanFrom(p, s, from)[k].end)
    {
      SpansMatchAt(p, s, ScanFrom(p, s, from), k);
    }
  }

  /** Without a match at `from`, the scan moves on by one character. */
  lemma ScanFromNoMatch(p: Pattern, s: string, from: nat)
    requires from < |s| && MatchAt(p, s, from).None?
    ensures ScanFrom(p, s, from) == ScanFrom(p, s, from + 1)
  {
  }

  lemma NoMatchExtend(p: Pattern, s: string, from: nat, to: int)
    requires from < |s|
    requires MatchAt(p, s, from).None? && NoMatchIn(p, s, from + 1, to)
    ensures NoMatchIn(p, s, from, to)
  {
  }

  /**
    No match starts in `[from, r[0].start)`, nor in any gap between the end of
    one span of `r` and the start of the next, nor after the last span.
  */
  predicate GapsClear(p: Pattern, s: string, from: nat, r: seq<Span>)
    decreases |r|
  {
    if r == [] then NoMatchIn(p, s, from, |s|)
    else NoMatchIn(p, s, from, r[0].start) && GapsClear(p, s, r[0].end, r[1..])
  }

  /** The scan skips nothing: `findall` reports the leftmost match after each previous one. */
  lemma {:induction false} ScanFromSkipsNothing(p: Pattern, s: string, from: nat)
    requires from <= |s|
    ensures GapsClear(p, s, from, ScanFrom(p, s, from))
    decreases |s| - from
  {
    if from < |s| {
      var m := MatchAt(p, s, from);
      if m.Some? {
        ScanFromSkipsNothing(p, s, m.value);
        ScanFromAfterMatch(p, s, from);
        var r := ScanFrom(p, s, from);
        assert r[0] == Span(from, m.value) && r[1..] == ScanFrom(p, s, m.value);
      } else {
        ScanFromSkipsNothing(p, s, from + 1);
        ScanFromNoMatch(p, s, from);
        var r := ScanFrom(p, s, from + 1);
        NoMatchExtend(p, s, from, if r == [] then |s| else r[0].start);
      }
    }
  }

  /** `rgx.findall(s)`: the matched substrings, in order of appearance. */
  function FindAll(p: Pattern, s: string): (r: seq<string>)
    ensures |r| == |ScanFrom(p, s, 0)|
  {
    Pieces(s, ScanFrom(p, s, 0))
  }

  /** The substrings of `s` at `spans`, in order. */
  function Pieces(s: string, spans: seq<Span>): (r: seq<string>)
    requires forall k :: 0 <= k < |spans| ==> spans[k].start <= spans[k].end <= |s|
    ensures |r| == |spans|
    decreases |spans|
  {
    if spans == [] then [] else [s[spans[0].start..spans[0].end]] + Pieces(s, spans[1..])
  }

  lemma {:induction false} PiecesAt(s: string, spans: seq<Span>, k: nat)
    requires forall k :: 0 <= k < |spans| ==> spans[k].start <= spans[k].end <= |s|
    requires k < |spans|
    ensures Pieces(s, spans)[k] == s[spans[k].start..spans[k].end]
    decreases |spans|
  {
    if k > 0 {
      PiecesAt(s, spans[1..], k - 1);
    }
  }

  /** Every string `findall` reports matches the pattern as a whole and is the substring of the body at its span. */
  lemma FindAllSound(p: Pattern, s: string)
    ensures |FindAll(p, s)| == |ScanFrom(p, s, 0)|
    ensures forall k :: 0 <= k < |FindAll(p, s)| ==>
              Shape(p, FindAll(p, s)[k]) && OccursAt(s, FindAll(p, s)[k], ScanFrom(p, s, 0)[k].start)
  {
    var spans := ScanFrom(p, s, 0);
    var found := FindAll(p, s);
    ScanFromMatches(p, s, 0);
    forall k | 0 <= k < |found|
      ensures Shape(p, found[k]) && OccursAt(s, found[k], spans[k].start)
    {
      PiecesAt(s, spans, k);
      MatchAtIsLongest(p, s, spans[k].start);
      assert MatchAt(p, s, spans[k].start) == Some(spans[k].end);
    }
  }

  /** The same fact by membership: each reported match has the shape and occurs in the body. */
  lemma FindAllMatches(p: Pattern, s: string, m: string)
    requires m in FindAll(p, s)
    ensures Shape(p, m) && exists i :: OccursAt(s, m, i)
  {
    FindAllSound(p, s);
    var k :| 0 <= k < |FindAll(p, s)| && FindAll(p, s)[k] == m;
  }
}
