/**
  `ShopMediaScrapper._select_accurate_socials` (script.py:84-118): of all the
  links found for one signal, pick one whose normalised text shares the most
  scoring words with the shop's host name. The random tie-break
  `random.randint(0, len(winners) - 1)` is a caller-supplied number `pick`,
  taken modulo the number of winners, so that it ranges over exactly the
  indices `randint` can return.
*/
module Resolver {
  import opened Wrappers
  import opened Text

  /** The scoring words: the host up to its first `.`, split on `-` (script.py:94). */
  function Tokens(host: string): (tokens: seq<string>)
    ensures |tokens| >= 1
    ensures forall k :: 0 <= k < |tokens| ==> '-' !in tokens[k]
  {
    Split(SliceTo(host, Find(host, ".")), '-')
  }

  /** How many entries of `tokens` occur in `text`; a repeated entry counts each time. */
  function CountContained(tokens: seq<string>, text: string): (n: nat)
    ensures n <= |tokens|
  {
    if tokens == [] then 0
    else CountContained(tokens[..|tokens| - 1], text) + (if Contains(text, tokens[|tokens| - 1]) then 1 else 0)
  }

  /** The score of one candidate link against the host (script.py:101-105). */
  function Score(link: string, host: string): (n: nat)
    ensures n <= |Tokens(host)|
  {
    CountContained(Tokens(host), Sanitize(link))
  }

  /** The score function of one host, as the scorer applies it to every candidate. */
  function ScoreOf(host: string): string -> nat
  {
    link => Score(link, host)
  }

  /** The candidates whose rank is `score`, in the order they were appended (script.py:107-110). */
  function Bucket(socials: seq<string>, rank: string -> nat, score: nat): seq<string>
  {
    if socials == [] then []
    else
      var last := socials[|socials| - 1];
      Bucket(socials[..|socials| - 1], rank, score) + (if rank(last) == score then [last] else [])
  }

  /** The highest rank of any candidate (0 when there is none). */
  function MaxScore(socials: seq<string>, rank: string -> nat): (m: nat)
    ensures forall k :: 0 <= k < |socials| ==> rank(socials[k]) <= m
    ensures socials != [] ==> exists k :: 0 <= k < |socials| && rank(socials[k]) == m
  {
    if socials == [] then 0
    else
      var rest := socials[..|socials| - 1];
      var last := rank(socials[|socials| - 1]);
      var m := MaxScore(rest, rank);
      assert forall k :: 0 <= k < |rest| ==> rest[k] == socials[k];
      if m < last then last else m
  }

  /** `winners` of script.py:117: the bucket of the highest rank. */
  function Winners(socials: seq<string>, rank: string -> nat): seq<string>
  {
    Bucket(socials, rank, MaxScore(socials, rank))
  }

  /** There is a winner whenever there is a candidate. */
  lemma WinnersNonEmpty(socials: seq<string>, rank: string -> nat)
    requires socials != []
    ensures Winners(socials, rank) != []
  {
    var m := MaxScore(socials, rank);
    var k :| 0 <= k < |socials| && rank(socials[k]) == m;
    BucketMembers(socials, rank, m);
  }

  lemma ModBelow(a: nat, n: nat)
    requires a < n
    ensures a % n == a
  {
  }

  /** What the resolver returns when the random draw is `pick`. */
  function Resolved(socials: seq<string>, rank: string -> nat, pick: nat): (r: Option<string>)
    ensures r.None? <==> socials == []
    ensures r.Some? ==> r.value in Winners(socials, rank)
  {
    if socials == [] then None
    else
      WinnersNonEmpty(socials, rank);
      var winners := Winners(socials, rank);
      Some(winners[pick % |winners|])
  }

  /** Python's `max` over a non-empty set of scores. */
  function MaxOf(keys: set<nat>): (m: nat)
    requires keys != {}
    ensures m in keys && forall k :: k in keys ==> k <= m
  {
    HasMax(keys);
    var m :| m in keys && forall k :: k in keys ==> k <= m;
    m
  }

  lemma {:induction false} HasMax(keys: set<nat>)
    requires keys != {}
    ensures exists m :: m in keys && forall k :: k in keys ==> k <= m
    decreases |keys|
  {
    var x :| x in keys;
    if keys != {x} {
      var rest := keys - {x};
      HasMax(rest);
      var m :| m in rest && forall k :: k in rest ==> k <= m;
      var top := if x <= m then m else x;
      forall k | k in keys ensures k <= top {
        if k != x { assert k in rest; }
      }
      assert top in keys;
    } else {
      assert forall k :: k in keys ==> k <= x;
    }
  }

  /** A link is in the bucket of `score` exactly when it is a candidate with that rank. */
  lemma {:induction false} BucketMembers(socials: seq<string>, rank: string -> nat, score: nat)
    ensures forall c :: c in Bucket(socials, rank, score) <==> c in socials && rank(c) == score
  {
    if socials != [] {
      var rest := socials[..|socials| - 1];
      BucketMembers(rest, rank, score);
      assert socials == rest + [socials[|socials| - 1]];
    }
  }

  /** Duplicates are kept: a link occurs in its bucket as often as among the candidates. */
  lemma {:induction false} BucketMultiplicity(socials: seq<string>, rank: string -> nat, score: nat, c: string)
    ensures multiset(Bucket(socials, rank, score))[c] == if rank(c) == score then multiset(socials)[c] else 0
  {
    if socials != [] {
      var rest := socials[..|socials| - 1];
      BucketMultiplicity(rest, rank, score, c);
      assert socials == rest + [socials[|socials| - 1]];
    }
  }

  /**
    The resolver returns `None` exactly when there are no candidates; otherwise
    it returns one of the candidates, unchanged, and no candidate ranks higher.
  */
  lemma ResolvedIsBest(socials: seq<string>, rank: string -> nat, pick: nat)
    ensures Resolved(socials, rank, pick).None? <==> socials == []
    ensures Resolved(socials, rank, pick).Some? ==>
              var v := Resolved(socials, rank, pick).value;
              v in socials && forall c :: c in socials ==> rank(c) <= rank(v)
  {
    if socials != [] {
      var v := Resolved(socials, rank, pick).value;
      BucketMembers(socials, rank, MaxScore(socials, rank));
      assert v in Winners(socials, rank);
      forall c | c in socials ensures rank(c) <= rank(v) {
        var k :| 0 <= k < |socials| && socials[k] == c;
      }
    }
  }

  /** Every candidate with the highest rank is returned for some tie-break index. */
  lemma EveryBestIsReachable(socials: seq<string>, rank: string -> nat, c: string)
    requires c in socials
    requires forall d :: d in socials ==> rank(d) <= rank(c)
    ensures exists pick: nat :: pick < |Winners(socials, rank)| && Resolved(socials, rank, pick) == Some(c)
  {
    var m := MaxScore(socials, rank);
    var k :| 0 <= k < |socials| && socials[k] == c;
    var i :| 0 <= i < |socials| && rank(socials[i]) == m;
    assert rank(c) == m;
    BucketMembers(socials, rank, m);
    assert c in Winners(socials, rank);
    var pick: nat :| pick < |Winners(socials, rank)| && Winners(socials, rank)[pick] == c;
    ModBelow(pick, |Winners(socials, rank)|);
    assert Resolved(socials, rank, pick) == Some(c);
  }

  /**
    Duplicates weigh more: a best candidate occurs among the winners as often as
    it was found, so more tie-break indices return it.
  */
  lemma DuplicatesWeighMore(socials: seq<string>, rank: string -> nat, c: string)
    requires c in socials
    requires forall d :: d in socials ==> rank(d) <= rank(c)
    ensures multiset(Winners(socials, rank))[c] == multiset(socials)[c]
  {
    var m := MaxScore(socials, rank);
    var k :| 0 <= k < |socials| && socials[k] == c;
    var i :| 0 <= i < |socials| && rank(socials[i]) == m;
    assert rank(c) == m;
    BucketMultiplicity(socials, rank, m, c);
  }

  /** A candidate scores the full number of tokens exactly when every token occurs in it. */
  lemma {:induction false} CountContainedAll(tokens: seq<string>, text: string)
    ensures CountContained(tokens, text) == |tokens| <==> forall k :: 0 <= k < |tokens| ==> Contains(text, tokens[k])
    ensures CountContained(tokens, text) == 0 <==> forall k :: 0 <= k < |tokens| ==> !Contains(text, tokens[k])
  {
    if tokens != [] {
      var rest := tokens[..|tokens| - 1];
      CountContainedAll(rest, text);
      assert forall k :: 0 <= k < |rest| ==> rest[k] == tokens[k];
    }
  }

  /** An empty scoring word (a host starting with `.`, or `a--b`) is found in every candidate. */
  lemma EmptyTokenScores(host: string, link: string)
    requires "" in Tokens(host)
    ensures Score(link, host) >= 1
  {
    var tokens := Tokens(host);
    var k :| 0 <= k < |tokens| && tokens[k] == "";
    ContainsEmpty(Sanitize(link));
    CountContainedAll(tokens, Sanitize(link));
  }

  /**
    Where the scoring words come from: joined back with `-` they give the part
    of the host before its first `.`; a host without a `.` loses its last
    character instead, because `find` returns -1.
  */
  lemma TokensFromHost(host: string)
    ensures var source := Join(Tokens(host), '-');
      && ('.' in host ==> |source| < |host| && source == host[..|source|] && host[|source|] == '.' && '.' !in source)
      && ('.' !in host ==> source == host[..if host == [] then 0 else |host| - 1])
    ensures forall k :: 0 <= k < |Tokens(host)| ==> '-' !in Tokens(host)[k]
  {
    var dot := Find(host, ".");
    if '.' in host {
      var q :| 0 <= q < |host| && host[q] == '.';
      assert host[q..q + 1] == ".";
      assert OccursAt(host, ".", q);
      assert host[dot..dot + 1] == ".";
      forall j | 0 <= j < dot ensures host[j] != '.' {
        assert !OccursAt(host, ".", j);
        assert host[j..j + 1] == [host[j]];
      }
    } else {
      forall j | 0 <= j < |host| ensures !OccursAt(host, ".", j) {
        assert host[j..j + 1] == [host[j]];
      }
    }
  }

  /** A host that starts with `.` has the single scoring word `""`, so every candidate ties. */
  lemma DotHostTiesAll(host: string, socials: seq<string>)
    requires host != [] && host[0] == '.'
    ensures Tokens(host) == [""]
    ensures Winners(socials, ScoreOf(host)) == socials
  {
    DotHostTokens(host);
    var rank := ScoreOf(host);
    forall c ensures rank(c) == 1 {
      EmptyWordScoresOne(Sanitize(c));
    }
    AllTie(socials, rank, 1);
  }

  lemma DotHostTokens(host: string)
    requires host != [] && host[0] == '.'
    ensures Tokens(host) == [""]
  {
    assert OccursAt(host, ".", 0);
    assert SliceTo(host, Find(host, ".")) == "";
    assert Split("", '-') == [""];
  }

  lemma EmptyWordScoresOne(text: string)
    ensures CountContained([""], text) == 1
  {
    ContainsEmpty(text);
    assert CountContained([""], text) == CountContained([], text) + 1;
  }

  /** When every candidate has the same rank, every candidate is a winner. */
  lemma AllTie(socials: seq<string>, rank: string -> nat, score: nat)
    requires forall c :: rank(c) == score
    ensures Winners(socials, rank) == socials
  {
    if socials != [] {
      var k :| 0 <= k < |socials| && rank(socials[k]) == MaxScore(socials, rank);
      BucketAll(socials, rank, score);
    }
  }

  lemma {:induction false} BucketAll(socials: seq<string>, rank: string -> nat, score: nat)
    requires forall c :: rank(c) == score
    ensures Bucket(socials, rank, score) == socials
  {
    if socials != [] {
      var rest := socials[..|socials| - 1];
      BucketAll(rest, rank, score);
      assert socials == rest + [socials[|socials| - 1]];
    }
  }

  /**
    `_select_accurate_socials(socials_list, host)`: scores every candidate,
    buckets the original strings by score in `score_dict`, and returns the
    `pick`-th entry of the highest bucket, or `None` when there are no candidates.
  */
  method SelectAccurateSocials(socials: seq<string>, host: string, pick: nat) returns (r: Option<string>)
    ensures r == Resolved(socials, ScoreOf(host), pick)
  {
    ghost var rank := ScoreOf(host);
    var scoringWords := Tokens(host);
    var scoreDict: map<nat, seq<string>> := map[];
    // Computed and never used, as in the source.
    var uniqueSocials := set link | link in socials;

    for n := 0 to |socials|
      invariant scoreDict == GroupBy(socials[..n], rank)
    {
      var link := socials[n];
      var sanitized := Sanitize(link);
      var score := CountWords(sanitized, scoringWords);
      assert score == rank(link);
      scoreDict := AppendToBucket(scoreDict, score, link);
      GroupByStep(socials, rank, n);
    }
    assert socials[..|socials|] == socials;
    GroupByGroups(socials, rank);
    NonEmptyDict(socials, rank, scoreDict);

    if scoreDict == map[] {
      r := None;
    } else {
      var top := MaxOf(scoreDict.Keys);
      MaxKeyIsMaxScore(socials, rank, scoreDict, top);
      var winners := scoreDict[top];
      assert winners == Winners(socials, rank);
      assert socials != [];
      r := Some(winners[pick % |winners|]);
    }
  }

  /** The inner loop of script.py:103-105: how many scoring words `text` contains. */
  method CountWords(text: string, scoringWords: seq<string>) returns (score: nat)
    ensures score == CountContained(scoringWords, text)
  {
    score := 0;
    for w := 0 to |scoringWords|
      invariant score == CountContained(scoringWords[..w], text)
    {
      CountContainedStep(scoringWords, w, text);
      if Find(text, scoringWords[w]) > -1 {
        score := score + 1;
      }
    }
    assert scoringWords[..|scoringWords|] == scoringWords;
  }

  lemma CountContainedStep(tokens: seq<string>, w: nat, text: string)
    requires w < |tokens|
    ensures CountContained(tokens[..w + 1], text)
            == CountContained(tokens[..w], text) + (if Contains(text, tokens[w]) then 1 else 0)
  {
    assert tokens[..w + 1][..w] == tokens[..w];
  }

  /** `score_dict` maps every rank that occurs to its bucket, and nothing else. */
  ghost predicate Grouped(scoreDict: map<nat, seq<string>>, socials: seq<string>, rank: string -> nat)
  {
    forall s :: (s in scoreDict <==> Bucket(socials, rank, s) != [])
                && (s in scoreDict ==> scoreDict[s] == Bucket(socials, rank, s))
  }

  /** `score_dict` as the loop of script.py:100-110 fills it. */
  function GroupBy(socials: seq<string>, rank: string -> nat): map<nat, seq<string>>
  {
    if socials == [] then map[]
    else
      var d := GroupBy(socials[..|socials| - 1], rank);
      var last := socials[|socials| - 1];
      d[rank(last) := (if rank(last) in d then d[rank(last)] else []) + [last]]
  }

  lemma GroupByStep(socials: seq<string>, rank: string -> nat, n: nat)
    requires n < |socials|
    ensures GroupBy(socials[..n + 1], rank) ==
              var d := GroupBy(socials[..n], rank);
              var s := rank(socials[n]);
              d[s := (if s in d then d[s] else []) + [socials[n]]]
  {
    assert socials[..n + 1][..n] == socials[..n];
  }

  /**
    script.py:107-110: creates the bucket of `score` when it is missing, then
    appends `link` to it; every other bucket is unchanged.
  */
  method AppendToBucket(scoreDict: map<nat, seq<string>>, score: nat, link: string) returns (updated: map<nat, seq<string>>)
    ensures updated == scoreDict[score := (if score in scoreDict then scoreDict[score] else []) + [link]]
  {
    updated := scoreDict;
    if score !in updated {
      updated := updated[score := []];
    }
    updated := updated[score := updated[score] + [link]];
  }

  /** The filled dictionary maps every rank that occurs to its bucket, and nothing else. */
  lemma {:induction false} GroupByGroups(socials: seq<string>, rank: string -> nat)
    ensures Grouped(GroupBy(socials, rank), socials, rank)
  {
    if socials != [] {
      var rest := socials[..|socials| - 1];
      GroupByGroups(rest, rank);
    }
  }

  /** A candidate always leaves a bucket behind. */
  lemma NonEmptyDict(socials: seq<string>, rank: string -> nat, scoreDict: map<nat, seq<string>>)
    requires Grouped(scoreDict, socials, rank)
    ensures socials != [] ==> rank(socials[0]) in scoreDict
  {
    if socials != [] {
      BucketMembers(socials, rank, rank(socials[0]));
    }
  }

  /** The largest key of the filled `score_dict` is the highest rank. */
  lemma MaxKeyIsMaxScore(socials: seq<string>, rank: string -> nat, scoreDict: map<nat, seq<string>>, top: nat)
    requires Grouped(scoreDict, socials, rank)
    requires top in scoreDict && forall k :: k in scoreDict ==> k <= top
    ensures top == MaxScore(socials, rank)
  {
    var m := MaxScore(socials, rank);
    BucketMembers(socials, rank, top);
    BucketMembers(socials, rank, m);
    var b := Bucket(socials, rank, top);
    assert b[0] in b;
    var i :| 0 <= i < |socials| && socials[i] == b[0];
    var j :| 0 <= j < |socials| && rank(socials[j]) == m;
    assert socials[j] in Bucket(socials, rank, m);
  }

  /** A link without `%`, surrounding whitespace or capitals is its own sanitised form. */
  lemma SanitizeClean(link: string)
    requires '%' !in link
    requires link != [] && !IsSpace(link[0]) && !IsSpace(link[|link| - 1])
    requires forall k :: 0 <= k < |link| ==> !IsUpper(link[k])
    ensures Sanitize(link) == link
  {
    assert TrimStart(link) == link;
    assert TrimEnd(link) == link;
    assert Strip(link) == link;
    assert Lower(link) == link;
  }

  /**
    A candidate that outscores every other one is returned whatever the draw:
    randomness only matters among equal scores.
  */
  lemma UniqueBestWins(socials: seq<string>, rank: string -> nat, c: string, pick: nat)
    requires c in socials
    requires forall d :: d in socials && d != c ==> rank(d) < rank(c)
    ensures Resolved(socials, rank, pick) == Some(c)
  {
    var m := MaxScore(socials, rank);
    var k :| 0 <= k < |socials| && socials[k] == c;
    var i :| 0 <= i < |socials| && rank(socials[i]) == m;
    assert rank(c) == m;
    BucketMembers(socials, rank, m);
    WinnersNonEmpty(socials, rank);
    var winners := Winners(socials, rank);
    assert winners[pick % |winners|] in winners;
  }
}
