/**
  `ShopMediaScrapper.scrape_shop_contact_info` (script.py:120-139): visits every
  contact endpoint of a shop, collects what the Twitter, Facebook and e-mail
  patterns find on each page that answered 200, and resolves each signal to a
  single value. The three random tie-breaks are the caller-supplied `draws`,
  in the order the signals are resolved.
*/
module ContactInfo {
  import opened Wrappers
  import opened Patterns
  import opened Config
  import opened Web
  import opened Resolver

  /** What `findall` returns on one endpoint; nothing when it did not answer 200. */
  function PageMatches(get: Fetch, host: string, p: Pattern, endpoint: string): seq<string>
  {
    var response := get(Url(host, endpoint));
    if response.status != 200 then [] else FindAll(p, response.text)
  }

  /** The candidates of `p` gathered over `endpoints`, page after page. */
  function CandidatesIn(get: Fetch, host: string, p: Pattern, endpoints: seq<string>): seq<string>
  {
    if endpoints == [] then []
    else CandidatesIn(get, host, p, endpoints[..|endpoints| - 1]) + PageMatches(get, host, p, endpoints[|endpoints| - 1])
  }

  /** The candidates of `p` over all of `SCRAPING_ENDPOINTS`. */
  function Candidates(get: Fetch, host: string, p: Pattern): seq<string>
  {
    CandidatesIn(get, host, p, ScrapingEndpoints)
  }

  /** `m` is a match of `p` on endpoint `k` of `endpoints`, which answered 200. */
  predicate FoundOn(get: Fetch, host: string, p: Pattern, endpoints: seq<string>, k: int, m: string)
  {
    0 <= k < |endpoints| && get(Url(host, endpoints[k])).status == 200
    && m in FindAll(p, get(Url(host, endpoints[k])).text)
  }

  /** Every candidate is a match found on an endpoint that answered 200. */
  lemma {:induction false} CandidateSource(get: Fetch, host: string, p: Pattern, endpoints: seq<string>, m: string)
    requires m in CandidatesIn(get, host, p, endpoints)
    ensures exists k :: FoundOn(get, host, p, endpoints, k, m)
  {
    var last := |endpoints| - 1;
    var rest := endpoints[..last];
    if m in PageMatches(get, host, p, endpoints[last]) {
      assert FoundOn(get, host, p, endpoints, last, m);
    } else {
      CandidateSource(get, host, p, rest, m);
      var k :| FoundOn(get, host, p, rest, k, m);
      assert rest[k] == endpoints[k];
      assert FoundOn(get, host, p, endpoints, k, m);
    }
  }

  /** Every match found on an endpoint that answered 200 is a candidate. */
  lemma {:induction false} CandidateComplete(get: Fetch, host: string, p: Pattern, endpoints: seq<string>, k: nat, m: string)
    requires FoundOn(get, host, p, endpoints, k, m)
    ensures m in CandidatesIn(get, host, p, endpoints)
  {
    var last := |endpoints| - 1;
    var rest := endpoints[..last];
    assert CandidatesIn(get, host, p, endpoints)
           == CandidatesIn(get, host, p, rest) + PageMatches(get, host, p, endpoints[last]);
    if k < last {
      assert rest[k] == endpoints[k];
      CandidateComplete(get, host, p, rest, k, m);
    } else {
      assert m in PageMatches(get, host, p, endpoints[last]);
    }
  }

  /** When no endpoint answers 200 there are no candidates. */
  lemma {:induction false} AllDownNoCandidates(get: Fetch, host: string, p: Pattern, endpoints: seq<string>)
    requires forall k :: 0 <= k < |endpoints| ==> get(Url(host, endpoints[k])).status != 200
    ensures CandidatesIn(get, host, p, endpoints) == []
  {
    if endpoints != [] {
      var rest := endpoints[..|endpoints| - 1];
      assert forall k :: 0 <= k < |rest| ==> rest[k] == endpoints[k];
      AllDownNoCandidates(get, host, p, rest);
    }
  }

  /**
    A resolved contact value is a match of its pattern, as a whole, found on
    an endpoint that answered 200.
  */
  lemma ResolvedValueSource(get: Fetch, host: string, p: Pattern, pick: nat)
    ensures var v := Resolved(Candidates(get, host, p), ScoreOf(host), pick);
            v.Some? ==> Shape(p, v.value) && exists k :: FoundOn(get, host, p, ScrapingEndpoints, k, v.value)
  {
    var c := Candidates(get, host, p);
    var v := Resolved(c, ScoreOf(host), pick);
    if v.Some? {
      ResolvedIsBest(c, ScoreOf(host), pick);
      CandidateSource(get, host, p, ScrapingEndpoints, v.value);
      var k :| FoundOn(get, host, p, ScrapingEndpoints, k, v.value);
      FindAllMatches(p, get(Url(host, ScrapingEndpoints[k])).text, v.value);
    }
  }

  /** `{key: [] for key in STORE_INFO_REGEXES.keys()}` */
  function NoneFound(): (found: map<string, seq<string>>)
    ensures found.Keys == StoreInfoKeys
    ensures forall key :: key in found ==> found[key] == []
  {
    map key | key in StoreInfoKeys :: []
  }

  /** The inner loop of script.py:131-134 over `regexes`, on one page body. */
  function AddMatches(found: map<string, seq<string>>, text: string, regexes: seq<(string, Pattern)>): map<string, seq<string>>
  {
    if regexes == [] then found
    else
      var before := AddMatches(found, text, regexes[..|regexes| - 1]);
      var (key, pattern) := regexes[|regexes| - 1];
      before[key := (if key in before then before[key] else []) + FindAll(pattern, text)]
  }

  /** The collected candidates after the loop of script.py:123-134 has visited `endpoints`. */
  function Gathered(get: Fetch, host: string, endpoints: seq<string>): map<string, seq<string>>
  {
    if endpoints == [] then NoneFound()
    else
      var found := Gathered(get, host, endpoints[..|endpoints| - 1]);
      var response := get(Url(host, endpoints[|endpoints| - 1]));
      if response.status != 200 then found else AddMatches(found, response.text, StoreInfoRegexes)
  }

  /** Visiting endpoint `e` after the ones before it. */
  lemma GatheredStep(get: Fetch, host: string, endpoints: seq<string>, e: nat)
    requires e < |endpoints|
    ensures var response := get(Url(host, endpoints[e]));
            Gathered(get, host, endpoints[..e + 1])
            == if response.status != 200 then Gathered(get, host, endpoints[..e])
               else AddMatches(Gathered(get, host, endpoints[..e]), response.text, StoreInfoRegexes)
  {
    assert endpoints[..e + 1][..e] == endpoints[..e];
  }

  /** Adding matches keeps the keys. */
  lemma {:induction false} AddMatchesKeys(found: map<string, seq<string>>, text: string, regexes: seq<(string, Pattern)>)
    requires forall k :: 0 <= k < |regexes| ==> regexes[k].0 in found
    ensures AddMatches(found, text, regexes).Keys == found.Keys
  {
    if regexes != [] {
      var rest := regexes[..|regexes| - 1];
      assert forall k :: 0 <= k < |rest| ==> rest[k] == regexes[k];
      AddMatchesKeys(found, text, rest);
    }
  }

  /** The keys of `regexes` are pairwise different. */
  predicate DistinctKeys(regexes: seq<(string, Pattern)>)
  {
    forall a, b :: 0 <= a < b < |regexes| ==> regexes[a].0 != regexes[b].0
  }

  /** A page extends the candidates of each signal of `regexes` by that signal's matches. */
  lemma {:induction false} AddMatchesAt(found: map<string, seq<string>>, text: string, regexes: seq<(string, Pattern)>, k: nat)
    requires DistinctKeys(regexes) && k < |regexes| && regexes[k].0 in found
    ensures regexes[k].0 in AddMatches(found, text, regexes)
    ensures AddMatches(found, text, regexes)[regexes[k].0] == found[regexes[k].0] + FindAll(regexes[k].1, text)
  {
    var n := |regexes| - 1;
    var rest := regexes[..n];
    assert forall q :: 0 <= q < n ==> rest[q] == regexes[q];
    var before := AddMatches(found, text, rest);
    var (key, pattern) := regexes[n];
    assert AddMatches(found, text, regexes) == before[key := (if key in before then before[key] else []) + FindAll(pattern, text)];
    if k < n {
      assert DistinctKeys(rest);
      AddMatchesAt(found, text, rest, k);
      assert regexes[k].0 != key;
    } else {
      AddMatchesOthers(found, text, rest, key);
    }
  }

  /** A key that `regexes` does not name is left alone. */
  lemma {:induction false} AddMatchesOthers(found: map<string, seq<string>>, text: string, regexes: seq<(string, Pattern)>, key: string)
    requires forall k :: 0 <= k < |regexes| ==> regexes[k].0 != key
    ensures key in AddMatches(found, text, regexes) <==> key in found
    ensures key in found ==> AddMatches(found, text, regexes)[key] == found[key]
  {
    if regexes != [] {
      var rest := regexes[..|regexes| - 1];
      assert forall k :: 0 <= k < |rest| ==> rest[k] == regexes[k];
      AddMatchesOthers(found, text, rest, key);
    }
  }

  /** One page extends the candidates of each signal by that signal's matches and nothing else. */
  lemma AddMatchesEach(found: map<string, seq<string>>, text: string)
    requires found.Keys == StoreInfoKeys
    ensures var after := AddMatches(found, text, StoreInfoRegexes);
            after.Keys == StoreInfoKeys
            && after["twitter"] == found["twitter"] + FindAll(TwitterLink, text)
            && after["facebook"] == found["facebook"] + FindAll(FacebookLink, text)
            && after["email"] == found["email"] + FindAll(EmailAddress, text)
  {
    StoreInfoKeysDistinct();
    assert StoreInfoRegexes[0].0 in found && StoreInfoRegexes[1].0 in found && StoreInfoRegexes[2].0 in found;
    AddMatchesAt(found, text, StoreInfoRegexes, 0);
    AddMatchesAt(found, text, StoreInfoRegexes, 1);
    AddMatchesAt(found, text, StoreInfoRegexes, 2);
    AddMatchesKeys(found, text, StoreInfoRegexes);
  }

  lemma AddMatchesStep(found: map<string, seq<string>>, text: string, j: nat)
    requires found.Keys == StoreInfoKeys && j < |StoreInfoRegexes|
    ensures var before := AddMatches(found, text, StoreInfoRegexes[..j]);
            var (key, pattern) := StoreInfoRegexes[j];
            key in before
            && AddMatches(found, text, StoreInfoRegexes[..j + 1]) == before[key := before[key] + FindAll(pattern, text)]
  {
    StoreInfoKeysDistinct();
    AddMatchesKeys(found, text, StoreInfoRegexes[..j]);
    assert StoreInfoRegexes[..j + 1][..j] == StoreInfoRegexes[..j];
  }

  /** The collected candidates of each signal are its candidates over the visited endpoints. */
  lemma {:induction false} GatheredCandidates(get: Fetch, host: string, endpoints: seq<string>)
    ensures var found := Gathered(get, host, endpoints);
            found.Keys == StoreInfoKeys
            && found["twitter"] == CandidatesIn(get, host, TwitterLink, endpoints)
            && found["facebook"] == CandidatesIn(get, host, FacebookLink, endpoints)
            && found["email"] == CandidatesIn(get, host, EmailAddress, endpoints)
  {
    if endpoints == [] {
      assert "twitter" in StoreInfoKeys && "facebook" in StoreInfoKeys && "email" in StoreInfoKeys;
    } else {
      var rest := endpoints[..|endpoints| - 1];
      GatheredCandidates(get, host, rest);
      var response := get(Url(host, endpoints[|endpoints| - 1]));
      if response.status == 200 {
        AddMatchesEach(Gathered(get, host, rest), response.text);
      }
    }
  }

  /**
    The loop of script.py:136-137: each signal of `regexes`, in order, resolved
    with the draw of the same position.
  */
  function ResolveAll(found: map<string, seq<string>>, rank: string -> nat, draws: seq<nat>,
                      regexes: seq<(string, Pattern)>): map<string, Option<string>>
    requires |regexes| <= |draws|
  {
    if regexes == [] then map[]
    else
      var n := |regexes| - 1;
      var key := regexes[n].0;
      ResolveAll(found, rank, draws, regexes[..n])[key := Resolved(if key in found then found[key] else [], rank, draws[n])]
  }

  lemma ResolveAllStep(found: map<string, seq<string>>, rank: string -> nat, draws: seq<nat>, j: nat)
    requires j < |StoreInfoRegexes| <= |draws|
    requires StoreInfoRegexes[j].0 in found
    ensures ResolveAll(found, rank, draws, StoreInfoRegexes[..j + 1])
            == ResolveAll(found, rank, draws, StoreInfoRegexes[..j])[StoreInfoRegexes[j].0 :=
                 Resolved(found[StoreInfoRegexes[j].0], rank, draws[j])]
  {
    assert StoreInfoRegexes[..j + 1][..j] == StoreInfoRegexes[..j];
  }

  /** Each signal of `regexes` is resolved with the draw at its own position. */
  lemma {:induction false} ResolveAllAt(found: map<string, seq<string>>, rank: string -> nat, draws: seq<nat>,
                                        regexes: seq<(string, Pattern)>, k: nat)
    requires |regexes| <= |draws| && DistinctKeys(regexes) && k < |regexes|
    ensures var output := ResolveAll(found, rank, draws, regexes);
            var key := regexes[k].0;
            key in output && output[key] == Resolved(if key in found then found[key] else [], rank, draws[k])
  {
    var n := |regexes| - 1;
    var rest := regexes[..n];
    if k < n {
      assert rest[k] == regexes[k];
      ResolveAllAt(found, rank, draws, rest, k);
    }
  }

  /** The resolved dictionary has exactly the keys of `regexes`. */
  lemma {:induction false} ResolveAllKeys(found: map<string, seq<string>>, rank: string -> nat, draws: seq<nat>,
                                          regexes: seq<(string, Pattern)>)
    requires |regexes| <= |draws|
    ensures ResolveAll(found, rank, draws, regexes).Keys == set k | 0 <= k < |regexes| :: regexes[k].0
  {
    if regexes != [] {
      var n := |regexes| - 1;
      var rest := regexes[..n];
      ResolveAllKeys(found, rank, draws, rest);
      assert forall k :: 0 <= k < n ==> rest[k] == regexes[k];
      assert (set k | 0 <= k < |regexes| :: regexes[k].0) == (set k | 0 <= k < n :: rest[k].0) + {regexes[n].0};
    }
  }

  lemma ResolveAllEach(found: map<string, seq<string>>, rank: string -> nat, draws: seq<nat>)
    requires |draws| == 3 && found.Keys == StoreInfoKeys
    ensures var output := ResolveAll(found, rank, draws, StoreInfoRegexes);
            output.Keys == StoreInfoKeys
            && output["twitter"] == Resolved(found["twitter"], rank, draws[0])
            && output["facebook"] == Resolved(found["facebook"], rank, draws[1])
            && output["email"] == Resolved(found["email"], rank, draws[2])
  {
    StoreInfoKeysDistinct();
    ResolveAllKeys(found, rank, draws, StoreInfoRegexes);
    ResolveAllAt(found, rank, draws, StoreInfoRegexes, 0);
    ResolveAllAt(found, rank, draws, StoreInfoRegexes, 1);
    ResolveAllAt(found, rank, draws, StoreInfoRegexes, 2);
  }

  /**
    `scrape_shop_contact_info(host)`: a dictionary with exactly the keys
    twitter, facebook and email, each holding what the resolver picks among
    that signal's candidates, or `None` when nothing was found.
  */
  method ScrapeShopContactInfo(get: Fetch, host: string, draws: seq<nat>) returns (output: map<string, Option<string>>)
    requires |draws| == 3
    ensures output.Keys == StoreInfoKeys
    ensures output["twitter"] == Resolved(Candidates(get, host, TwitterLink), ScoreOf(host), draws[0])
    ensures output["facebook"] == Resolved(Candidates(get, host, FacebookLink), ScoreOf(host), draws[1])
    ensures output["email"] == Resolved(Candidates(get, host, EmailAddress), ScoreOf(host), draws[2])
  {
    var found := NoneFound();

    for e := 0 to |ScrapingEndpoints|
      invariant found == Gathered(get, host, ScrapingEndpoints[..e])
    {
      ghost var before := found;
      var response := get(Url(host, ScrapingEndpoints[e]));
      GatheredStep(get, host, ScrapingEndpoints, e);
      if response.status != 200 {
        continue;
      }
      GatheredCandidates(get, host, ScrapingEndpoints[..e]);
      for j := 0 to |StoreInfoRegexes|
        invariant found == AddMatches(before, response.text, StoreInfoRegexes[..j])
      {
        var (key, pattern) := StoreInfoRegexes[j];
        AddMatchesStep(before, response.text, j);
        // `findall` always returns a list, so the `is not None` test always passes.
        var matches := FindAll(pattern, response.text);
        found := found[key := found[key] + matches];
      }
      WholePrefix(StoreInfoRegexes);
    }
    WholePrefix(ScrapingEndpoints);
    GatheredCandidates(get, host, ScrapingEndpoints);

    StoreInfoKeysDistinct();

    output := map[];
    for j := 0 to |StoreInfoRegexes|
      invariant output == ResolveAll(found, ScoreOf(host), draws, StoreInfoRegexes[..j])
    {
      var key := StoreInfoRegexes[j].0;
      assert key in StoreInfoKeys;
      var resolved := SelectAccurateSocials(found[key], host, draws[j]);
      ResolveAllStep(found, ScoreOf(host), draws, j);
      output := output[key := resolved];
    }
    WholePrefix(StoreInfoRegexes);
    ResolveAllEach(found, ScoreOf(host), draws);
  }

  lemma WholePrefix<T>(s: seq<T>)
    ensures s[..|s|] == s
  {
  }

  /** When no endpoint answers 200, every contact value is `None`. */
  lemma AllDownAllNone(get: Fetch, host: string, draws: seq<nat>)
    requires |draws| == 3
    requires forall k :: 0 <= k < |ScrapingEndpoints| ==> get(Url(host, ScrapingEndpoints[k])).status != 200
    ensures Resolved(Candidates(get, host, TwitterLink), ScoreOf(host), draws[0]) == None
    ensures Resolved(Candidates(get, host, FacebookLink), ScoreOf(host), draws[1]) == None
    ensures Resolved(Candidates(get, host, EmailAddress), ScoreOf(host), draws[2]) == None
  {
    AllDownNoCandidates(get, host, TwitterLink, ScrapingEndpoints);
    AllDownNoCandidates(get, host, FacebookLink, ScrapingEndpoints);
    AllDownNoCandidates(get, host, EmailAddress, ScrapingEndpoints);
  }
}
