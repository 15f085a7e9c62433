# ShopMediaScrapper core, modelled in Dafny

`ShopMediaScrapper` (script.py) visits Shopify-style shops. For each shop host it:

- **Contact scraping** (`scrape_shop_contact_info`): probes five fixed endpoints and collects every Twitter link, Facebook link and e-mail address found on the pages that answered 200. It then resolves each of the three signals to one value with `_select_accurate_socials`.
- **Resolution** (`_select_accurate_socials`): scores each candidate by how many of the host's scoring words its normalised text contains. It keeps the highest-scoring bucket and picks one member of that bucket at random. The scoring words are the part of the host before the first `.`, split on `-`.
- **Product scraping** (`scrape_shop_product_info`): reads the catalogue listing `/collections/all` and keeps up to five distinct product links. For each link it reads the title and image source from that product's `.json` document.

The model is split into these modules:

| module | file | contents |
|---|---|---|
| `Wrappers` | wrappers.dfy | `Option` |
| `Text` | text.dfy | the Python string operations the code relies on: `find`, `split`, slicing with a negative stop, `unquote`, `strip`, `lower`, `str(int)` |
| `Patterns` | patterns.dfy | the four regular expressions as scanners, and `findall` |
| `Config` | config.dfy | the class constants and the output column names |
| `Web` | web.dfy | responses, parsed JSON, and `requests.get` as a total function `Fetch` |
| `Resolver` | resolver.dfy | `_select_accurate_socials` |
| `ContactInfo` | contact.dfy | `scrape_shop_contact_info` |
| `ProductInfo` | products.dfy | `scrape_shop_product_info` |

The three scrapers are imperative methods with the source's loops. Each one is proved equal to a recursive specification function, such as `Resolved`, `Candidates` or `Slots`. The lemmas state what the source promises about those functions.

Two kinds of nondeterminism become inputs:

- **`random.randint(0, len(winners) - 1)`** becomes a number `pick` supplied by the caller. The model uses `pick` modulo the number of winners, so every index `randint` can return is reachable and nothing else is. `Resolver.EveryBestIsReachable` proves this.
- **Set iteration order** of `[*{*matches}]` becomes an arbitrary choice (`:|`). The retained links are therefore specified by `ProductInfo.Retained` (distinct, drawn from the matches, the right count) and not by one fixed order.

Three points of the code's behaviour that the model keeps:

- **Listing that does not answer 200.** `scrape_shop_product_info` returns `{}` (script.py:50-52). The empty product cells of the output come from `csv.DictWriter`'s default `restval`, outside the core.
- **Collecting candidates.** The contact scraper collects every match from every endpoint that answers 200, and only then resolves each signal (script.py:123-137). There is no early exit.
- **Title without an image.** A product document with a title but no `product.image.src` keeps the title: the slot is `(title, None)` (script.py:74-77). The title is assigned before the image lookup raises.

## Model

| member | source | states |
|---|---|---|
| Text.FindFrom | script.py:94 | the scan behind `str.find`, which `host.find('.')` and `link.find(word)` start at index 0: from an index it returns the least position at or after it where the pattern occurs, or -1 when there is none |
| Text.Find | script.py:94 | `host.find('.')` is -1 exactly when there is no occurrence; otherwise it is the first occurrence |
| Text.ContainsIff | script.py:104 | `text.find(word) > -1` holds exactly when `word` occurs somewhere in `text` |
| Text.ContainsEmpty | script.py:104 | every text contains the empty scoring word |
| Text.SliceTo | script.py:94 | `host[:stop]` is a prefix of `host`: of length `stop` when `0 <= stop <= len`, all of `host` when `stop` is larger, `len + stop` characters for `-len <= stop < 0`, and empty below that |
| Text.Split | script.py:94 | `split('-')` gives at least one part, no part contains `-`, and joining the parts with `-` gives back the input |
| Text.TrimStart | script.py:102 | `lstrip()` removes exactly the leading whitespace: the result is a suffix, everything cut is whitespace, and it does not start with whitespace |
| Text.TrimEnd | script.py:102 | `rstrip()` removes exactly the trailing whitespace: the result is a prefix, everything cut is whitespace, and it does not end with whitespace |
| Text.Strip | script.py:102 | `strip()` returns a piece of its input with only whitespace before and after it, which neither starts nor ends with whitespace |
| Text.TrimmedUnique | script.py:102 | there is only one such piece, so `strip()` is determined by that description |
| Text.LowerChar | script.py:102 | `A`-`Z` move 32 code points down to `a`-`z`; every other character is kept |
| Text.Lower | script.py:102 | `lower()` keeps the length, turns each `A`-`Z` into its lower-case letter and keeps every other character |
| Text.Unquote | script.py:102 | `unquote` never lengthens a string, leaves a string without `%` unchanged, decodes an ASCII `%XX` escape at the start and copies a first character that starts no escape |
| Text.UnquoteEscape | script.py:102 | `unquote` decodes every string of ASCII characters written entirely as `%XX` escapes back to that string |
| Text.Sanitize | script.py:102 | the normalised link is the character-by-character lower-case of the unquoted link with the whitespace at both ends removed; it has no upper-case letter and no whitespace at either end |
| Text.NatToString | script.py:79-80 | `str(i)` is a non-empty string of decimal digits, one digit long exactly when `i < 10` |
| Text.NatToStringInjective | script.py:79-80 | different indices give different numerals, so different column names |
| Patterns.MatchAt | script.py:24-27 | the regular expressions' match at a position: when there is one it ends after that position and within the text |
| Patterns.SocialPrefixesPrefixFree | script.py:24-25 | the four literal prefixes of the social-link patterns exclude each other, so the first alternative that occurs is the only one |
| Patterns.AltRunLongest | script.py:24-25 | the scanner for "one of these prefixes, then a run of a class" returns the end of the longest match at a position, and nothing when no match starts there |
| Patterns.EmailLongest | script.py:26 | the e-mail scanner returns the end of the longest match of `[a-z0-9-.]+@[a-z.]+` at a position, and nothing when there is none |
| Patterns.MatchAtIsLongest | script.py:24-27 | for each of the four patterns, `MatchAt` returns exactly the longest substring starting at a position that matches the pattern, or nothing when none does |
| Patterns.ScanFrom | script.py:132 | the spans `findall` finds from a position lie after it and within the text, in order and without overlap |
| Patterns.ScanFromMatches | script.py:132 | every span `findall` reports starts where the pattern matches and ends where that match ends |
| Patterns.ScanFromSkipsNothing | script.py:132 | no match starts before the first span, in a gap between two spans, or after the last span: the scan is leftmost and resumes after each match |
| Patterns.FindAll | script.py:132 | `rgx.findall(text)` returns one string per span of the scan |
| Patterns.FindAllSound | script.py:132 | each string `findall` returns matches the pattern as a whole and is the body's substring at its span |
| Patterns.FindAllMatches | script.py:132 | every string `findall` returns matches the pattern and occurs in the scanned text |
| Config.StoreInfoKeysDistinct | script.py:29-33 | the three signals `twitter`, `facebook`, `email` have distinct keys and are exactly the dictionary's keys |
| Config.ProductKeysStep | script.py:79-80 | handling one more link adds exactly its title and image keys |
| Config.ProductKeysDistinct | script.py:79-80 | `product_{i}_title` and `product_{i}_img_src` name a different column for each index, and a title key is never an image key |
| Config.SlotColumns | script.py:38-42 | columns 4+2i and 5+2i of `OUTPUT_COLUMNS` are the title and image keys of product slot i |
| Config.OutputColumnsLayout | script.py:38-42 | `OUTPUT_COLUMNS` is `shop_url`, then the three signal keys in order, then a title and an image column for each of the five product slots |
| Config.ProductKeysAreColumns | script.py:35-42 | the product keys of up to `NUMBER_OF_PRODUCTS` links are all output columns |
| Config.StoreInfoKeysAreColumns | script.py:29-42 | the signal keys are output columns |
| Web.Index | script.py:74-76 | `value[key]` succeeds exactly on an object that has the key, and yields that field; otherwise it raises |
| Resolver.Tokens | script.py:94 | `host[:host.find('.')].split('-')` gives at least one scoring word, none containing `-` |
| Resolver.CountContained | script.py:103-105 | a candidate's score is at most the number of scoring words |
| Resolver.Score | script.py:100-105 | the score of a link against a host is bounded by the host's number of scoring words |
| Resolver.CountContainedAll | script.py:103-105 | the score is maximal exactly when every scoring word occurs, and it is 0 exactly when none occurs |
| Resolver.EmptyTokenScores | script.py:94-105 | an empty scoring word, as when the host has `--` or starts with `.`, scores every candidate at least 1 |
| Resolver.TokensFromHost | script.py:94 | the scoring words joined with `-` are the host before its first `.`; if there is no `.`, the last character is dropped, because `find` returns -1 |
| Resolver.DotHostTiesAll | script.py:94-118 | a host starting with `.` has the single scoring word `""`, so every candidate is a winner |
| Resolver.SanitizeClean | script.py:102 | a link without `%`, without surrounding whitespace and without upper case is scored as it is |
| Resolver.MaxScore | script.py:117 | the top score bounds every candidate's score and is reached by some candidate |
| Resolver.MaxOf | script.py:117 | `max(score_dict.keys())` is a key with no larger key |
| Resolver.BucketMembers | script.py:107-110 | a score's bucket holds exactly the candidates with that score |
| Resolver.BucketMultiplicity | script.py:107-110 | a bucket keeps every occurrence of its candidates, each as often as in the input |
| Resolver.GroupBy | script.py:100-110 | `score_dict` after a prefix of the candidates, built one append at a time; `Resolver.GroupByGroups` states what it holds |
| Resolver.Resolved | script.py:112-118 | the value the resolver returns for a draw: `None` exactly when there are no candidates, otherwise a winner |
| Resolver.WinnersNonEmpty | script.py:112-118 | when there is a candidate there is a winner |
| Resolver.ResolvedIsBest | script.py:112-118 | the result is `None` exactly when there are no candidates; otherwise it is one of the candidates and no candidate scores higher |
| Resolver.EveryBestIsReachable | script.py:115-118 | every top-scoring candidate is returned for some value of the random draw within `randint`'s range |
| Resolver.DuplicatesWeighMore | script.py:97-110 | duplicates are not removed before the draw: a top-scoring link that was found n times fills n winner slots |
| Resolver.UniqueBestWins | script.py:112-118 | a candidate that strictly beats every other one is returned whatever the draw |
| Resolver.CountWords | script.py:103-105 | the inner scoring loop counts the scoring words found in the sanitised link |
| Resolver.AppendToBucket | script.py:107-110 | creating the list when the score is missing and then appending adds the link at the end of its score's bucket and changes nothing else |
| Resolver.GroupByGroups | script.py:100-110 | the score dictionary has a key exactly for each score some candidate has, mapped to that score's bucket |
| Resolver.NonEmptyDict | script.py:112-113 | the score dictionary is empty only when there are no candidates |
| Resolver.MaxKeyIsMaxScore | script.py:117 | the largest key of the score dictionary is the top score |
| Resolver.SelectAccurateSocials | script.py:84-118 | the method returns `Resolved`: `None` for no candidates, otherwise the top-scoring bucket's entry at the draw |
| ContactInfo.CandidatesIn | script.py:123-134 | the matches of one pattern over a list of endpoints, page after page, with nothing from a page that did not answer 200; `CandidateSource` and `CandidateComplete` state which strings these are |
| ContactInfo.CandidateSource | script.py:123-134 | every collected candidate was found by the pattern on an endpoint that answered 200 |
| ContactInfo.CandidateComplete | script.py:123-134 | every match found on an endpoint that answered 200 is collected |
| ContactInfo.AllDownNoCandidates | script.py:127-129 | endpoints that do not answer 200 contribute no candidates |
| ContactInfo.ResolvedValueSource | script.py:120-139 | a resolved value is a whole match of its pattern, found on an endpoint that answered 200 |
| ContactInfo.NoneFound | script.py:121 | the collection starts with exactly the three signal keys, each holding an empty list |
| ContactInfo.AddMatches | script.py:131-134 | the inner loop over the signals on one page body, each extending its own list |
| ContactInfo.Gathered | script.py:121-134 | the collection after the endpoint loop has handled a list of endpoints; `GatheredCandidates` states what it holds |
| ContactInfo.AddMatchesKeys | script.py:131-134 | scanning a page adds no key |
| ContactInfo.AddMatchesAt | script.py:131-134 | each signal's list is extended by that signal's matches on the page |
| ContactInfo.AddMatchesOthers | script.py:131-134 | a key not scanned for is left as it was |
| ContactInfo.AddMatchesEach | script.py:131-134 | after one page, twitter, facebook and email are each extended by their own pattern's matches |
| ContactInfo.GatheredCandidates | script.py:121-134 | after the endpoint loop each signal holds its matches over the endpoints that answered 200, page by page in endpoint order |
| ContactInfo.ResolveAll | script.py:136-137 | the second loop, resolving each signal in order with its own draw; `ResolveAllKeys` and `ResolveAllAt` state what it holds |
| ContactInfo.ResolveAllKeys | script.py:136-137 | the resolved dictionary has exactly the signal keys |
| ContactInfo.ResolveAllAt | script.py:136-137 | each signal is resolved from its own candidates with the draw at its position |
| ContactInfo.ResolveAllEach | script.py:136-137 | twitter, facebook and email are resolved with the first, second and third draw |
| ContactInfo.ScrapeShopContactInfo | script.py:120-139 | the result has exactly the keys twitter, facebook and email, each the resolution of that signal's candidates over all endpoints |
| ContactInfo.AllDownAllNone | script.py:127-139 | when no endpoint answers 200 all three values are `None` |
| ProductInfo.Unpack | script.py:56 | `[*s]` lists each element of the set exactly once |
| ProductInfo.DistinctCount | script.py:55-57 | the number of distinct product matches is zero exactly when `findall` found none |
| ProductInfo.Retained | script.py:55-57 | what `[*{*matches}][:5]` keeps: distinct links drawn from the matches, min(5, distinct matches) of them, all of them when there are five or fewer; so never more than five, and at least one whenever there is a match |
| ProductInfo.RetainedLinks | script.py:55-57 | at most five links are kept; they are distinct and are product matches; there are min(5, number of distinct matches) of them; with five or fewer distinct matches all are kept |
| ProductInfo.RepeatCountsOnce | script.py:54-57 | a repeated product link takes no further place among the five |
| ProductInfo.RetainedAreProductLinks | script.py:55-57 | a retained link matches the product pattern as a whole and occurs in the listing body |
| ProductInfo.ProductSlot | script.py:65-78 | non-200, or a body that is not JSON or has no `product.title`, gives `(None, None)`; a title without `product.image.src` gives `(title, None)`; otherwise both are read |
| ProductInfo.Slots | script.py:64-80 | the product dictionary after the loop has handled a list of links; `SlotsKeys` and `SlotsValues` state what it holds |
| ProductInfo.SlotsKeys | script.py:64-80 | the product dictionary has exactly the title and image keys of the handled links |
| ProductInfo.SlotsValues | script.py:64-80 | each slot's entries hold that link's own title and image and are independent of the other slots |
| ProductInfo.SlotsStep | script.py:79-80 | one loop iteration writes the title key and then the image key of its index |
| ProductInfo.ProductOutputShape | script.py:64-80 | the product dictionary's keys are the title and image keys of the retained links, and all of them are output columns |
| ProductInfo.ScrapeShopProductInfo | script.py:44-82 | `{}` when the listing does not answer 200; otherwise the retained links of the listing's matches, each mapped to its slot |

## Left out

- The network: `requests.get` becomes a total function `Fetch` from URL to response. Redirects, timeouts and transport exceptions are not modelled.
- `response.json()` is a parsed value or "not JSON"; the JSON parser itself is not modelled.
- Logging: the `print` calls only log and are left out.
- `start_scraping` and the `__main__` block (script.py:141-178) are left out. They do CSV input/output: reading `stores.csv`, writing `output.csv` with `csv.DictWriter`, and the missing-`url`-column error. So are the constants only they use: `STORE_FILE_NAME`, `STORE_FILE_URL_COLUMN_NAME` and `OUTPUT_FILE_NAME`.
- `unique_socials` (script.py:98) is computed and never used, so it carries no state. `Resolver.DuplicatesWeighMore` states the consequence.
- Text.Unquote: models `urllib.parse.unquote` only for `%XX` escapes below `%80`. Multi-byte UTF-8 escapes are copied as they are, because decoding them needs UTF-8, which is not modelled.
- Text.Lower: lower-cases only `A`-`Z`. Python's Unicode case mapping is not modelled.
- Resolver.SelectAccurateSocials: `random.randint` is the caller's `pick`. The model uses the entry at `pick % len(winners)`, a correspondence onto randint's range, not a probability distribution.
- ProductInfo.ScrapeShopProductInfo: the set's iteration order is an arbitrary choice. The contract fixes which links are kept only up to that order, returning the order as a ghost output.
- ProductInfo.ScrapeShopProductInfo: Python rebinds `response` and keeps `output` as one dictionary. The model uses separate variables with the same values.
- The `is not None` test of script.py:133 always succeeds, because `findall` returns a list. The model keeps it as a comment, not as a branch.
- Patterns: `re` is replaced by one scanner per pattern. Each scanner is proved to return the longest match at each position, which is what the backtracking engine returns for these four patterns, since each ends in a greedy run. A general regular-expression engine is not modelled.
