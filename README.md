# Autocomplete index and data-import tasks, modelled in Dafny

This project models two parts of the navitia repository.

**The in-memory autocomplete index** `Autocomplete<T>` of `source/autocomplete/autocomplete.h`, with `T = int`
(`autocomplete.dfy`, class `Autocomplete.Index`). Labels are added as token sequences. Each label is indexed at
its position under every word and every character bigram, and per-position statistics are recorded
(`add_string`, `add_vec_pattern`, `make_vec_pattern`). `build` freezes the temporary `std::map<std::string, std::set<T>>`
maps into vectors sorted by key. `match` answers a prefix query with a `lower_bound`/`upper_bound` pair under the `comp`
functor. `find` intersects the matches of several words. `find_complete` and `find_partial_with_pattern` filter
with `keep_element` and score with the integer formulas `calc_quality_fl` and `calc_quality_pattern`. They end with
`sort_and_truncate`, a `partial_sort` on quality followed by a truncation to `nbmax`. The typo-tolerant query keeps a
position when, after truncating integer division, at most 25 percent of the query's bigrams are missing. Lemma
`TypoToleratedExact` shows that this means strictly fewer than 26 percent. `is_address_type` looks for a street-type word.

The C++ library behaviour the class relies on lives in `ordering.dfy` (module `Ordering`):
- lexicographic `std::string` `operator<` and `find(a) == 0` as a prefix test;
- ascending iteration of `std::set` and `std::map`;
- `std::sort`, `std::unique` and `std::binary_search`.

**The deterministic logic of the import tasks** in `source/tyr/tyr/binarisation.py` (`binarisation.dfy`,
module `Binarisation`):
- the libpq connection string;
- the argument vector each converter receives;
- the Osmosis polygon-file reader `parse_poly`;
- the outcome rule shared by the task bodies, as class `Job` and class `MetricTable`: an error inside the `try`
  or a non-zero exit marks the job `failed` and re-raises, and `collect_metric` records a metric only when the
  launch returned;
- the reload routing key.

The Python string and path builtins these use are in `pystr.dfy` (module `PyStr`): `str.strip`, `str.split`,
`str.startswith`, the `posixpath` functions `basename`, `dirname` and `join`, and `str(int)`. `wrappers.dfy`
holds `Option`.

Every builder that reads a value back has a decoder partner, and lemmas show that the value comes back:
- the connection string is parsed back into its four settings;
- an argument vector is read back by flag;
- a POI argument is split on `=`;
- a `--level` value is parsed back as an integer;
- a routing key is mapped back to its instance name.

`tokenize` is abstract: every query and insertion takes the token sequence it would produce. The index is valid
(`Index.Valid`) when every position reachable from a map or dictionary has a `word_quality_list` entry, so the
`.at` lookups of the queries cannot throw. The queries require that, and that the dictionary they search is
sorted, which `lower_bound` needs.

Some source behaviours the model keeps, with the lemma that states each:
- `build` appends to the dictionaries without clearing them or the temporary maps. A second build over two or
  more words leaves the dictionary unsorted (`RebuildUnsorted`).
- `find` with one token returns `match` unchanged, duplicates included.
- `find_partial_with_pattern` takes `max_score` over the match of the last bigram only.

## Model

| member | source | states |
|---|---|---|
| `Autocomplete.WordPatterns` | source/autocomplete/autocomplete.h:138-154 | A word no longer than n yields itself. A longer word yields exactly its len−n+1 substrings of length n, left to right. |
| `Autocomplete.PatternsAppend` | source/autocomplete/autocomplete.h:138-154 | The patterns of a token sequence are the patterns of each word concatenated in word order. |
| `Autocomplete.PatternsEmpty` | source/autocomplete/autocomplete.h:138-154 | The pattern list is empty exactly when there are no tokens. |
| `Autocomplete.MakeVecPattern` | source/autocomplete/autocomplete.h:138-154 | The nested loop returns exactly the patterns of the tokens. |
| `Autocomplete.TotalLengthAppend` | source/autocomplete/autocomplete.h:416-424 | The summed token length is additive over concatenation. |
| `Autocomplete.TotalLengthAtLeastCount` | source/autocomplete/autocomplete.h:416-424 | With non-empty tokens, the total length is at least the token count. |
| `Autocomplete.WordsLength` | source/autocomplete/autocomplete.h:416-424 | The loop returns the sum of the token lengths. |
| `Autocomplete.AddPosition` | source/autocomplete/autocomplete.h:116-120 | Inserting a position under every key: the new domain is the old one plus the keys, and every key holds the position. Other positions stay as they were, and keys outside the list are unchanged. |
| `Autocomplete.AddPositionCovered` | source/autocomplete/autocomplete.h:104-136 | After an insertion, every position held is an old one or the inserted one. |
| `Autocomplete.Index.AddVecPattern` | source/autocomplete/autocomplete.h:128-136 | The pattern map gains the position under every bigram of the tokens. Nothing else changes. |
| `Autocomplete.Index.AddString` | source/autocomplete/autocomplete.h:104-126 | The position is inserted under every word and every bigram. The statistics of that position become (token count, total length, 0), and no other position's statistics change. Validity is preserved. |
| `Autocomplete.AddStringCovered` | source/autocomplete/autocomplete.h:113-125 | Adding a position to both temporary maps while giving it statistics keeps every indexed position covered by the statistics. |
| `Autocomplete.Index.Valid` | source/autocomplete/autocomplete.h:104-126 | Definition: every position in either temporary map or either dictionary has a `word_quality` entry, so `word_quality_list.at` cannot throw in a query. The constructor, `Clear`, `AddString` and `Build` preserve it. |
| `Autocomplete.Index.constructor` | source/autocomplete/autocomplete.h:68-83 | A new index is empty and valid. |
| `Autocomplete.Index.Clear` | source/autocomplete/autocomplete.h:90-96 | All five structures are emptied. |
| `Autocomplete.FreezeKeysEntries` | source/autocomplete/autocomplete.h:162-173 | Entry i carries key i, holding exactly the positions of that key, as a strictly increasing vector. |
| `Autocomplete.FreezeKeysOrdered` | source/autocomplete/autocomplete.h:162-173 | Frozen in ascending key order, the entries are strictly ascending by key and hold exactly the map's keys, each with exactly its positions. |
| `Autocomplete.Freeze` | source/autocomplete/autocomplete.h:162-173 | One entry per key, keys strictly increasing. An entry exists for exactly the keys of the map, and each vector is strictly increasing and holds exactly the key's set. |
| `Autocomplete.FreezeSorted` | source/autocomplete/autocomplete.h:162-173 | A frozen map is sorted in the order `lower_bound` needs. |
| `Autocomplete.AppendFrozen` | source/autocomplete/autocomplete.h:163-166 | The push_back loop appends the frozen map to the dictionary. |
| `Autocomplete.AppendEntries` | source/autocomplete/autocomplete.h:163-166 | Pushing one entry per key in a given order appends the entries for those keys, in that order. |
| `Autocomplete.Index.Build` | source/autocomplete/autocomplete.h:162-173 | Each dictionary becomes its old contents followed by its frozen temporary map. The temporary maps and statistics are unchanged, and validity is preserved. |
| `Autocomplete.RebuildUnsorted` | source/autocomplete/autocomplete.h:162-173 | Building twice over two or more words leaves the dictionary unsorted. |
| `Autocomplete.FreezeCovered` | source/autocomplete/autocomplete.h:162-173 | Appending a frozen map whose positions all have statistics keeps that true of the dictionary. |
| `Ordering.PrefixNotBelow` | source/autocomplete/autocomplete.h:180-193 | A key that starts with the token is never below it in `std::string` order. |
| `Ordering.PrefixBelowOthers` | source/autocomplete/autocomplete.h:180-193 | Every string starting with the token is below every string above the token that does not start with it, so the prefix matches of a sorted dictionary are contiguous. |
| `Autocomplete.KeyBelow` | source/autocomplete/autocomplete.h:190-192 | Definition: the `comp` overload `std::lower_bound` uses, `b.first < a`. Its partition property is `LowerPartitioned`. |
| `Autocomplete.TokenBelow` | source/autocomplete/autocomplete.h:184-187 | Definition: the `comp` overload `std::upper_bound` uses, false when the key starts with the token and `a < b.first` otherwise. Its partition property is `UpperPartitioned`. |
| `Autocomplete.LowerPartitioned` | source/autocomplete/autocomplete.h:190-193 | In a sorted dictionary, the keys below the token form a prefix of it. |
| `Autocomplete.UpperPartitioned` | source/autocomplete/autocomplete.h:184-187 | In a sorted dictionary, the entries the token is below under `comp` form a suffix of it. |
| `Autocomplete.LowerBound` | source/autocomplete/autocomplete.h:198 | The binary search returns the first index whose key is not below the token. |
| `Autocomplete.UpperBound` | source/autocomplete/autocomplete.h:199 | The binary search returns the first index whose entry the token is below under `comp`. |
| `Autocomplete.BoundsBracketMatches` | source/autocomplete/autocomplete.h:196-210 | In a sorted dictionary, lower ≤ upper. Exactly the entries between them have the token as a prefix. |
| `Autocomplete.MatchingBracketed` | source/autocomplete/autocomplete.h:196-210 | When no entry outside the bounds starts with the token, the entries between them give the matches of the whole dictionary. |
| `Autocomplete.Matching` | source/autocomplete/autocomplete.h:196-210 | Definition (a reference, not the search): the positions of every entry whose key starts with the token, concatenated in dictionary order. `Match` is proved equal to it, and `MatchingMembers` gives its members. |
| `Autocomplete.Match` | source/autocomplete/autocomplete.h:196-210 | On a sorted dictionary, the result is the concatenation of the vectors of exactly the entries whose key starts with the token, in dictionary order, duplicates allowed. |
| `Autocomplete.MatchingAppend` | source/autocomplete/autocomplete.h:204-207 | Matching distributes over concatenated dictionaries. |
| `Autocomplete.MatchingNone` | source/autocomplete/autocomplete.h:204-207 | A dictionary with no key starting with the token matches nothing. |
| `Autocomplete.MatchingMembers` | source/autocomplete/autocomplete.h:196-210 | A position is matched exactly when some entry whose key starts with the token holds it. |
| `Autocomplete.MatchingFrozenSound` | source/autocomplete/autocomplete.h:162-210 | A position matched after a build was added under a word starting with the token. |
| `Autocomplete.MatchingFrozenComplete` | source/autocomplete/autocomplete.h:162-210 | A position added under a word starting with the token is matched after a build. |
| `Autocomplete.MatchingFrozen` | source/autocomplete/autocomplete.h:162-210 | After a build, a position is matched exactly when it was added under some word starting with the token. |
| `Autocomplete.MatchingCovered` | source/autocomplete/autocomplete.h:196-210 | Every matched position belongs to the dictionary's positions. |
| `Autocomplete.MatchingIndexed` | source/autocomplete/autocomplete.h:196-210 | In a valid index, every matched position has statistics. |
| `Autocomplete.FindSpec` | source/autocomplete/autocomplete.h:213-240 | Definition: nothing for no tokens, the raw match for one token, otherwise the ascending positions matched by every token. `Index.Find` is proved equal to it, and `FindSpecMembers` gives its members. |
| `Autocomplete.FindSpecMembers` | source/autocomplete/autocomplete.h:213-240 | With tokens, a position is found exactly when every token matches it. With two or more tokens, the result is strictly increasing, so sorted and free of duplicates. |
| `Autocomplete.FindSpecCovered` | source/autocomplete/autocomplete.h:213-240 | Every found position belongs to the dictionary's positions. |
| `Autocomplete.FindSpecIndexed` | source/autocomplete/autocomplete.h:213-240 | In a valid index, every found position has statistics. |
| `Autocomplete.SurvivorsStep` | source/autocomplete/autocomplete.h:220-237 | One more intersection keeps exactly the survivors that the next token also matches. |
| `Autocomplete.KeepCommon` | source/autocomplete/autocomplete.h:221-236 | The sort, binary-search filter, sort and unique steps give a strictly increasing sequence. It holds exactly the positions present in both inputs. |
| `Autocomplete.Index.Find` | source/autocomplete/autocomplete.h:213-240 | Returns [] for no tokens, the match unchanged for one token, and otherwise the sorted, duplicate-free intersection of all the matches. |
| `Autocomplete.FindFrozen` | source/autocomplete/autocomplete.h:162-240 | After one build from empty, a position is found exactly when every token is a prefix of some word added at it. |
| `Ordering.SortedSeqOf` | source/autocomplete/autocomplete.h:165 | A set read in iteration order is strictly increasing and holds exactly its members. |
| `Ordering.SortedStringsOf` | source/autocomplete/autocomplete.h:164 | A map's keys in iteration order are strictly increasing in `std::string` order and are exactly the keys. |
| `Ordering.SortInts` | source/autocomplete/autocomplete.h:222 | `std::sort` gives a non-decreasing permutation. |
| `Ordering.BinarySearch` | source/autocomplete/autocomplete.h:226 | On a sorted vector, the binary search returns true exactly when the value occurs. |
| `Ordering.Unique` | source/autocomplete/autocomplete.h:231-236 | On sorted input, `std::unique` leaves a strictly increasing sequence with the same members. |
| `Ordering.SortBy` | source/autocomplete/autocomplete.h:264-274 | The sort orders by the key and is a permutation. |
| `Autocomplete.CDiv` | source/autocomplete/autocomplete.h:398 | C++ `/` truncates toward zero. The remainder of a non-negative dividend lies in [0, b) and that of a negative one in (−b, 0]. For a negative dividend `a`, the quotient is the negation of the Euclidean quotient of −a by b. |
| `Autocomplete.QualityFl` | source/autocomplete/autocomplete.h:388-400 | Definition: `calc_quality_fl`, 100 minus the missing words times the weight, minus the length difference, minus a tenth of the score gap (truncated). Its properties are the lemmas below. |
| `Autocomplete.QualityPattern` | source/autocomplete/autocomplete.h:402-414 | Definition: `calc_quality_pattern`, the same as `calc_quality_fl` with missing bigrams and an absolute length difference. |
| `Autocomplete.QualityFlMonotone` | source/autocomplete/autocomplete.h:388-400 | For fixed statistics with a non-negative word weight, finding more words never lowers the quality. |
| `Autocomplete.QualityPatternMonotone` | source/autocomplete/autocomplete.h:402-414 | With a non-negative word weight, more bigram hits never lower the pattern quality. |
| `Autocomplete.ScoreWithinTenIsFree` | source/autocomplete/autocomplete.h:397 | By definition: a score less than 10 away from the maximum costs nothing, because the division truncates. |
| `Autocomplete.QualityFlPerfect` | source/autocomplete/autocomplete.h:388-400 | By definition: all words found, the same total length and the maximal score give quality 100. |
| `Autocomplete.QualityPatternDistanceSymmetric` | source/autocomplete/autocomplete.h:408 | By definition: the pattern quality penalises a length difference in either direction alike. |
| `Autocomplete.TypoToleratedExact` | source/autocomplete/autocomplete.h:363 | The 25-percent rule with truncating division keeps a position exactly when (patterns − hits)·100 < 26·patterns. |
| `Autocomplete.MaxKeptScore` | source/autocomplete/autocomplete.h:293-299 | The maximum is at least 0 and at least every kept position's score. It is 0 or some kept position's score. |
| `Autocomplete.Index.MaxScore` | source/autocomplete/autocomplete.h:293-299 | The loop computes that maximum over the kept positions. |
| `Autocomplete.CompleteCandidates` | source/autocomplete/autocomplete.h:303-311 | Every candidate is a kept found position with nb_found = word count, the query's length and quality `calc_quality_fl`. Every kept found position yields a candidate. |
| `Autocomplete.Index.CompleteQualities` | source/autocomplete/autocomplete.h:303-311 | The loop builds exactly those candidates. |
| `Autocomplete.Index.FindComplete` | source/autocomplete/autocomplete.h:277-314 | The result is a best prefix of the candidates of `find`: length min(nbmax, candidates), a sub-multiset in non-increasing quality, no dropped candidate better than a kept one. |
| `Autocomplete.HitsStep` | source/autocomplete/autocomplete.h:337-350 | The hits of the first k+1 bigrams are those of the first k followed by the match of the next one. |
| `Autocomplete.HitCountsExtend` | source/autocomplete/autocomplete.h:382-386 | Counting one more match adds to each position its number of occurrences there. |
| `Autocomplete.AddWordQuality` | source/autocomplete/autocomplete.h:382-386 | Each position's count grows by its number of occurrences in the match, duplicates counted. The others are unchanged. |
| `Autocomplete.Index.CountHits` | source/autocomplete/autocomplete.h:337-350 | The counts are the multiplicities of each position in the concatenated matches of all bigrams. The last index result is the last bigram's match. |
| `Autocomplete.HitsCovered` | source/autocomplete/autocomplete.h:337-350 | Every hit belongs to the dictionary's positions. |
| `Autocomplete.CountsIndexed` | source/autocomplete/autocomplete.h:360-372 | In a valid index, every counted position has statistics. |
| `Autocomplete.PartialCandidates` | source/autocomplete/autocomplete.h:360-372 | Every candidate is kept and passes the 25-percent rule, with nb_found the hit count and quality `calc_quality_pattern`. Every kept position that passes the rule yields a candidate. |
| `Autocomplete.Index.PartialQualities` | source/autocomplete/autocomplete.h:360-372 | The loop builds exactly those candidates. |
| `Autocomplete.Index.FindPartialWithPattern` | source/autocomplete/autocomplete.h:318-377 | The result is a best prefix of the candidates. With no bigram the candidates, and so the result, are empty. |
| `Autocomplete.PrefixOfDescendingIsBest` | source/autocomplete/autocomplete.h:264-274 | A prefix of a quality-descending permutation is a best prefix. |
| `Autocomplete.SortAndTruncate` | source/autocomplete/autocomplete.h:264-274 | The output has length min(nbmax, input), is a sub-multiset of the input in non-increasing quality, and no dropped element has a higher quality than a kept one. |
| `Autocomplete.BestPrefixKeepsAll` | source/autocomplete/autocomplete.h:264-274 | When nbmax is at least the input size, nothing is dropped. |
| `Autocomplete.IsAddressType` | source/autocomplete/autocomplete.h:480-499 | True exactly when some token equals one of rue, avenue, place, boulevard, chemin, impasse. |
| `PyStr.Strip` | source/tyr/tyr/binarisation.py:344 | `str.strip()` removes the leading and trailing ASCII whitespace and nothing else. |
| `PyStr.StripPadded` | source/tyr/tyr/binarisation.py:344 | A word padded with whitespace strips back to the word. |
| `PyStr.Fields` | source/tyr/tyr/binarisation.py:350 | `str.split()` gives non-empty whitespace-free fields. There are none exactly when the line is all whitespace. |
| `PyStr.FieldsOfWord` | source/tyr/tyr/binarisation.py:350 | A non-empty run of non-whitespace characters splits into just itself. |
| `PyStr.FieldsSplit` | source/tyr/tyr/binarisation.py:350 | Whitespace separates fields: the fields of `a + c + b`, with `c` a whitespace character, are those of `a` followed by those of `b`. With `FieldsOfWord` this fixes `str.split()` as the maximal non-whitespace runs, in order. |
| `PyStr.WordLengthConcat` | source/tyr/tyr/binarisation.py:350 | A word ends at the first whitespace character or at the end of the string, so what follows it does not change its length. |
| `PyStr.SplitOnConcat` | source/tyr/tyr/binarisation.py:85-91 | Splitting on a separator peels off a leading separator-free piece. |
| `PyStr.Basename` | source/tyr/tyr/binarisation.py:451 | `posixpath.basename` is the slash-free suffix after the last slash: either the whole path has no slash, or a slash comes just before the suffix. |
| `PyStr.BasenameOfJoin` | source/tyr/tyr/binarisation.py:451 | Joining a slash-free name, then taking the basename, gives the name back. |
| `PyStr.DirnameOfJoin` | source/tyr/tyr/binarisation.py:450-451 | Joining a slash-free name to a directory without a trailing slash, then taking the dirname, gives the directory back. |
| `PyStr.DecimalRoundTrip` | source/tyr/tyr/binarisation.py:536 | `str(n)` parses back to n. |
| `PyStr.DecimalStringInjective` | source/tyr/tyr/binarisation.py:536 | Distinct levels give distinct strings. |
| `Binarisation.MakeConnectionString` | source/tyr/tyr/binarisation.py:85-91 | Definition: `host=… user=… dbname=… password=…` with single spaces. `ConnectionStringRoundTrip` reads it back. |
| `Binarisation.ConnectionStringRoundTrip` | source/tyr/tyr/binarisation.py:85-91 | With space-free settings, the connection string parses back into host, user, dbname and password. |
| `Binarisation.ConverterParams` | source/tyr/tyr/binarisation.py:148-159 | The appends build ["-i", wd], then "-a" and "-s" each with its file only when set and non-empty, then the connection string. |
| `Binarisation.ConverterArgsDecode` | source/tyr/tyr/binarisation.py:148-159 | fusio2ed and gtfs2ed read back the input directory, the aliases and synonyms files exactly when they are truthy, and the connection string. Every other flag reads back as none. |
| `Binarisation.Osm2edParams` | source/tyr/tyr/binarisation.py:220-229 | The loop appends "-p" and then uri=name, or uri when the name is empty, for each POI type in order. |
| `Binarisation.PoiFlagsDecode` | source/tyr/tyr/binarisation.py:223-229 | The "-p" values are the POI arguments, one per type, in order. |
| `Binarisation.Osm2edArgsDecode` | source/tyr/tyr/binarisation.py:220-229 | osm2ed reads back its file, the connection string and every POI argument. |
| `Binarisation.PoiArgRoundTrip` | source/tyr/tyr/binarisation.py:226-229 | For a URI and name without '=', splitting the argument on '=' gives [uri, name], or [uri] when there is no name. |
| `Binarisation.InputArgs` | source/tyr/tyr/binarisation.py:258-260 | Definition: the input flag and file, then `--connection-string` and the connection string. `InputArgsDecode` reads it back. |
| `Binarisation.InputArgsDecode` | source/tyr/tyr/binarisation.py:258-260 | geopal2ed, poi2ed, synonym2ed, fare2ed and bano2mimir read back their input and connection string. |
| `Binarisation.MimirConnectionIndex` | source/tyr/tyr/binarisation.py:500-507 | By definition: whatever the mimir URL, the last path component of the connection string is the index `munin`. |
| `Binarisation.Osm2mimirParams` | source/tyr/tyr/binarisation.py:529-536 | The loop appends "--level" and `str(lvl)` for each admin level in order. |
| `Binarisation.LevelFlagsDecode` | source/tyr/tyr/binarisation.py:534-536 | The "--level" values parse back to exactly the admin levels, in order. |
| `Binarisation.Osm2mimirArgsDecode` | source/tyr/tyr/binarisation.py:529-536 | osm2mimir reads back its directory, the mimir connection string and the levels. |
| `Binarisation.Ed2navArgv` | source/tyr/tyr/binarisation.py:446-459 | The output path is rewritten only when a custom directory is truthy. The cities connection string is added only when configured and non-empty. |
| `Binarisation.Ed2navOutputInCustomDir` | source/tyr/tyr/binarisation.py:446-453 | The rewrite keeps the file name. Without a custom directory the path is unchanged. With one that has no trailing slash, the file's directory is the custom directory joined to the original one. |
| `Binarisation.Ed2navArgsDecode` | source/tyr/tyr/binarisation.py:446-459 | ed2nav reads back its output file, the connection string, and the cities connection string exactly when it is configured. |
| `Binarisation.AppendToRing` | source/tyr/tyr/binarisation.py:348-350 | `ring.append(tokens)` changes only the last part. With `ring` the outer ring, the tokens go at the end of its outer ring and its holes are unchanged. With `ring` the last hole, the tokens go at the end of that hole, and the outer ring and the earlier holes are unchanged. |
| `Binarisation.PolyStep` | source/tyr/tyr/binarisation.py:331-366 | One line keeps the loop state well formed. From the third line on there is a last part, and a last hole whenever the open ring is one. |
| `Binarisation.PolyRun` | source/tyr/tyr/binarisation.py:328-366 | The state after any prefix of the lines is well formed. |
| `Binarisation.ParsePoly` | source/tyr/tyr/binarisation.py:321-368 | The loop, with its break, collects exactly the parts of the line-by-line state machine run over all lines, each line read as: does it strip to END, does it start with '!', and its whitespace-separated fields. |
| `Binarisation.PolyRunStep` | source/tyr/tyr/binarisation.py:331 | Each further line is one more step. |
| `Binarisation.PolyIgnoresFirstLine` | source/tyr/tyr/binarisation.py:333-336 | Files that differ only in line 0 parse alike. |
| `Binarisation.PolySecondLineOpensRing` | source/tyr/tyr/binarisation.py:338-342 | Whatever line 1 says, it opens the first outer ring. |
| `Binarisation.PolyStepEffect` | source/tyr/tyr/binarisation.py:344-366 | In a ring, END closes it, and any other line appends its fields to the end of the ring `ring` refers to: the outer ring or the last hole of the last part. Out of a ring, END stops, '!' adds an empty hole to the last part and opens it, leaving the other parts unchanged, and any other line opens a new part with no holes. |
| `Binarisation.PolyStopIsFinal` | source/tyr/tyr/binarisation.py:352-354 | After the closing END, later lines never affect the result. |
| `Binarisation.PolyStopsAt` | source/tyr/tyr/binarisation.py:352-354 | The parts held at the closing END are the parts of the whole file. |
| `Binarisation.RingsLineCountAppend` | source/tyr/tyr/binarisation.py:358-359 | By definition: counting the coordinate lines of the holes is additive. |
| `Binarisation.RunTask` | source/tyr/tyr/binarisation.py:117-169 | A task raises when a step before its `try` raises, or when the `except` branch runs. The `except` branch runs after a failure inside the `try` or a non-zero exit. Only the `except` branch sets the job to failed; otherwise the state is untouched. A metric row (job, dataset, task type) is appended exactly when the task collects metrics, the launch returned and the commit succeeded. |
| `Binarisation.CleanRunSucceeds` | source/tyr/tyr/binarisation.py:161-169 | By definition: exit code 0 after a clean setup neither raises nor fails the job. |
| `Binarisation.NonZeroExitRecordsThenFails` | source/tyr/tyr/binarisation.py:117-131 | By definition: a non-zero exit still records the metric, then fails the job. |
| `Binarisation.MetricNeedsLaunchReturn` | source/tyr/tyr/binarisation.py:117-131 | By definition: a metric is recorded only when the launch returned after a clean setup. |
| `Binarisation.ErrorBeforeTryLeavesJob` | source/tyr/tyr/binarisation.py:208-217 | By definition: an error before the `try` propagates without failing the job or recording a metric. |
| `Binarisation.MetricFailureIsSilent` | source/tyr/tyr/binarisation.py:131-134 | By definition: a failed metric commit changes neither the failure nor the raising of the task. |
| `Binarisation.ConverterTask` | source/tyr/tyr/binarisation.py:138-547 | Definition: the task type, whether the launch runs under `collect_metric`, and the dataset passed to it. |
| `Binarisation.ConverterMetrics` | source/tyr/tyr/binarisation.py:138-547 | By definition: fusio2ed, gtfs2ed, osm2ed, geopal2ed, poi2ed and synonym2ed record a metric for their dataset. ed2nav records one with no dataset. fare2ed, bano2mimir and osm2mimir never record one. |
| `Binarisation.Job.constructor` | source/tyr/tyr/binarisation.py:142 | A job as loaded, with its id and state. |
| `Binarisation.MetricTable.constructor` | source/tyr/tyr/binarisation.py:117-134 | No metric rows yet. |
| `Binarisation.ReloadRoutingKey` | source/tyr/tyr/binarisation.py:427-428 | Definition: the instance name followed by `.task.reload`. `RoutingKeyRoundTrip` and `RoutingKeyInjective` state its properties. |
| `Binarisation.RoutingKeyRoundTrip` | source/tyr/tyr/binarisation.py:427-428 | The routing key is the instance name followed by ".task.reload", and it maps back to the name. |
| `Binarisation.RoutingKeyInjective` | source/tyr/tyr/binarisation.py:427-428 | Distinct instances get distinct routing keys. |
| `Binarisation.ReloadData` | source/tyr/tyr/binarisation.py:410-434 | The reload goes out on the instance's routing key unless `publish` raises. Any broker error, including a `release` error after the message went out, fails the job and raises. With no error the job is left alone. |

## Left out

- source/autocomplete/autocomplete.h:459-478 `tokenize` and lines 426-457 `strip_accents` are not modelled: lowercasing, boost regex space collapsing, synonym replacement, the boost tokenizer and UTF-8 accent replacement. Every operation takes the token sequence `tokenize` would return, so the synonym map and the `Comapre` comparator of source/autocomplete/autocomplete.h:20-28 are not part of this model.
- The `fl_quality` members `coord` (floating-point coordinates) and `house_number` are omitted. `serialize` (boost archives) and `compute_score` are also not modelled. `compute_score` lives in autocomplete.cpp, whose scoring bodies are empty, so every score stays 0 as `add_string` sets it.
- `Compare` and `compare_by_quality` (source/autocomplete/autocomplete.h:244-262) are not modelled; the header never uses them.
- `AddWordQuality`: the `std::unordered_map<T, fl_quality>` that `add_word_quality` updates by reference is modelled as a returned `map<int, int>` of hit counts, because only `nb_found` is read from it.
- `find_partial_with_pattern` iterates `fl_result` in an unspecified order. The model iterates it in ascending position order. `partial_sort` is not stable, so `FindPartialWithPattern` and `FindComplete` state only the best-prefix property of their result, not its order among equal qualities.
- `calc_quality_fl` and `calc_quality_pattern` are functions of the `word_quality` record of the position. The `word_quality_list.at` lookup happens at the call site, where validity guarantees it succeeds.
- Text is modelled as bytes, not decoded: a Dafny `string` stands for the byte sequence of a `std::string` (or of a Python 2 `str`), one `char` per byte. A UTF-8 label such as "ü" must be given as its two bytes; the model does not check that its characters are below 256, and nothing in it decodes or encodes UTF-8.
- C++ signed `int` overflow in quality and length sums is not modelled: the language leaves it undefined (wrap-around in practice), and the model's integers are unbounded.
- `MaxScore`, `FindComplete` and `FindPartialWithPattern` take `keep_element` as a pure, total `int -> bool`. The source's `std::function` is called separately in the max-score loop and in the quality loop, so a stateful filter could answer differently in the two loops; the model assumes it is stateless.
- The `Lock` decorator (source/tyr/tyr/binarisation.py:93-115) is not modelled. It covers the redis lock, the celery retry and the release.
- Processes and the file system are not modelled: `launch_exec`, `unzip_if_needed`, `move_to_backupdirectory`, `glob`, `os.makedirs` and `os.path.exists`. An exit code, and whether a step before or inside the `try` raised, are inputs to `RunTask`.
- Databases, the broker and clocks are not modelled: the SQLAlchemy session, `datetime.utcnow` durations (the model's metric row has no duration), the kombu connection and the protobuf payload of `reload_data`. Whether the metric commit succeeds, and which broker call (if any) raises in `reload_data`, are inputs.
- `load_bounding_shape` and `shape2ed` (source/tyr/tyr/binarisation.py:371-407) are not modelled: file reading, WKT, shapely and SQL.
- `ParsePoly`: the `float` conversion of coordinates and the `MultiPolygon` built from the parts are left out. Coordinate lines stay as the token lists `str.split()` returns, so a `ValueError` from a non-numeric coordinate is not modelled.
- Job states other than `failed` are not modelled; the module never writes another state. The `models.db.session.commit()` after setting `failed` is part of the I/O left out.
- source/jormungandr/interfaces/v1/Schedules.py and source/jormungandr/jormungandr/authentication.py are not part of this model. They are request glue around Flask, caches and database lookups.
