/**
 * The in-memory autocomplete index `Autocomplete<T>` of
 * source/autocomplete/autocomplete.h, with integer positions for `T`.
 *
 * A label is indexed under every word of it and under every character bigram
 * of its words; `build` freezes the temporary maps into dictionaries sorted by
 * key, and the queries look words up by prefix in those dictionaries.
 * The tokenizer is not modelled: the operations take the tokens it produced.
 * A Dafny `string` here stands for the bytes of a `std::string`, one `char`
 * per byte (code points 0 to 255), so lengths, `substr` bigrams and the order
 * `StrLess` are those of `length()`, `substr` and `char_traits<char>` on bytes.
 */
module Autocomplete {
  import opened Ordering

  /** `vec_elt`: a word (or pattern) and the positions of the labels containing it. */
  datatype Entry = Entry(key: string, positions: seq<int>)

  /** `word_quality`: the statistics kept for one indexed label. */
  datatype WordQuality = WordQuality(wordCount: int, wordDistance: int, score: int)

  /** `fl_quality`, without its coordinate and its house number. */
  datatype FlQuality = FlQuality(idx: int, nbFound: int, wordLen: int, quality: int)

  /** The pattern length the index uses: character bigrams. */
  const NGram: nat := 2

  /** The street-type words `is_address_type` looks for. */
  const AddressTypes: seq<string> := ["rue", "avenue", "place", "boulevard", "chemin", "impasse"]

  // ---------------------------------------------------------------------------
  // Patterns and lengths of token lists
  // ---------------------------------------------------------------------------

  /** The n-grams of one word from left to right; a word of at most `n` characters is its own pattern. */
  function WordPatterns(w: string, n: nat): (r: seq<string>)
    ensures |w| <= n ==> r == [w]
    ensures |w| > n ==> |r| == |w| - n + 1
    ensures |w| > n ==> forall i :: 0 <= i < |r| ==> |r[i]| == n && r[i] == w[i..i + n]
    decreases |w|
  {
    if |w| <= n then [w]
    else
      var rest := WordPatterns(w[1..], n);
      assert forall i :: 0 <= i < |rest| ==> rest[i] == w[i + 1..i + 1 + n];
      [w[..n]] + rest
  }

  /** The patterns of every word, concatenated in word order. */
  function Patterns(words: seq<string>, n: nat): seq<string>
    decreases |words|
  {
    if |words| == 0 then []
    else Patterns(words[..|words| - 1], n) + WordPatterns(words[|words| - 1], n)
  }

  lemma {:induction false} PatternsAppend(a: seq<string>, b: seq<string>, n: nat)
    ensures Patterns(a + b, n) == Patterns(a, n) + Patterns(b, n)
    decreases |b|
  {
    if |b| == 0 {
      assert a + b == a;
    } else {
      var b', w := b[..|b| - 1], b[|b| - 1];
      var ab := a + b;
      assert ab[..|ab| - 1] == a + b' && ab[|ab| - 1] == w;
      calc {
        Patterns(ab, n);
        Patterns(a + b', n) + WordPatterns(w, n);
        { PatternsAppend(a, b', n); }
        (Patterns(a, n) + Patterns(b', n)) + WordPatterns(w, n);
        Patterns(a, n) + (Patterns(b', n) + WordPatterns(w, n));
        Patterns(a, n) + Patterns(b, n);
      }
    }
  }

  /** Every word yields at least one pattern, so there are no patterns exactly when there are no words. */
  lemma {:induction false} PatternsEmpty(words: seq<string>, n: nat)
    ensures |Patterns(words, n)| == 0 <==> |words| == 0
  {
    if |words| > 0 {
      var w := words[|words| - 1];
      assert |WordPatterns(w, n)| >= 1;
    }
  }

  /** The summed length of the words: `words_length`, and `distance` in `add_string`. */
  function TotalLength(words: seq<string>): nat
    decreases |words|
  {
    if |words| == 0 then 0 else TotalLength(words[..|words| - 1]) + |words[|words| - 1]|
  }

  lemma {:induction false} TotalLengthAppend(a: seq<string>, b: seq<string>)
    ensures TotalLength(a + b) == TotalLength(a) + TotalLength(b)
    decreases |b|
  {
    if |b| == 0 {
      assert a + b == a;
    } else {
      var b' := b[..|b| - 1];
      assert (a + b)[..|a + b| - 1] == a + b';
      assert (a + b)[|a + b| - 1] == b[|b| - 1];
      TotalLengthAppend(a, b');
    }
  }

  /** Tokens are never empty, so a label is at least as long as it has words. */
  lemma {:induction false} TotalLengthAtLeastCount(words: seq<string>)
    requires forall i :: 0 <= i < |words| ==> |words[i]| > 0
    ensures TotalLength(words) >= |words|
    decreases |words|
  {
    if |words| > 0 {
      TotalLengthAtLeastCount(words[..|words| - 1]);
    }
  }

  // ---------------------------------------------------------------------------
  // The temporary maps and their frozen form
  // ---------------------------------------------------------------------------

  /** The temporary map after inserting position `p` into the set of each key in `keys`. */
  function AddPosition(m: map<string, set<int>>, keys: seq<string>, p: int): (r: map<string, set<int>>)
    ensures forall w :: w in r <==> w in m || w in keys
    ensures forall w :: w in keys ==> p in r[w]
    ensures forall w, q :: w in r && q != p ==> (q in r[w] <==> w in m && q in m[w])
    ensures forall w :: w in m && w !in keys ==> r[w] == m[w]
    decreases |keys|
  {
    if |keys| == 0 then m
    else
      var prev := AddPosition(m, keys[..|keys| - 1], p);
      var w := keys[|keys| - 1];
      assert forall v :: v in keys ==> v == w || v in keys[..|keys| - 1];
      prev[w := (if w in prev then prev[w] else {}) + {p}]
  }

  /** Each of `keys` is a key of `m`. */
  predicate KeysIn(keys: seq<string>, m: map<string, set<int>>) {
    forall i :: 0 <= i < |keys| ==> keys[i] in m
  }

  /** One entry per key of `keys`, in that order, with the key's positions ascending. */
  function FreezeKeys(m: map<string, set<int>>, keys: seq<string>): seq<Entry>
    requires KeysIn(keys, m)
    decreases |keys|
  {
    if |keys| == 0 then []
    else
      var k := keys[|keys| - 1];
      FreezeKeys(m, keys[..|keys| - 1]) + [Entry(k, SortedSeqOf(m[k]))]
  }

  lemma {:induction false} FreezeKeysEntries(m: map<string, set<int>>, keys: seq<string>)
    requires KeysIn(keys, m)
    ensures |FreezeKeys(m, keys)| == |keys|
    ensures forall i :: 0 <= i < |keys| ==> FreezeKeys(m, keys)[i].key == keys[i]
    ensures forall i :: 0 <= i < |keys| ==> Increasing(FreezeKeys(m, keys)[i].positions)
    ensures forall i :: 0 <= i < |keys| ==> forall x :: x in FreezeKeys(m, keys)[i].positions <==> x in m[keys[i]]
    decreases |keys|
  {
    if |keys| > 0 {
      var init := keys[..|keys| - 1];
      FreezeKeysEntries(m, init);
    }
  }

  lemma FreezeKeysStep(m: map<string, set<int>>, keys: seq<string>, i: nat)
    requires i < |keys| && KeysIn(keys, m)
    ensures KeysIn(keys[..i], m) && KeysIn(keys[..i + 1], m)
    ensures FreezeKeys(m, keys[..i + 1]) == FreezeKeys(m, keys[..i]) + [Entry(keys[i], SortedSeqOf(m[keys[i]]))]
  {
    assert keys[..i + 1][..i] == keys[..i];
  }

  /** Frozen in ascending key order, the entries are ascending by key and cover exactly the map's keys. */
  lemma FreezeKeysOrdered(m: map<string, set<int>>, keys: seq<string>)
    requires KeysIn(keys, m) && StrIncreasing(keys)
    requires forall w :: w in keys <==> w in m
    ensures var r := FreezeKeys(m, keys);
      |r| == |keys| &&
      (forall i, j :: 0 <= i < j < |r| ==> StrLess(r[i].key, r[j].key)) &&
      (forall w :: w in m <==> exists i :: 0 <= i < |r| && r[i].key == w) &&
      (forall i :: 0 <= i < |r| ==> r[i].key in m && Increasing(r[i].positions)) &&
      (forall i :: 0 <= i < |r| ==> forall x :: x in r[i].positions <==> x in m[r[i].key])
  {
    FreezeKeysEntries(m, keys);
    var r := FreezeKeys(m, keys);
    forall w | w in m
      ensures exists i :: 0 <= i < |r| && r[i].key == w
    {
      var i :| 0 <= i < |keys| && keys[i] == w;
      assert r[i].key == w;
    }
  }

  /** What `build` appends for a temporary map: its keys ascending, each with its positions ascending. */
  function Freeze(m: map<string, set<int>>): (r: seq<Entry>)
    ensures |r| == |m.Keys|
    ensures forall i, j :: 0 <= i < j < |r| ==> StrLess(r[i].key, r[j].key)
    ensures forall w :: w in m <==> exists i :: 0 <= i < |r| && r[i].key == w
    ensures forall i :: 0 <= i < |r| ==> r[i].key in m && Increasing(r[i].positions)
    ensures forall i :: 0 <= i < |r| ==> forall x :: x in r[i].positions <==> x in m[r[i].key]
  {
    var keys := SortedStringsOf(m.Keys);
    assert KeysIn(keys, m);
    FreezeKeysOrdered(m, keys);
    FreezeKeys(m, keys)
  }

  lemma FreezeUnfold(m: map<string, set<int>>)
    ensures KeysIn(SortedStringsOf(m.Keys), m)
    ensures Freeze(m) == FreezeKeys(m, SortedStringsOf(m.Keys))
  {
  }

  /** Keys in non-decreasing order: what the binary searches of `match` need of a dictionary. */
  predicate KeysSorted(dict: seq<Entry>) {
    forall i, j :: 0 <= i < j < |dict| ==> !StrLess(dict[j].key, dict[i].key)
  }

  /** A dictionary built from scratch is sorted. */
  lemma FreezeSorted(m: map<string, set<int>>)
    ensures KeysSorted(Freeze(m))
  {
    var r := Freeze(m);
    forall i, j | 0 <= i < j < |r|
      ensures !StrLess(r[j].key, r[i].key)
    {
      StrLessAsymmetric(r[i].key, r[j].key);
    }
  }

  // ---------------------------------------------------------------------------
  // Prefix search: the `comp` functor, the two bounds and `match`
  // ---------------------------------------------------------------------------

  /** `comp(b, a)`, used by `std::lower_bound`: the key of `b` is below `a`. */
  predicate KeyBelow(e: Entry, token: string) {
    StrLess(e.key, token)
  }

  /** `comp(a, b)`, used by `std::upper_bound`: false when the key of `b` starts with `a`, else `a` is below it. */
  predicate TokenBelow(token: string, e: Entry) {
    if IsPrefix(token, e.key) then false else StrLess(token, e.key)
  }

  /** On a sorted dictionary the entries below the token come first. */
  lemma LowerPartitioned(dict: seq<Entry>, token: string)
    requires KeysSorted(dict)
    ensures forall i, j :: 0 <= i <= j < |dict| && KeyBelow(dict[j], token) ==> KeyBelow(dict[i], token)
  {
    forall i, j | 0 <= i < j < |dict| && KeyBelow(dict[j], token)
      ensures KeyBelow(dict[i], token)
    {
      StrLessTotal(dict[i].key, dict[j].key);
      if StrLess(dict[i].key, dict[j].key) {
        StrLessTransitive(dict[i].key, dict[j].key, token);
      }
    }
  }

  /** On a sorted dictionary the entries above the token without starting with it come last. */
  lemma UpperPartitioned(dict: seq<Entry>, token: string)
    requires KeysSorted(dict)
    ensures forall i, j :: 0 <= i <= j < |dict| && TokenBelow(token, dict[i]) ==> TokenBelow(token, dict[j])
  {
    forall i, j | 0 <= i < j < |dict| && TokenBelow(token, dict[i])
      ensures TokenBelow(token, dict[j])
    {
      var ki, kj := dict[i].key, dict[j].key;
      StrLessTotal(ki, kj);
      if StrLess(ki, kj) {
        StrLessTransitive(token, ki, kj);
      }
      if IsPrefix(token, kj) {
        PrefixBelowOthers(token, kj, ki);
      }
    }
  }

  /** `std::lower_bound` with `comp`: the first entry whose key is not below the token. */
  method LowerBound(dict: seq<Entry>, token: string) returns (lo: nat)
    requires KeysSorted(dict)
    ensures lo <= |dict|
    ensures forall i :: 0 <= i < lo ==> KeyBelow(dict[i], token)
    ensures forall i :: lo <= i < |dict| ==> !KeyBelow(dict[i], token)
  {
    LowerPartitioned(dict, token);
    lo := 0;
    var hi := |dict|;
    while lo < hi
      invariant 0 <= lo <= hi <= |dict|
      invariant forall i :: 0 <= i < lo ==> KeyBelow(dict[i], token)
      invariant forall i :: hi <= i < |dict| ==> !KeyBelow(dict[i], token)
    {
      var mid := (lo + hi) / 2;
      if KeyBelow(dict[mid], token) {
        lo := mid + 1;
      } else {
        hi := mid;
      }
    }
  }

  /** `std::upper_bound` with `comp`: the first entry the token is below. */
  method UpperBound(dict: seq<Entry>, token: string) returns (hi: nat)
    requires KeysSorted(dict)
    ensures hi <= |dict|
    ensures forall i :: 0 <= i < hi ==> !TokenBelow(token, dict[i])
    ensures forall i :: hi <= i < |dict| ==> TokenBelow(token, dict[i])
  {
    UpperPartitioned(dict, token);
    var lo := 0;
    hi := |dict|;
    while lo < hi
      invariant 0 <= lo <= hi <= |dict|
      invariant forall i :: 0 <= i < lo ==> !TokenBelow(token, dict[i])
      invariant forall i :: hi <= i < |dict| ==> TokenBelow(token, dict[i])
    {
      var mid := (lo + hi) / 2;
      if TokenBelow(token, dict[mid]) {
        hi := mid;
      } else {
        lo := mid + 1;
      }
    }
  }

  /** The positions of the entries whose key starts with `token`, concatenated in dictionary order. */
  function Matching(token: string, dict: seq<Entry>): seq<int>
    decreases |dict|
  {
    if |dict| == 0 then []
    else
      var last := dict[|dict| - 1];
      Matching(token, dict[..|dict| - 1]) + (if IsPrefix(token, last.key) then last.positions else [])
  }

  lemma {:induction false} MatchingAppend(token: string, a: seq<Entry>, b: seq<Entry>)
    ensures Matching(token, a + b) == Matching(token, a) + Matching(token, b)
    decreases |b|
  {
    if |b| == 0 {
      assert a + b == a;
    } else {
      var b' := b[..|b| - 1];
      assert (a + b)[..|a + b| - 1] == a + b';
      assert (a + b)[|a + b| - 1] == b[|b| - 1];
      MatchingAppend(token, a, b');
    }
  }

  lemma {:induction false} MatchingNone(token: string, dict: seq<Entry>)
    requires forall i :: 0 <= i < |dict| ==> !IsPrefix(token, dict[i].key)
    ensures Matching(token, dict) == []
    decreases |dict|
  {
    if |dict| > 0 {
      MatchingNone(token, dict[..|dict| - 1]);
    }
  }

  /** A position is matched exactly when some entry whose key starts with the token holds it. */
  lemma {:induction false} MatchingMembers(token: string, dict: seq<Entry>)
    ensures forall x :: x in Matching(token, dict) <==>
      exists i :: 0 <= i < |dict| && IsPrefix(token, dict[i].key) && x in dict[i].positions
    decreases |dict|
  {
    if |dict| > 0 {
      var init := dict[..|dict| - 1];
      MatchingMembers(token, init);
      assert forall i :: 0 <= i < |init| ==> init[i] == dict[i];
    }
  }

  lemma MatchingFrozenSound(token: string, m: map<string, set<int>>, x: int)
    requires x in Matching(token, Freeze(m))
    ensures exists w :: w in m && IsPrefix(token, w) && x in m[w]
  {
    var r := Freeze(m);
    MatchingMembers(token, r);
    var i :| 0 <= i < |r| && IsPrefix(token, r[i].key) && x in r[i].positions;
    var w := r[i].key;
    assert w in m && x in m[w];
  }

  lemma MatchingFrozenComplete(token: string, m: map<string, set<int>>, x: int, w: string)
    requires w in m && IsPrefix(token, w) && x in m[w]
    ensures x in Matching(token, Freeze(m))
  {
    var r := Freeze(m);
    MatchingMembers(token, r);
    var i :| 0 <= i < |r| && r[i].key == w;
    assert x in r[i].positions;
  }

  /** After `build` from scratch, a prefix query finds a position exactly when a word with that prefix was added with it. */
  lemma MatchingFrozen(token: string, m: map<string, set<int>>)
    ensures forall x :: x in Matching(token, Freeze(m)) <==>
      exists w :: w in m && IsPrefix(token, w) && x in m[w]
  {
    forall x
      ensures x in Matching(token, Freeze(m)) <==> exists w :: w in m && IsPrefix(token, w) && x in m[w]
    {
      if x in Matching(token, Freeze(m)) {
        MatchingFrozenSound(token, m, x);
      }
      if exists w :: w in m && IsPrefix(token, w) && x in m[w] {
        var w :| w in m && IsPrefix(token, w) && x in m[w];
        MatchingFrozenComplete(token, m, x, w);
      }
    }
  }

  /** The two bounds bracket exactly the entries whose key starts with the token. */
  lemma BoundsBracketMatches(dict: seq<Entry>, token: string, lower: nat, upper: nat)
    requires lower <= |dict| && upper <= |dict|
    requires forall i :: 0 <= i < lower ==> KeyBelow(dict[i], token)
    requires forall i :: lower <= i < |dict| ==> !KeyBelow(dict[i], token)
    requires forall i :: 0 <= i < upper ==> !TokenBelow(token, dict[i])
    requires forall i :: upper <= i < |dict| ==> TokenBelow(token, dict[i])
    ensures lower <= upper
    ensures forall i :: 0 <= i < lower ==> !IsPrefix(token, dict[i].key)
    ensures forall i :: lower <= i < upper ==> IsPrefix(token, dict[i].key)
    ensures forall i :: upper <= i < |dict| ==> !IsPrefix(token, dict[i].key)
  {
    if upper < lower {
      StrLessAsymmetric(dict[upper].key, token);
    }
    forall i | 0 <= i < lower
      ensures !IsPrefix(token, dict[i].key)
    {
      if IsPrefix(token, dict[i].key) {
        PrefixNotBelow(token, dict[i].key);
      }
    }
    forall i | lower <= i < upper
      ensures IsPrefix(token, dict[i].key)
    {
      if !IsPrefix(token, dict[i].key) {
        NeitherBelowNorAbove(token, dict[i].key);
      }
    }
  }

  /** On a sorted dictionary only the bracketed entries contribute to the match. */
  lemma MatchingBracketed(dict: seq<Entry>, token: string, lower: nat, upper: nat)
    requires lower <= upper <= |dict|
    requires forall i :: 0 <= i < lower ==> !IsPrefix(token, dict[i].key)
    requires forall i :: upper <= i < |dict| ==> !IsPrefix(token, dict[i].key)
    ensures Matching(token, dict) == Matching(token, dict[lower..upper])
  {
    assert dict == dict[..lower] + dict[lower..];
    MatchingNone(token, dict[..lower]);
    MatchingAppend(token, dict[..lower], dict[lower..]);
    assert dict[lower..] == dict[lower..upper] + dict[upper..];
    MatchingNone(token, dict[upper..]);
    MatchingAppend(token, dict[lower..upper], dict[upper..]);
  }

  /** `match` on a sorted dictionary: the positions of every entry whose key starts with `token`. */
  method Match(token: string, dict: seq<Entry>) returns (result: seq<int>)
    requires KeysSorted(dict)
    ensures result == Matching(token, dict)
  {
    var lower := LowerBound(dict, token);
    var upper := UpperBound(dict, token);
    BoundsBracketMatches(dict, token, lower, upper);
    MatchingBracketed(dict, token, lower, upper);
    var range := dict[lower..upper];
    assert forall k :: 0 <= k < |range| ==> IsPrefix(token, range[k].key);
    result := [];
    var i := 0;
    while i < |range|
      invariant 0 <= i <= |range|
      invariant result == Matching(token, range[..i])
    {
      assert range[..i + 1][..i] == range[..i];
      result := result + range[i].positions;
      i := i + 1;
    }
    assert range[..i] == range;
  }

  // ---------------------------------------------------------------------------
  // `find`: the positions matching every token
  // ---------------------------------------------------------------------------

  /** `x` is matched by each of the first `k` tokens. */
  predicate InAllMatches(x: int, tokens: seq<string>, k: nat, dict: seq<Entry>)
    requires k <= |tokens|
  {
    forall i :: 0 <= i < k ==> x in Matching(tokens[i], dict)
  }

  /** The positions of the first match that survive the next `k - 1` intersections. */
  function Survivors(tokens: seq<string>, k: nat, dict: seq<Entry>): set<int>
    requires 1 <= k <= |tokens|
  {
    set x | x in Matching(tokens[0], dict) && InAllMatches(x, tokens, k, dict)
  }

  /** What `find` returns: nothing for no token, the raw match for one, the sorted intersection otherwise. */
  function FindSpec(tokens: seq<string>, dict: seq<Entry>): seq<int>
  {
    if |tokens| == 0 then []
    else if |tokens| == 1 then Matching(tokens[0], dict)
    else SortedSeqOf(Survivors(tokens, |tokens|, dict))
  }

  /** A position is found exactly when every token is a prefix of one of its indexed words. */
  lemma FindSpecMembers(tokens: seq<string>, dict: seq<Entry>)
    requires |tokens| > 0
    ensures forall x :: x in FindSpec(tokens, dict) <==> InAllMatches(x, tokens, |tokens|, dict)
    ensures |tokens| > 1 ==> Increasing(FindSpec(tokens, dict))
  {
    var t0 := tokens[0];
    assert forall x :: InAllMatches(x, tokens, |tokens|, dict) ==> x in Matching(t0, dict);
  }

  // ---------------------------------------------------------------------------
  // Qualities
  // ---------------------------------------------------------------------------

  /** C++ `int` division, which truncates toward zero (Dafny's `/` is Euclidean). */
  function CDiv(a: int, b: int): (q: int)
    requires b > 0
    ensures a >= 0 ==> 0 <= a - q * b < b
    ensures a < 0 ==> -b < a - q * b <= 0
    ensures (-a) / b == -q || a >= 0
  {
    if a >= 0 then a / b else -((-a) / b)
  }

  function Abs(a: int): nat {
    if a < 0 then -a else a
  }

  /** `calc_quality_fl` for a label with statistics `wq`. */
  function QualityFl(wq: WordQuality, nbFound: int, wordLen: int, wordweight: int, maxScore: int): int {
    100 - (wq.wordCount - nbFound) * wordweight - (wq.wordDistance - wordLen) - CDiv(maxScore - wq.score, 10)
  }

  /** `calc_quality_pattern` for a label with statistics `wq`. */
  function QualityPattern(wq: WordQuality, nbFound: int, wordLen: int, wordweight: int, maxScore: int, pattCount: int): int {
    100 - (pattCount - nbFound) * wordweight - Abs(wq.wordDistance - wordLen) - CDiv(maxScore - wq.score, 10)
  }

  lemma MulMonotone(a: int, b: int, w: int)
    requires a <= b && w >= 0
    ensures a * w <= b * w
  {
    assert b * w - a * w == (b - a) * w;
  }

  /** With a non-negative word weight, matching more of the label's words never lowers the quality. */
  lemma QualityFlMonotone(wq: WordQuality, nb1: int, nb2: int, wordLen: int, wordweight: int, maxScore: int)
    requires wordweight >= 0 && nb1 <= nb2
    ensures QualityFl(wq, nb1, wordLen, wordweight, maxScore) <= QualityFl(wq, nb2, wordLen, wordweight, maxScore)
  {
    MulMonotone(wq.wordCount - nb2, wq.wordCount - nb1, wordweight);
  }

  /** The same for the pattern quality: more patterns found never lowers it. */
  lemma QualityPatternMonotone(wq: WordQuality, nb1: int, nb2: int, wordLen: int, wordweight: int, maxScore: int, pattCount: int)
    requires wordweight >= 0 && nb1 <= nb2
    ensures QualityPattern(wq, nb1, wordLen, wordweight, maxScore, pattCount)
         <= QualityPattern(wq, nb2, wordLen, wordweight, maxScore, pattCount)
  {
    MulMonotone(pattCount - nb2, pattCount - nb1, wordweight);
  }

  /** Because the division truncates, a score less than ten away from the maximum (either way) costs nothing. */
  lemma ScoreWithinTenIsFree(wq: WordQuality, nbFound: int, wordLen: int, wordweight: int, maxScore: int)
    requires -10 < maxScore - wq.score < 10
    ensures QualityFl(wq, nbFound, wordLen, wordweight, maxScore)
         == 100 - (wq.wordCount - nbFound) * wordweight - (wq.wordDistance - wordLen)
  {
  }

  /** A label with every word found, of the query's length and of the best score has quality 100. */
  lemma QualityFlPerfect(wq: WordQuality, wordweight: int)
    ensures QualityFl(wq, wq.wordCount, wq.wordDistance, wordweight, wq.score) == 100
  {
  }

  /** The pattern quality penalises a label longer or shorter than the query alike. */
  lemma QualityPatternDistanceSymmetric(wq: WordQuality, d: int, nbFound: int, wordLen: int, wordweight: int, maxScore: int, pattCount: int)
    ensures QualityPattern(wq.(wordDistance := wordLen + d), nbFound, wordLen, wordweight, maxScore, pattCount)
         == QualityPattern(wq.(wordDistance := wordLen - d), nbFound, wordLen, wordweight, maxScore, pattCount)
  {
  }

  /** The typo filter of `find_partial_with_pattern`: the truncated percentage of missed patterns is at most 25. */
  predicate TypoTolerated(pattCount: int, nbFound: int)
    requires pattCount > 0
  {
    CDiv((pattCount - nbFound) * 100, pattCount) <= 25
  }

  /** The filter keeps a label exactly when fewer than 26% of the patterns were missed. */
  lemma {:induction false} TypoToleratedExact(pattCount: int, nbFound: int)
    requires pattCount > 0
    ensures TypoTolerated(pattCount, nbFound) <==> (pattCount - nbFound) * 100 < 26 * pattCount
  {
    var a := (pattCount - nbFound) * 100;
    var q := CDiv(a, pattCount);
    if a >= 0 {
      if q <= 25 {
        MulMonotone(q, 25, pattCount);
      } else {
        MulMonotone(26, q, pattCount);
      }
    } else {
      if q > 25 {
        MulMonotone(0, q, pattCount);
      }
    }
  }

  /** The `max_score` loop: the best score among the kept positions, or 0. */
  function MaxKeptScore(found: seq<int>, keep: int -> bool, wql: map<int, WordQuality>): (m: int)
    requires forall i :: 0 <= i < |found| && keep(found[i]) ==> found[i] in wql
    ensures m >= 0
    ensures forall i :: 0 <= i < |found| && keep(found[i]) ==> wql[found[i]].score <= m
    ensures m == 0 || exists i :: 0 <= i < |found| && keep(found[i]) && wql[found[i]].score == m
    decreases |found|
  {
    if |found| == 0 then 0
    else
      var init := found[..|found| - 1];
      var last := found[|found| - 1];
      var m := MaxKeptScore(init, keep, wql);
      assert forall i :: 0 <= i < |init| ==> init[i] == found[i];
      if keep(last) && wql[last].score > m then wql[last].score else m
  }

  // ---------------------------------------------------------------------------
  // Candidates and `sort_and_truncate`
  // ---------------------------------------------------------------------------

  /** The records `find_complete` builds for the kept positions, in the order they were found. */
  function CompleteCandidates(found: seq<int>, keep: int -> bool, wql: map<int, WordQuality>,
                              wordCount: int, wordLen: int, wordweight: int, maxScore: int): (r: seq<FlQuality>)
    requires forall i :: 0 <= i < |found| && keep(found[i]) ==> found[i] in wql
    ensures forall e :: e in r ==>
      e.idx in found && keep(e.idx) && e.idx in wql && e.nbFound == wordCount && e.wordLen == wordLen &&
      e.quality == QualityFl(wql[e.idx], wordCount, wordLen, wordweight, maxScore)
    ensures forall i :: 0 <= i < |found| && keep(found[i]) ==> exists e :: e in r && e.idx == found[i]
    decreases |found|
  {
    if |found| == 0 then []
    else
      var init := found[..|found| - 1];
      var last := found[|found| - 1];
      assert forall i :: 0 <= i < |init| ==> init[i] == found[i];
      var prev := CompleteCandidates(init, keep, wql, wordCount, wordLen, wordweight, maxScore);
      prev + if keep(last) then [FlQuality(last, wordCount, wordLen, QualityFl(wql[last], wordCount, wordLen, wordweight, maxScore))] else []
  }

  /** The records `find_partial_with_pattern` builds for the kept and tolerated positions, in the order of `keys`. */
  function PartialCandidates(keys: seq<int>, counts: map<int, int>, keep: int -> bool, wql: map<int, WordQuality>,
                             pattCount: int, wordLen: int, wordweight: int, maxScore: int): (r: seq<FlQuality>)
    requires pattCount > 0
    requires forall i :: 0 <= i < |keys| ==> keys[i] in counts && keys[i] in wql
    ensures forall e :: e in r ==>
      e.idx in keys && keep(e.idx) && e.idx in counts && e.idx in wql && e.nbFound == counts[e.idx] &&
      TypoTolerated(pattCount, e.nbFound) && e.wordLen == wordLen &&
      e.quality == QualityPattern(wql[e.idx], e.nbFound, wordLen, wordweight, maxScore, pattCount)
    ensures forall i :: 0 <= i < |keys| && keep(keys[i]) && TypoTolerated(pattCount, counts[keys[i]]) ==>
      exists e :: e in r && e.idx == keys[i]
    decreases |keys|
  {
    if |keys| == 0 then []
    else
      var init := keys[..|keys| - 1];
      var k := keys[|keys| - 1];
      assert forall i :: 0 <= i < |init| ==> init[i] == keys[i];
      var prev := PartialCandidates(init, counts, keep, wql, pattCount, wordLen, wordweight, maxScore);
      var nb := counts[k];
      prev + if keep(k) && TypoTolerated(pattCount, nb)
             then [FlQuality(k, nb, wordLen, QualityPattern(wql[k], nb, wordLen, wordweight, maxScore, pattCount))]
             else []
  }

  /**
   * `r` is what `std::partial_sort` on the quality order followed by `resize(nbmax)` can leave:
   * at most `nbmax` records of the input, best quality first, none beaten by a dropped one.
   * Records of equal quality may come in any order.
   */
  ghost predicate IsBestPrefix(r: seq<FlQuality>, input: seq<FlQuality>, nbmax: nat) {
    |r| == Min(nbmax, |input|)
    && QualityDescending(r)
    && multiset(r) <= multiset(input)
    && (forall e, d :: e in r && d in multiset(input) - multiset(r) ==> e.quality >= d.quality)
  }

  /** Records sorted best quality first. */
  predicate QualityDescending(s: seq<FlQuality>) {
    forall i, j :: 0 <= i < j < |s| ==> s[i].quality >= s[j].quality
  }

  lemma MultisetSplit<T>(s: seq<T>, k: nat)
    requires k <= |s|
    ensures multiset(s) - multiset(s[..k]) == multiset(s[k..])
    ensures multiset(s[..k]) <= multiset(s)
  {
    assert s == s[..k] + s[k..];
  }

  /** A prefix of a best-first reordering of the input is a best prefix of it. */
  lemma PrefixOfDescendingIsBest(sorted: seq<FlQuality>, input: seq<FlQuality>, nbmax: nat)
    requires QualityDescending(sorted) && multiset(sorted) == multiset(input)
    ensures IsBestPrefix(sorted[..Min(nbmax, |sorted|)], input, nbmax)
  {
    var k := Min(nbmax, |sorted|);
    var r, tail := sorted[..k], sorted[k..];
    assert |sorted| == |multiset(sorted)| == |input|;
    MultisetSplit(sorted, k);
    forall e: FlQuality, d: FlQuality | e in r && d in multiset(tail)
      ensures e.quality >= d.quality
    {
      var i :| 0 <= i < |r| && r[i] == e;
      var j :| 0 <= j < |tail| && tail[j] == d;
      assert sorted[i] == e && sorted[k + j] == d;
    }
  }

  /** `sort_and_truncate`. */
  function SortAndTruncate(input: seq<FlQuality>, nbmax: nat): (r: seq<FlQuality>)
    ensures IsBestPrefix(r, input, nbmax)
  {
    var key := (q: FlQuality) => -q.quality;
    var sorted := SortBy(input, key);
    assert QualityDescending(sorted) by {
      forall i, j | 0 <= i < j < |sorted|
        ensures sorted[i].quality >= sorted[j].quality
      {
        assert key(sorted[i]) <= key(sorted[j]);
      }
    }
    PrefixOfDescendingIsBest(sorted, input, nbmax);
    sorted[..Min(nbmax, |sorted|)]
  }

  /** When everything fits, truncation drops nothing: the result is a reordering of the input. */
  lemma BestPrefixKeepsAll(r: seq<FlQuality>, input: seq<FlQuality>, nbmax: nat)
    requires IsBestPrefix(r, input, nbmax) && nbmax >= |input|
    ensures multiset(r) == multiset(input)
  {
    var rest := multiset(input) - multiset(r);
    assert multiset(input) == multiset(r) + rest;
    assert |multiset(input)| == |multiset(r)| + |rest|;
    assert |rest| == 0;
  }

  // ---------------------------------------------------------------------------
  // Pattern hits: `fl_result` of `find_partial_with_pattern`
  // ---------------------------------------------------------------------------

  /** The positions hit by each pattern in turn, with repetitions. */
  function Hits(patterns: seq<string>, dict: seq<Entry>): seq<int>
    decreases |patterns|
  {
    if |patterns| == 0 then []
    else Hits(patterns[..|patterns| - 1], dict) + Matching(patterns[|patterns| - 1], dict)
  }

  lemma HitsStep(patterns: seq<string>, k: nat, dict: seq<Entry>)
    requires k < |patterns|
    ensures Hits(patterns[..k + 1], dict) == Hits(patterns[..k], dict) + Matching(patterns[k], dict)
    ensures k == 0 ==> Hits(patterns[..k], dict) == [] && HitCounts([]) == map[]
  {
    assert patterns[..k + 1][..k] == patterns[..k];
  }

  /** `fl_result` after counting `hits`: how many times each hit position was hit. */
  function HitCounts(hits: seq<int>): map<int, int> {
    map x | x in hits :: multiset(hits)[x]
  }

  /** Counting more hits into a table of counts gives the counts of all the hits together. */
  lemma HitCountsExtend(h: seq<int>, found: seq<int>, updated: map<int, int>)
    requires forall x :: x in updated <==> x in HitCounts(h) || x in found
    requires forall x :: x in updated ==>
      updated[x] == (if x in HitCounts(h) then HitCounts(h)[x] else 0) + multiset(found)[x]
    ensures updated == HitCounts(h + found)
  {
    var all := HitCounts(h + found);
    assert multiset(h + found) == multiset(h) + multiset(found);
    forall x | x in updated
      ensures x in all && updated[x] == all[x]
    {
      if x !in h {
        assert multiset(h)[x] == 0;
      }
    }
    assert forall x :: x in all ==> x in updated;
  }

  // ---------------------------------------------------------------------------
  // Coverage: every position held by the index has statistics
  // ---------------------------------------------------------------------------

  /** Every position held by the temporary map is in `ks`. */
  predicate MapCovered(m: map<string, set<int>>, ks: set<int>) {
    forall w :: w in m ==> m[w] <= ks
  }

  /** Every position held by the dictionary is in `ks`. */
  predicate DictCovered(dict: seq<Entry>, ks: set<int>) {
    forall i, x :: 0 <= i < |dict| && x in dict[i].positions ==> x in ks
  }

  lemma AddPositionCovered(m: map<string, set<int>>, keys: seq<string>, p: int, ks: set<int>)
    requires MapCovered(m, ks)
    ensures MapCovered(AddPosition(m, keys, p), ks + {p})
  {
    var r := AddPosition(m, keys, p);
    forall w, q | w in r && q in r[w]
      ensures q in ks + {p}
    {
    }
  }

  /** `add_string` keeps every indexed position covered by the statistics. */
  lemma AddStringCovered(wordMap: map<string, set<int>>, patternMap: map<string, set<int>>,
                         words: seq<Entry>, patterns: seq<Entry>, wql: map<int, WordQuality>,
                         tokens: seq<string>, position: int, q: WordQuality)
    requires MapCovered(wordMap, wql.Keys) && MapCovered(patternMap, wql.Keys)
    requires DictCovered(words, wql.Keys) && DictCovered(patterns, wql.Keys)
    ensures var ks := wql[position := q].Keys;
      MapCovered(AddPosition(wordMap, tokens, position), ks) &&
      MapCovered(AddPosition(patternMap, Patterns(tokens, NGram), position), ks) &&
      DictCovered(words, ks) && DictCovered(patterns, ks)
  {
    var ks := wql.Keys;
    assert wql[position := q].Keys == ks + {position};
    AddPositionCovered(wordMap, tokens, position, ks);
    AddPositionCovered(patternMap, Patterns(tokens, NGram), position, ks);
  }

  lemma FreezeCovered(dict: seq<Entry>, m: map<string, set<int>>, ks: set<int>)
    requires DictCovered(dict, ks) && MapCovered(m, ks)
    ensures DictCovered(dict + Freeze(m), ks)
  {
    var f := Freeze(m);
    var d := dict + f;
    forall i, x | 0 <= i < |d| && x in d[i].positions
      ensures x in ks
    {
      if i >= |dict| {
        assert d[i] == f[i - |dict|];
      }
    }
  }

  lemma MatchingCovered(token: string, dict: seq<Entry>, ks: set<int>)
    requires DictCovered(dict, ks)
    ensures forall x :: x in Matching(token, dict) ==> x in ks
  {
    MatchingMembers(token, dict);
  }

  lemma {:induction false} HitsCovered(patterns: seq<string>, dict: seq<Entry>, ks: set<int>)
    requires DictCovered(dict, ks)
    ensures forall x :: x in Hits(patterns, dict) ==> x in ks
    decreases |patterns|
  {
    if |patterns| > 0 {
      HitsCovered(patterns[..|patterns| - 1], dict, ks);
      MatchingCovered(patterns[|patterns| - 1], dict, ks);
    }
  }

  lemma FindSpecCovered(tokens: seq<string>, dict: seq<Entry>, ks: set<int>)
    requires DictCovered(dict, ks)
    ensures forall x :: x in FindSpec(tokens, dict) ==> x in ks
  {
    if |tokens| > 0 {
      FindSpecMembers(tokens, dict);
      MatchingCovered(tokens[0], dict, ks);
    }
  }

  lemma FindSpecIndexed(tokens: seq<string>, dict: seq<Entry>, wql: map<int, WordQuality>)
    requires DictCovered(dict, wql.Keys)
    ensures forall i :: 0 <= i < |FindSpec(tokens, dict)| ==> FindSpec(tokens, dict)[i] in wql
  {
    var found := FindSpec(tokens, dict);
    FindSpecCovered(tokens, dict, wql.Keys);
    forall i | 0 <= i < |found|
      ensures found[i] in wql
    {
      assert found[i] in found;
    }
  }

  lemma MatchingIndexed(token: string, dict: seq<Entry>, wql: map<int, WordQuality>)
    requires DictCovered(dict, wql.Keys)
    ensures forall i :: 0 <= i < |Matching(token, dict)| ==> Matching(token, dict)[i] in wql
  {
    var found := Matching(token, dict);
    MatchingCovered(token, dict, wql.Keys);
    forall i | 0 <= i < |found|
      ensures found[i] in wql
    {
      var x := found[i];
      assert x in found;
      assert x in Matching(token, dict);
      assert x in wql.Keys;
    }
  }

  lemma CountsIndexed(patterns: seq<string>, dict: seq<Entry>, wql: map<int, WordQuality>, keys: seq<int>)
    requires DictCovered(dict, wql.Keys)
    requires forall x :: x in keys <==> x in HitCounts(Hits(patterns, dict))
    ensures forall i :: 0 <= i < |keys| ==> keys[i] in HitCounts(Hits(patterns, dict)) && keys[i] in wql
  {
    HitsCovered(patterns, dict, wql.Keys);
    forall i | 0 <= i < |keys|
      ensures keys[i] in HitCounts(Hits(patterns, dict)) && keys[i] in wql
    {
      var x := keys[i];
      assert x in keys;
      assert x in Hits(patterns, dict);
      assert x in wql.Keys;
    }
  }

  // ---------------------------------------------------------------------------
  // Operations that do not depend on the index's state
  // ---------------------------------------------------------------------------

  /** `make_vec_pattern`: the patterns of the words, in order. */
  method MakeVecPattern(words: seq<string>, n: nat) returns (pattern: seq<string>)
    ensures pattern == Patterns(words, n)
  {
    pattern := [];
    var k := 0;
    while k < |words|
      invariant 0 <= k <= |words|
      invariant pattern == Patterns(words[..k], n)
    {
      var word := words[k];
      assert words[..k + 1][..k] == words[..k];
      ghost var wp := WordPatterns(word, n);
      if |word| > n {
        var i := 0;
        while i <= |word| - n
          invariant 0 <= i <= |word| - n + 1
          invariant pattern == Patterns(words[..k], n) + wp[..i]
        {
          assert wp[..i + 1] == wp[..i] + [word[i..i + n]];
          pattern := pattern + [word[i..i + n]];
          i := i + 1;
        }
        assert wp[..i] == wp;
      } else {
        pattern := pattern + [word];
      }
      k := k + 1;
    }
    assert words[..k] == words;
  }

  /** One loop of `build`: push one entry per key of the temporary map, keys ascending. */
  method AppendFrozen(dict: seq<Entry>, m: map<string, set<int>>) returns (r: seq<Entry>)
    ensures r == dict + Freeze(m)
  {
    FreezeUnfold(m);
    r := AppendEntries(dict, m, SortedStringsOf(m.Keys));
  }

  /** The loop body of `AppendFrozen` over a given key order. */
  method AppendEntries(dict: seq<Entry>, m: map<string, set<int>>, keys: seq<string>) returns (r: seq<Entry>)
    requires KeysIn(keys, m)
    ensures r == dict + FreezeKeys(m, keys)
  {
    r := dict;
    var i := 0;
    while i < |keys|
      invariant 0 <= i <= |keys|
      invariant KeysIn(keys[..i], m)
      invariant r == dict + FreezeKeys(m, keys[..i])
    {
      FreezeKeysStep(m, keys, i);
      r := r + [Entry(keys[i], SortedSeqOf(m[keys[i]]))];
      i := i + 1;
    }
    assert keys[..i] == keys;
  }

  /** `add_word_quality`: count one more hit for each position found. */
  method AddWordQuality(flResult: map<int, int>, found: seq<int>) returns (updated: map<int, int>)
    ensures forall x :: x in updated <==> x in flResult || x in found
    ensures forall x :: x in updated ==>
      updated[x] == (if x in flResult then flResult[x] else 0) + multiset(found)[x]
  {
    updated := flResult;
    var i := 0;
    while i < |found|
      invariant 0 <= i <= |found|
      invariant forall x :: x in updated <==> x in flResult || x in found[..i]
      invariant forall x :: x in updated ==>
        updated[x] == (if x in flResult then flResult[x] else 0) + multiset(found[..i])[x]
    {
      var x := found[i];
      assert found[..i + 1] == found[..i] + [x];
      updated := updated[x := (if x in updated then updated[x] else 0) + 1];
      i := i + 1;
    }
    assert found[..i] == found;
  }

  /** `words_length`: the summed length of the tokens. */
  method WordsLength(words: seq<string>) returns (distance: int)
    ensures distance == TotalLength(words)
  {
    distance := 0;
    var i := 0;
    while i < |words|
      invariant 0 <= i <= |words|
      invariant distance == TotalLength(words[..i])
    {
      assert words[..i + 1][..i] == words[..i];
      distance := distance + |words[i]|;
      i := i + 1;
    }
    assert words[..i] == words;
  }

  /** `is_address_type`: some token is one of the street types. */
  method IsAddressType(tokens: seq<string>) returns (result: bool)
    ensures result <==> exists i :: 0 <= i < |tokens| && tokens[i] in AddressTypes
  {
    result := false;
    var a := 0;
    while a < |tokens| && !result
      invariant 0 <= a <= |tokens|
      invariant result <==> exists i :: 0 <= i < a && tokens[i] in AddressTypes
    {
      var t := 0;
      while t < |AddressTypes| && !result
        invariant 0 <= t <= |AddressTypes|
        invariant result <==> exists j :: 0 <= j < t && tokens[a] == AddressTypes[j]
      {
        if tokens[a] == AddressTypes[t] {
          result := true;
        }
        t := t + 1;
      }
      a := a + 1;
    }
  }

  /** One round of `find`: the positions of `matches` also in `result`, ascending and without repetition. */
  method KeepCommon(result: seq<int>, matches: seq<int>) returns (next: seq<int>)
    ensures Increasing(next)
    ensures forall x :: x in next <==> x in matches && x in result
  {
    var sorted := SortInts(result);
    assert forall x :: x in sorted <==> x in multiset(result);
    var newResult := [];
    var j := 0;
    while j < |matches|
      invariant 0 <= j <= |matches|
      invariant forall x :: x in newResult <==> x in matches[..j] && x in result
    {
      var found := BinarySearch(sorted, matches[j]);
      assert matches[..j + 1] == matches[..j] + [matches[j]];
      if found {
        newResult := newResult + [matches[j]];
      }
      j := j + 1;
    }
    assert matches[..j] == matches;
    ghost var kept := newResult;
    newResult := SortInts(newResult);
    assert forall x :: x in newResult <==> x in multiset(kept);
    next := Unique(newResult);
  }

  // ---------------------------------------------------------------------------
  // The index
  // ---------------------------------------------------------------------------

  /** `Autocomplete<T>`: the temporary maps filled by `add_string`, the dictionaries `build` makes of them, and the label statistics. */
  class Index {
    var tempWordMap: map<string, set<int>>
    var wordDictionary: seq<Entry>
    var tempPatternMap: map<string, set<int>>
    var patternDictionary: seq<Entry>
    var wordQualityList: map<int, WordQuality>

    /** Every position the index holds has statistics, so `word_quality_list.at` never fails in a query. */
    ghost predicate Valid()
      reads this
    {
      var ks := wordQualityList.Keys;
      MapCovered(tempWordMap, ks) && MapCovered(tempPatternMap, ks) &&
      DictCovered(wordDictionary, ks) && DictCovered(patternDictionary, ks)
    }

    /** Nothing indexed. */
    ghost predicate Empty()
      reads this
    {
      tempWordMap == map[] && wordDictionary == [] && tempPatternMap == map[] &&
      patternDictionary == [] && wordQualityList == map[]
    }

    constructor ()
      ensures Empty() && Valid()
    {
      tempWordMap := map[];
      wordDictionary := [];
      tempPatternMap := map[];
      patternDictionary := [];
      wordQualityList := map[];
    }

    /** `clear`. */
    method Clear()
      modifies this
      ensures Empty() && Valid()
    {
      tempWordMap := map[];
      wordDictionary := [];
      tempPatternMap := map[];
      patternDictionary := [];
      wordQualityList := map[];
    }

    /** `add_vec_pattern`: record `position` under every pattern of the tokens. */
    method AddVecPattern(tokens: seq<string>, position: int)
      modifies this
      ensures tempPatternMap == AddPosition(old(tempPatternMap), Patterns(tokens, NGram), position)
      ensures tempWordMap == old(tempWordMap) && wordQualityList == old(wordQualityList)
      ensures wordDictionary == old(wordDictionary) && patternDictionary == old(patternDictionary)
    {
      var patterns := MakeVecPattern(tokens, NGram);
      var i := 0;
      while i < |patterns|
        invariant 0 <= i <= |patterns|
        invariant tempPatternMap == AddPosition(old(tempPatternMap), patterns[..i], position)
        invariant tempWordMap == old(tempWordMap) && wordQualityList == old(wordQualityList)
        invariant wordDictionary == old(wordDictionary) && patternDictionary == old(patternDictionary)
      {
        var p := patterns[i];
        assert patterns[..i + 1][..i] == patterns[..i];
        tempPatternMap := tempPatternMap[p := (if p in tempPatternMap then tempPatternMap[p] else {}) + {position}];
        i := i + 1;
      }
      assert patterns[..i] == patterns;
    }

    /** `add_string`: index a tokenized label at `position` under its words and patterns, and record its statistics. */
    method AddString(tokens: seq<string>, position: int)
      modifies this
      ensures tempWordMap == AddPosition(old(tempWordMap), tokens, position)
      ensures tempPatternMap == AddPosition(old(tempPatternMap), Patterns(tokens, NGram), position)
      ensures wordQualityList == old(wordQualityList)[position := WordQuality(|tokens|, TotalLength(tokens), 0)]
      ensures wordDictionary == old(wordDictionary) && patternDictionary == old(patternDictionary)
      ensures old(Valid()) ==> Valid()
    {
      AddVecPattern(tokens, position);
      var count := |tokens|;
      var distance := 0;
      var i := 0;
      while i < |tokens|
        invariant 0 <= i <= |tokens|
        invariant tempWordMap == AddPosition(old(tempWordMap), tokens[..i], position)
        invariant distance == TotalLength(tokens[..i])
        invariant tempPatternMap == AddPosition(old(tempPatternMap), Patterns(tokens, NGram), position)
        invariant wordQualityList == old(wordQualityList)
        invariant wordDictionary == old(wordDictionary) && patternDictionary == old(patternDictionary)
      {
        var w := tokens[i];
        assert tokens[..i + 1][..i] == tokens[..i];
        tempWordMap := tempWordMap[w := (if w in tempWordMap then tempWordMap[w] else {}) + {position}];
        distance := distance + |w|;
        i := i + 1;
      }
      assert tokens[..i] == tokens;
      wordQualityList := wordQualityList[position := WordQuality(count, distance, 0)];
      if old(Valid()) {
        AddStringCovered(old(tempWordMap), old(tempPatternMap), wordDictionary, patternDictionary,
                         old(wordQualityList), tokens, position, WordQuality(count, distance, 0));
      }
    }

    /** `build`: append the frozen temporary maps to the dictionaries; the temporary maps are kept. */
    method Build()
      modifies this
      ensures wordDictionary == old(wordDictionary) + Freeze(tempWordMap)
      ensures patternDictionary == old(patternDictionary) + Freeze(tempPatternMap)
      ensures tempWordMap == old(tempWordMap) && tempPatternMap == old(tempPatternMap)
      ensures wordQualityList == old(wordQualityList)
      ensures old(Valid()) ==> Valid()
    {
      wordDictionary := AppendFrozen(wordDictionary, tempWordMap);
      patternDictionary := AppendFrozen(patternDictionary, tempPatternMap);
      if old(Valid()) {
        var ks := wordQualityList.Keys;
        FreezeCovered(old(wordDictionary), tempWordMap, ks);
        FreezeCovered(old(patternDictionary), tempPatternMap, ks);
      }
    }

    /** `find`: the positions matched by every token, through sorting, binary search and `std::unique`. */
    method Find(tokens: seq<string>) returns (result: seq<int>)
      requires KeysSorted(wordDictionary)
      ensures result == FindSpec(tokens, wordDictionary)
    {
      result := [];
      if |tokens| > 0 {
        result := Match(tokens[0], wordDictionary);
        var k := 1;
        while k < |tokens|
          invariant 1 <= k <= |tokens|
          invariant forall x :: x in result <==> x in Survivors(tokens, k, wordDictionary)
          invariant k == 1 ==> result == Matching(tokens[0], wordDictionary)
          invariant k > 1 ==> Increasing(result)
        {
          var matches := Match(tokens[k], wordDictionary);
          var next := KeepCommon(result, matches);
          SurvivorsStep(tokens, k, wordDictionary);
          result := next;
          k := k + 1;
        }
        if k > 1 {
          IncreasingUnique(result, SortedSeqOf(Survivors(tokens, k, wordDictionary)));
        }
      }
    }

    /** The `max_score` loop of both queries. */
    method MaxScore(found: seq<int>, keep: int -> bool) returns (maxScore: int)
      requires forall i :: 0 <= i < |found| && keep(found[i]) ==> found[i] in wordQualityList
      ensures maxScore == MaxKeptScore(found, keep, wordQualityList)
    {
      maxScore := 0;
      var i := 0;
      while i < |found|
        invariant 0 <= i <= |found|
        invariant maxScore == MaxKeptScore(found[..i], keep, wordQualityList)
      {
        assert found[..i + 1][..i] == found[..i];
        var ir := found[i];
        if keep(ir) {
          maxScore := if wordQualityList[ir].score > maxScore then wordQualityList[ir].score else maxScore;
        }
        i := i + 1;
      }
      assert found[..i] == found;
    }

    /** The loop of `find_complete` over the found positions. */
    method CompleteQualities(found: seq<int>, keep: int -> bool, wordCount: int, wordLength: int,
                             wordweight: int, maxScore: int) returns (vecQuality: seq<FlQuality>)
      requires forall i :: 0 <= i < |found| && keep(found[i]) ==> found[i] in wordQualityList
      ensures vecQuality == CompleteCandidates(found, keep, wordQualityList, wordCount, wordLength, wordweight, maxScore)
    {
      vecQuality := [];
      var i := 0;
      while i < |found|
        invariant 0 <= i <= |found|
        invariant vecQuality == CompleteCandidates(found[..i], keep, wordQualityList, wordCount, wordLength, wordweight, maxScore)
      {
        assert found[..i + 1][..i] == found[..i];
        var idx := found[i];
        if keep(idx) {
          var quality := QualityFl(wordQualityList[idx], wordCount, wordLength, wordweight, maxScore);
          vecQuality := vecQuality + [FlQuality(idx, wordCount, wordLength, quality)];
        }
        i := i + 1;
      }
      assert found[..i] == found;
    }

    /** The records `find_complete` sorts and truncates. */
    ghost function CompleteSpec(tokens: seq<string>, wordweight: int, keep: int -> bool): seq<FlQuality>
      reads this
      requires Valid()
    {
      var found := FindSpec(tokens, wordDictionary);
      FindSpecIndexed(tokens, wordDictionary, wordQualityList);
      var maxScore := MaxKeptScore(found, keep, wordQualityList);
      CompleteCandidates(found, keep, wordQualityList, |tokens|, TotalLength(tokens), wordweight, maxScore)
    }

    /** `find_complete`: the best `nbmax` kept positions matching every token. */
    method FindComplete(tokens: seq<string>, wordweight: int, nbmax: nat, keep: int -> bool) returns (r: seq<FlQuality>)
      requires Valid() && KeysSorted(wordDictionary)
      ensures IsBestPrefix(r, CompleteSpec(tokens, wordweight, keep), nbmax)
    {
      var found := Find(tokens);
      FindSpecIndexed(tokens, wordDictionary, wordQualityList);
      var wordCount := |tokens|;
      var wordLength := WordsLength(tokens);
      var maxScore := MaxScore(found, keep);
      var vecQuality := CompleteQualities(found, keep, wordCount, wordLength, wordweight, maxScore);
      r := SortAndTruncate(vecQuality, nbmax);
    }

    /** The hit-counting loop of `find_partial_with_pattern`: `fl_result`, and the match of the last pattern. */
    method CountHits(patterns: seq<string>) returns (flResult: map<int, int>, indexResult: seq<int>)
      requires |patterns| > 0 && KeysSorted(patternDictionary)
      ensures flResult == HitCounts(Hits(patterns, patternDictionary))
      ensures indexResult == Matching(patterns[|patterns| - 1], patternDictionary)
    {
      indexResult := Match(patterns[0], patternDictionary);
      flResult := AddWordQuality(map[], indexResult);
      HitsStep(patterns, 0, patternDictionary);
      HitCountsExtend([], indexResult, flResult);
      var k := 1;
      while k < |patterns|
        invariant 1 <= k <= |patterns|
        invariant flResult == HitCounts(Hits(patterns[..k], patternDictionary))
        invariant indexResult == Matching(patterns[k - 1], patternDictionary)
      {
        indexResult := Match(patterns[k], patternDictionary);
        ghost var before := Hits(patterns[..k], patternDictionary);
        flResult := AddWordQuality(flResult, indexResult);
        HitCountsExtend(before, indexResult, flResult);
        HitsStep(patterns, k, patternDictionary);
        k := k + 1;
      }
      assert patterns[..k] == patterns;
    }

    /** The loop of `find_partial_with_pattern` over `fl_result`, visited in the order of `keys`. */
    method PartialQualities(keys: seq<int>, flResult: map<int, int>, keep: int -> bool,
                            patternCount: int, wordLength: int, wordweight: int, maxScore: int) returns (vecQuality: seq<FlQuality>)
      requires patternCount > 0
      requires forall i :: 0 <= i < |keys| ==> keys[i] in flResult && keys[i] in wordQualityList
      ensures vecQuality == PartialCandidates(keys, flResult, keep, wordQualityList, patternCount, wordLength, wordweight, maxScore)
    {
      vecQuality := [];
      var j := 0;
      while j < |keys|
        invariant 0 <= j <= |keys|
        invariant vecQuality == PartialCandidates(keys[..j], flResult, keep, wordQualityList,
                                                  patternCount, wordLength, wordweight, maxScore)
      {
        assert keys[..j + 1][..j] == keys[..j];
        var idx := keys[j];
        var nbFound := flResult[idx];
        if keep(idx) && CDiv((patternCount - nbFound) * 100, patternCount) <= 25 {
          var quality := QualityPattern(wordQualityList[idx], nbFound, wordLength, wordweight, maxScore, patternCount);
          vecQuality := vecQuality + [FlQuality(idx, nbFound, wordLength, quality)];
        }
        j := j + 1;
      }
      assert keys[..j] == keys;
    }

    /** The records `find_partial_with_pattern` sorts and truncates. */
    ghost function PartialSpec(tokens: seq<string>, wordweight: int, keep: int -> bool): seq<FlQuality>
      reads this
      requires Valid()
    {
      var patterns := Patterns(tokens, NGram);
      if |patterns| == 0 then []
      else
        var counts := HitCounts(Hits(patterns, patternDictionary));
        var last := Matching(patterns[|patterns| - 1], patternDictionary);
        var keys := SortedSeqOf(counts.Keys);
        MatchingIndexed(patterns[|patterns| - 1], patternDictionary, wordQualityList);
        CountsIndexed(patterns, patternDictionary, wordQualityList, keys);
        var maxScore := MaxKeptScore(last, keep, wordQualityList);
        PartialCandidates(keys, counts, keep, wordQualityList,
                          |patterns|, TotalLength(tokens), wordweight, maxScore)
    }

    /** `find_partial_with_pattern`: the best `nbmax` kept positions sharing enough bigrams with the tokens. */
    method FindPartialWithPattern(tokens: seq<string>, wordweight: int, nbmax: nat, keep: int -> bool) returns (r: seq<FlQuality>)
      requires Valid() && KeysSorted(patternDictionary)
      ensures IsBestPrefix(r, PartialSpec(tokens, wordweight, keep), nbmax)
    {
      var flResult: map<int, int> := map[];
      var vecQuality: seq<FlQuality> := [];
      var patterns := MakeVecPattern(tokens, NGram);
      var wordLength := WordsLength(tokens);
      var patternCount := |patterns|;
      if |patterns| > 0 {
        var indexResult;
        flResult, indexResult := CountHits(patterns);
        MatchingIndexed(patterns[|patterns| - 1], patternDictionary, wordQualityList);
        var maxScore := MaxScore(indexResult, keep);
        var keys := SortedSeqOf(flResult.Keys);
        CountsIndexed(patterns, patternDictionary, wordQualityList, keys);
        vecQuality := PartialQualities(keys, flResult, keep, patternCount, wordLength, wordweight, maxScore);
        assert vecQuality == PartialSpec(tokens, wordweight, keep);
      }
      r := SortAndTruncate(vecQuality, nbmax);
    }
  }

  lemma SurvivorsStep(tokens: seq<string>, k: nat, dict: seq<Entry>)
    requires 1 <= k < |tokens|
    ensures forall x :: x in Survivors(tokens, k + 1, dict) <==>
      x in Matching(tokens[k], dict) && x in Survivors(tokens, k, dict)
  {
  }

  /**
   * After one build from empty, a position is found exactly when every token is a
   * prefix of some word added at that position.
   */
  lemma FindFrozen(tokens: seq<string>, m: map<string, set<int>>)
    requires |tokens| > 0
    ensures forall x :: x in FindSpec(tokens, Freeze(m)) <==>
      forall i :: 0 <= i < |tokens| ==> exists w :: w in m && IsPrefix(tokens[i], w) && x in m[w]
  {
    FindSpecMembers(tokens, Freeze(m));
    forall i | 0 <= i < |tokens| {
      MatchingFrozen(tokens[i], m);
    }
  }

  /** Since build appends without clearing, a second build over two or more words leaves the dictionary unsorted. */
  lemma RebuildUnsorted(m: map<string, set<int>>)
    requires |m.Keys| >= 2
    ensures !KeysSorted(Freeze(m) + Freeze(m))
  {
    var r := Freeze(m);
    var d := r + r;
    assert d[1] == r[1] && d[|r|] == r[0];
    assert StrLess(r[0].key, r[1].key);
    assert StrLess(d[|r|].key, d[1].key);
  }
}
