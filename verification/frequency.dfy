/** The frequency ranking `getFrequentWords`: lowercase the tokens, drop
    stopwords, count each word, order by count (largest first) and keep the
    first `n` entries. The versions differ in how ties are ordered and, in
    go-book, in what is counted. */
module Frequency {
  import opened Text
  import opened Sorting
  import opened Stopwords

  /** A (word, count) pair: `Map.Entry<String, Long>`, `Pair<String, Int>`,
      a Python tuple, Go's `wordFrequency`. */
  datatype Entry = Entry(word: string, count: nat)

  function CountOf(e: Entry): nat { e.count }

  function Words(r: seq<Entry>): (ws: seq<string>)
    ensures |ws| == |r| && forall i :: 0 <= i < |r| ==> ws[i] == r[i].word
  {
    seq(|r|, i requires 0 <= i < |r| => r[i].word)
  }

  /** No word appears in two entries. */
  predicate KeysDistinct(r: seq<Entry>)
  {
    forall i, j :: 0 <= i < j < |r| ==> r[i].word != r[j].word
  }

  /** `order` lists every distinct element of `q` exactly once: the iteration
      order of a hash map or set built from `q`, which the source leaves
      unspecified. */
  predicate Enumerates(order: seq<string>, q: seq<string>)
  {
    && NoDup(order)
    && (forall i :: 0 <= i < |order| ==> order[i] in q)
    && (forall i :: 0 <= i < |q| ==> q[i] in order)
  }

  /** The count of each word of `order` among `q`, in the order of `order`
      (`groupingBy(…, counting())`, `eachCount()`, `Counter`). */
  function EntriesOf(q: seq<string>, order: seq<string>): (e: seq<Entry>)
    ensures |e| == |order|
    ensures forall i :: 0 <= i < |order| ==> e[i] == Entry(order[i], Count(q, order[i]))
  {
    seq(|order|, i requires 0 <= i < |order| => Entry(order[i], Count(q, order[i])))
  }

  /** Counted entries, stably sorted by count descending, cut to `n`. */
  function RankByCount(q: seq<string>, order: seq<string>, n: nat): seq<Entry>
  {
    Take(SortDesc(EntriesOf(q, order), CountOf), n)
  }

  /** `getFrequentWords` of java-book. The counts come out of a `HashMap`,
      whose iteration order `hashOrder` is unspecified, so ties come out in
      some order; whatever that order, the result is a ranking. */
  function JavaFrequentWords(words: seq<string>, stop: set<string>, n: nat, hashOrder: seq<string>): (r: seq<Entry>)
    requires Enumerates(hashOrder, Qualifying(words, stop))
    ensures IsFrequencyRanking(words, stop, n, r)
  {
    RankingOfQualifying(words, stop, n, hashOrder);
    RankByCount(Qualifying(words, stop), hashOrder, n)
  }

  /** `getFrequentWords` of kotlin-book: `eachCount()` keeps first-appearance
      order and `sortedByDescending` is stable (see `FrequentWordsTies`). */
  function FrequentWords(words: seq<string>, stop: set<string>, n: nat): (r: seq<Entry>)
    ensures IsFrequencyRanking(words, stop, n, r)
  {
    var q := Qualifying(words, stop);
    RankingOfQualifying(words, stop, n, Distinct(q));
    RankByCount(q, Distinct(q), n)
  }

  /** `get_frequent_words` of python-book: `Counter` keeps first-appearance
      order and `most_common(n)` (through `heapq.nlargest`) is the stable
      descending sort cut to `n`, or nothing at all when `n <= 0`. */
  function PyFrequentWords(words: seq<string>, stop: set<string>, n: int): (r: seq<Entry>)
    ensures n <= 0 ==> r == []
    ensures n > 0 ==> IsFrequencyRanking(words, stop, n, r)
  {
    if n <= 0 then [] else FrequentWords(words, stop, n)
  }

  /** What every version promises of its ranking, ties left open: at most `n`
      entries (exactly `n` unless fewer distinct words qualify), distinct
      lowercase non-stopword keys drawn from the tokens, each with the exact
      number of tokens that lowercase to it, counts non-increasing, and no
      omitted qualifying word counted more often than the last entry. */
  ghost predicate IsFrequencyRanking(words: seq<string>, stop: set<string>, n: nat, r: seq<Entry>)
  {
    var lw := MapLower(words);
    && |r| == Min(n, |Elems(Qualifying(words, stop))|)
    && KeysDistinct(r)
    && (forall i :: 0 <= i < |r| ==>
          && r[i].word in lw
          && IsLowercase(r[i].word)
          && r[i].word !in stop
          && r[i].count == Count(lw, r[i].word))
    && NonIncreasing(r, CountOf)
    && (forall w :: w in lw && w !in stop && w !in Words(r) ==>
          |r| == n && (n > 0 ==> Count(lw, w) <= r[n - 1].count))
  }

  /** Sorting counted entries keeps them, keeps their keys distinct and
      orders them by count. */
  lemma SortedEntries(e: seq<Entry>)
    requires KeysDistinct(e)
    ensures var s := SortDesc(e, CountOf);
      && |s| == |e|
      && KeysDistinct(s)
      && NonIncreasing(s, CountOf)
      && (forall x :: x in s <==> x in e)
  {
    var s := SortDesc(e, CountOf);
    SortDescSorted(e, CountOf);
    SortNoDup(e, CountOf);
    assert |multiset(s)| == |multiset(e)|;
    forall x ensures x in s <==> x in e {
      assert x in s <==> x in multiset(s);
      assert x in e <==> x in multiset(e);
    }
    forall i, j | 0 <= i < j < |s| ensures s[i].word != s[j].word {
      assert s[i] in multiset(e) && s[j] in multiset(e);
      var a :| 0 <= a < |e| && e[a] == s[i];
      var b :| 0 <= b < |e| && e[b] == s[j];
      assert s[i] != s[j];
    }
  }

  /** The ranking over any enumeration of the qualifying words, stated
      against the qualifying token sequence `q`. */
  lemma RankCore(q: seq<string>, order: seq<string>, n: nat)
    requires Enumerates(order, q)
    ensures var r := RankByCount(q, order, n);
      && |r| == Min(n, |order|)
      && KeysDistinct(r)
      && NonIncreasing(r, CountOf)
      && (forall i :: 0 <= i < |r| ==> r[i].word in q && r[i].count == Count(q, r[i].word))
      && (forall w :: w in q && w !in Words(r) ==> |r| == n && (n > 0 ==> Count(q, w) <= r[n - 1].count))
  {
    var e := EntriesOf(q, order);
    SortedEntries(e);
    RankEntries(q, order, SortDesc(e, CountOf), n);
    RankComplete(q, order, SortDesc(e, CountOf), n);
  }

  lemma RankEntries(q: seq<string>, order: seq<string>, s: seq<Entry>, n: nat)
    requires forall x :: x in s <==> x in EntriesOf(q, order)
    requires Enumerates(order, q)
    ensures forall i :: 0 <= i < |Take(s, n)| ==> Take(s, n)[i].word in q && Take(s, n)[i].count == Count(q, Take(s, n)[i].word)
  {
    var e := EntriesOf(q, order);
    forall i | 0 <= i < |Take(s, n)| ensures Take(s, n)[i].word in q && Take(s, n)[i].count == Count(q, Take(s, n)[i].word) {
      assert Take(s, n)[i] == s[i] && s[i] in e;
    }
  }

  lemma RankComplete(q: seq<string>, order: seq<string>, s: seq<Entry>, n: nat)
    requires forall x :: x in s <==> x in EntriesOf(q, order)
    requires Enumerates(order, q)
    requires NonIncreasing(s, CountOf)
    ensures var r := Take(s, n);
      forall w :: w in q && w !in Words(r) ==> |r| == n && (n > 0 ==> Count(q, w) <= r[n - 1].count)
  {
    var e := EntriesOf(q, order);
    var r := Take(s, n);
    forall w | w in q && w !in Words(r)
      ensures |r| == n && (n > 0 ==> Count(q, w) <= r[n - 1].count)
    {
      var k :| 0 <= k < |order| && order[k] == w;
      assert e[k] in s;
      var m :| 0 <= m < |s| && s[m] == e[k];
      assert |r| <= m;
    }
  }

  /** Size of the set of qualifying words. */
  lemma EnumerationSize(order: seq<string>, q: seq<string>)
    requires Enumerates(order, q)
    ensures |order| == |Elems(q)|
  {
    NoDupCard(order);
    assert Elems(order) == Elems(q);
  }

  /** The ranking facts about the qualifying words, restated in terms of
      the tokens. */
  lemma RankingOfQualifying(words: seq<string>, stop: set<string>, n: nat, order: seq<string>)
    requires Enumerates(order, Qualifying(words, stop))
    ensures IsFrequencyRanking(words, stop, n, RankByCount(Qualifying(words, stop), order, n))
  {
    var q := Qualifying(words, stop);
    var r := RankByCount(q, order, n);
    RankCore(q, order, n);
    EnumerationSize(order, q);
    forall w ensures w in q <==> w in MapLower(words) && w !in stop {
      QualifyingMember(words, stop, w);
    }
    forall w | w !in stop ensures Count(q, w) == Count(MapLower(words), w) {
      QualifyingCount(words, stop, w);
    }
    forall i | 0 <= i < |r| ensures IsLowercase(r[i].word) && r[i].word !in stop {
      var k :| 0 <= k < |q| && q[k] == r[i].word;
    }
  }

  /** kotlin-book and python-book: among entries with equal counts the kept
      ones are the first of that count in first-appearance order of the
      words (`Distinct` order), in that order. */
  lemma FrequentWordsTies(words: seq<string>, stop: set<string>, n: nat, c: nat)
    ensures var q := Qualifying(words, stop);
      IsPrefix(WithKey(FrequentWords(words, stop, n), CountOf, c),
               WithKey(EntriesOf(q, Distinct(q)), CountOf, c))
  {
    var q := Qualifying(words, stop);
    var e := EntriesOf(q, Distinct(q));
    WithKeyTake(SortDesc(e, CountOf), n, CountOf, c);
    SortStable(e, CountOf, c);
  }

  /** `getFrequentWords` of go-book. The loop that builds `filteredWords` is
      kept, but nothing reads its result: the counts are taken over the raw,
      case-sensitive `words`. The counts are copied out of the Go map in its
      unspecified `range` order, sorted in place with `sort.Slice` (any
      descending sort is an instance; the model uses the stable one) and the
      first `n` are put in a new map. */
  method GoFrequentWords(words: seq<string>, n: int) returns (topN: map<string, nat>)
    ensures n <= 0 ==> topN == map[]
    ensures |topN| == Min(if n < 0 then 0 else n, |Elems(words)|)
    ensures forall w :: w in topN ==> w in words && topN[w] == Count(words, w)
    ensures forall w, v :: w in topN && v in words && Count(words, w) < Count(words, v) ==> v in topN
    ensures n >= |Elems(words)| ==> topN.Keys == Elems(words)
  {
    var filteredWords: seq<string> := [];
    for i := 0 to |words| {
      if words[i] !in CommonWords {
        filteredWords := filteredWords + [Lower(words[i])];
      }
    }
    var counts := CountWords(words);
    var freqs := CollectCounts(counts);
    var sorted := SortEntries(freqs);
    SortedEntries(freqs);
    forall w | w in counts ensures w in Words(sorted) {
      var k :| 0 <= k < |freqs| && freqs[k].word == w;
      assert freqs[k] in sorted;
    }
    forall i | 0 <= i < |sorted| ensures sorted[i].word in counts && sorted[i].count == counts[sorted[i].word] {
      assert sorted[i] in freqs;
    }
    topN := TopEntries(sorted, n);
    TopOfCounts(words, counts, sorted, n, topN);
  }

  /** What the `topN` map is, given the sorted entries of the count map. */
  lemma TopOfCounts(words: seq<string>, counts: map<string, nat>, sorted: seq<Entry>, n: int, topN: map<string, nat>)
    requires counts.Keys == Elems(words)
    requires forall w :: w in counts ==> counts[w] == Count(words, w)
    requires |sorted| == |counts.Keys|
    requires forall i :: 0 <= i < |sorted| ==> sorted[i].word in counts && sorted[i].count == counts[sorted[i].word]
    requires forall w :: w in counts ==> w in Words(sorted)
    requires |topN| == Min(if n < 0 then 0 else n, |sorted|)
    requires forall i :: 0 <= i < |sorted| && i < n ==> sorted[i].word in topN
    requires forall w :: w in topN ==> exists j :: 0 <= j < |sorted| && sorted[j] == Entry(w, topN[w])
    requires forall i, w :: 0 <= i < |sorted| && w in topN && sorted[i].word !in topN ==> sorted[i].count <= topN[w]
    ensures |topN| == Min(if n < 0 then 0 else n, |Elems(words)|)
    ensures forall w :: w in topN ==> w in words && topN[w] == Count(words, w)
    ensures forall w, v :: w in topN && v in words && Count(words, w) < Count(words, v) ==> v in topN
    ensures n >= |Elems(words)| ==> topN.Keys == Elems(words)
  {
    TopValues(words, counts, sorted, topN);
    SortedCoversWords(words, counts, sorted);
    TopComplete(words, counts, sorted, topN);
    TopAll(words, sorted, n, topN);
  }

  lemma TopComplete(words: seq<string>, counts: map<string, nat>, sorted: seq<Entry>, topN: map<string, nat>)
    requires forall w :: w in counts ==> counts[w] == Count(words, w)
    requires forall i :: 0 <= i < |sorted| ==> sorted[i].word in counts && sorted[i].count == counts[sorted[i].word]
    requires forall v :: v in words ==> exists m :: 0 <= m < |sorted| && sorted[m].word == v
    requires forall w :: w in topN ==> w in words && topN[w] == Count(words, w)
    requires forall i, w :: 0 <= i < |sorted| && w in topN && sorted[i].word !in topN ==> sorted[i].count <= topN[w]
    ensures forall w, v :: w in topN && v in words && Count(words, w) < Count(words, v) ==> v in topN
  {
    forall w, v | w in topN && v in words && Count(words, w) < Count(words, v) ensures v in topN {
      var m :| 0 <= m < |sorted| && sorted[m].word == v;
      TopLarger(sorted, counts, topN, w, m);
    }
  }

  lemma TopAll(words: seq<string>, sorted: seq<Entry>, n: int, topN: map<string, nat>)
    requires |sorted| == |Elems(words)|
    requires forall v :: v in words ==> exists m :: 0 <= m < |sorted| && sorted[m].word == v
    requires forall i :: 0 <= i < |sorted| && i < n ==> sorted[i].word in topN
    requires forall w :: w in topN ==> w in words && topN[w] == Count(words, w)
    ensures n >= |Elems(words)| ==> topN.Keys == Elems(words)
  {
    if n >= |Elems(words)| {
      forall v | v in Elems(words) ensures v in topN {
        var m :| 0 <= m < |sorted| && sorted[m].word == v;
      }
    }
  }

  lemma SortedCoversWords(words: seq<string>, counts: map<string, nat>, sorted: seq<Entry>)
    requires counts.Keys == Elems(words)
    requires forall w :: w in counts ==> w in Words(sorted)
    ensures forall v :: v in words ==> exists m :: 0 <= m < |sorted| && sorted[m].word == v
  {
    forall v | v in words ensures exists m :: 0 <= m < |sorted| && sorted[m].word == v {
      assert v in Elems(words) && v in counts && v in Words(sorted);
      var m :| 0 <= m < |sorted| && Words(sorted)[m] == v;
    }
  }

  lemma TopValues(words: seq<string>, counts: map<string, nat>, sorted: seq<Entry>, topN: map<string, nat>)
    requires counts.Keys == Elems(words)
    requires forall w :: w in counts ==> counts[w] == Count(words, w)
    requires forall i :: 0 <= i < |sorted| ==> sorted[i].word in counts && sorted[i].count == counts[sorted[i].word]
    requires forall w :: w in topN ==> exists j :: 0 <= j < |sorted| && sorted[j] == Entry(w, topN[w])
    ensures forall w :: w in topN ==> w in words && topN[w] == Count(words, w)
  {
    forall w | w in topN ensures w in words && topN[w] == Count(words, w) {
      var j :| 0 <= j < |sorted| && sorted[j] == Entry(w, topN[w]);
      assert w in counts;
    }
  }

  /** An entry left out has a count no larger than any entry kept. */
  lemma TopLarger(sorted: seq<Entry>, counts: map<string, nat>, topN: map<string, nat>, w: string, m: nat)
    requires m < |sorted| && w in topN
    requires forall i :: 0 <= i < |sorted| ==> sorted[i].word in counts && sorted[i].count == counts[sorted[i].word]
    requires forall i, w :: 0 <= i < |sorted| && w in topN && sorted[i].word !in topN ==> sorted[i].count <= topN[w]
    requires topN[w] < counts[sorted[m].word]
    ensures sorted[m].word in topN
  {
  }

  /** `sort.Slice` on the entry slice, by count descending. */
  method SortEntries(freqs: seq<Entry>) returns (sorted: seq<Entry>)
    ensures sorted == SortDesc(freqs, CountOf)
  {
    var a := new Entry[|freqs|](i requires 0 <= i < |freqs| => freqs[i]);
    assert a[..] == freqs;
    SortInPlace(a, CountOf);
    sorted := a[..];
  }

  /** The counting loop `unorderedWords[word]++` of go-book. */
  method CountWords(words: seq<string>) returns (counts: map<string, nat>)
    ensures counts.Keys == Elems(words)
    ensures forall w :: w in counts ==> counts[w] == Count(words, w)
  {
    counts := map[];
    for i := 0 to |words|
      invariant forall w :: w in counts <==> w in words[..i]
      invariant forall w :: w in counts ==> counts[w] == Count(words[..i], w)
    {
      var w := words[i];
      assert words[..i + 1][..i] == words[..i];
      counts := counts[w := if w in counts then counts[w] + 1 else 1];
    }
    assert words[..|words|] == words;
  }

  /** The `for word, count := range unorderedWords` loop of go-book: one
      entry per key, in an unspecified order. */
  method CollectCounts(counts: map<string, nat>) returns (freqs: seq<Entry>)
    ensures |freqs| == |counts.Keys|
    ensures KeysDistinct(freqs)
    ensures forall i :: 0 <= i < |freqs| ==> freqs[i].word in counts && freqs[i].count == counts[freqs[i].word]
    ensures forall w :: w in counts ==> w in Words(freqs)
  {
    freqs := [];
    var rest := counts.Keys;
    while rest != {}
      invariant rest <= counts.Keys
      invariant |freqs| + |rest| == |counts.Keys|
      invariant KeysDistinct(freqs)
      invariant forall i :: 0 <= i < |freqs| ==>
        freqs[i].word in counts && freqs[i].word !in rest && freqs[i].count == counts[freqs[i].word]
      invariant forall w :: w in counts && w !in rest ==> w in Words(freqs)
      decreases |rest|
    {
      var w :| w in rest;
      assert Words(freqs + [Entry(w, counts[w])]) == Words(freqs) + [w];
      freqs := freqs + [Entry(w, counts[w])];
      rest := rest - {w};
    }
  }

  /** The `topN` loop of go-book: the first `n` sorted entries, as a map. */
  method TopEntries(sorted: seq<Entry>, n: int) returns (topN: map<string, nat>)
    requires KeysDistinct(sorted) && NonIncreasing(sorted, CountOf)
    ensures n <= 0 ==> topN == map[]
    ensures |topN| == Min(if n < 0 then 0 else n, |sorted|)
    ensures forall i :: 0 <= i < |sorted| && i < n ==> sorted[i].word in topN
    ensures forall w :: w in topN ==> exists j :: 0 <= j < |sorted| && sorted[j] == Entry(w, topN[w])
    ensures forall i, w :: 0 <= i < |sorted| && w in topN && sorted[i].word !in topN ==>
      sorted[i].count <= topN[w]
  {
    topN := map[];
    var i := 0;
    while i < |sorted| && i < n
      invariant 0 <= i <= |sorted|
      invariant n <= 0 ==> i == 0
      invariant i <= n || i == 0
      invariant |topN| == i
      invariant forall j :: 0 <= j < |sorted| ==> (sorted[j].word in topN <==> j < i)
      invariant forall w :: w in topN ==> exists j :: 0 <= j < i && sorted[j] == Entry(w, topN[w])
    {
      topN := topN[sorted[i].word := sorted[i].count];
      i := i + 1;
    }
    forall k, w | 0 <= k < |sorted| && w in topN && sorted[k].word !in topN
      ensures sorted[k].count <= topN[w]
    {
      var j :| 0 <= j < i && sorted[j] == Entry(w, topN[w]);
      assert CountOf(sorted[k]) <= CountOf(sorted[j]);
    }
  }
}
