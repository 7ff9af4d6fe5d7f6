/** The longest distinct words of a text, grouped by their length. */
module Longest {
  import opened Text
  import opened Sorting

  /** The sort key of `getLongestWord()` / `key=len`. */
  function Len(w: string): nat { |w| }

  function Lengths(taken: seq<string>): set<nat>
  {
    set i | 0 <= i < |taken| :: |taken[i]|
  }

  /** `groupingBy(String::length)` / `groupBy { it.length }`: each length
      that occurs maps to the words of that length, in their order. */
  function GroupByLength(taken: seq<string>): (g: map<nat, seq<string>>)
    ensures forall L, i :: L in g && 0 <= i < |g[L]| ==> |g[L][i]| == L && g[L][i] in taken
    ensures forall L :: L in g ==> g[L] != []
  {
    var g := map L | L in Lengths(taken) :: WithKey(taken, Len, L);
    GroupShape(taken, g);
    g
  }

  lemma GroupShape(taken: seq<string>, g: map<nat, seq<string>>)
    requires forall L :: L in g <==> L in Lengths(taken)
    requires forall L :: L in g ==> g[L] == WithKey(taken, Len, L)
    ensures forall L, i :: L in g && 0 <= i < |g[L]| ==> |g[L][i]| == L && g[L][i] in taken
    ensures forall L :: L in g ==> g[L] != []
  {
    forall L, i | L in g && 0 <= i < |g[L]| ensures |g[L][i]| == L && g[L][i] in taken {
      WithKeyMember(taken, Len, L, g[L][i]);
    }
    forall L | L in g ensures g[L] != [] {
      var i :| 0 <= i < |taken| && |taken[i]| == L;
      WithKeyMember(taken, Len, L, taken[i]);
    }
  }

  /** Every word listed under some length of a grouping. */
  ghost function Grouped(g: map<nat, seq<string>>): set<string>
  {
    set L, i | L in g && 0 <= i < |g[L]| :: g[L][i]
  }

  /** The distinct lowercase forms of the tokens. */
  ghost function UniqueLower(words: seq<string>): set<string>
  {
    Elems(MapLower(words))
  }

  /** What every version promises of its result: each length lists distinct
      lowercase tokens of exactly that length, and no list is empty; there
      are `n` words in all, or every distinct word when there are fewer; and
      no word left out is longer than a word kept. */
  ghost predicate IsLongestGrouping(words: seq<string>, n: nat, g: map<nat, seq<string>>)
  {
    var U := UniqueLower(words);
    && (forall L :: L in g ==> g[L] != [] && NoDup(g[L]))
    && (forall L, i :: L in g && 0 <= i < |g[L]| ==>
          |g[L][i]| == L && IsLowercase(g[L][i]) && g[L][i] in U)
    && |Grouped(g)| == Min(n, |U|)
    && (forall w, u :: w in Grouped(g) && u in U && u !in Grouped(g) ==> |u| <= |w|)
  }

  /** `getLongestWords` of java-book and kotlin-book: lowercase, distinct in
      first-appearance order, stable sort by length descending, first `n`,
      grouped by length. */
  function LongestWords(words: seq<string>, n: nat): (g: map<nat, seq<string>>)
    ensures IsLongestGrouping(words, n, g)
  {
    GroupingOfEnumeration(words, n, Distinct(MapLower(words)));
    GroupByLength(Take(SortDesc(Distinct(MapLower(words)), Len), n))
  }

  /** The facts about a grouping of a duplicate-free sequence. */
  lemma GroupFacts(taken: seq<string>)
    requires NoDup(taken)
    ensures var g := GroupByLength(taken);
      && (forall L :: L in g ==> g[L] != [] && NoDup(g[L]))
      && (forall L, i :: L in g && 0 <= i < |g[L]| ==> |g[L][i]| == L && g[L][i] in taken)
      && Grouped(g) == Elems(taken)
  {
    var g := GroupByLength(taken);
    forall L | L in g ensures g[L] != [] && NoDup(g[L]) {
      var i :| 0 <= i < |taken| && |taken[i]| == L;
      WithKeyMember(taken, Len, L, taken[i]);
      WithKeyNoDup(taken, Len, L);
    }
    forall L, i | L in g && 0 <= i < |g[L]| ensures |g[L][i]| == L && g[L][i] in taken {
      WithKeyMember(taken, Len, L, g[L][i]);
    }
    forall w | w in Elems(taken) ensures w in Grouped(g) {
      var L := |w|;
      var k :| 0 <= k < |taken| && taken[k] == w;
      assert L in Lengths(taken);
      WithKeyMember(taken, Len, L, w);
      var i :| 0 <= i < |g[L]| && g[L][i] == w;
    }
  }

  /** Any enumeration of the distinct lowercase words, sorted, cut and
      grouped, meets the promise. */
  lemma GroupingOfEnumeration(words: seq<string>, n: nat, order: seq<string>)
    requires NoDup(order)
    requires forall x :: x in order <==> x in UniqueLower(words)
    ensures IsLongestGrouping(words, n, GroupByLength(Take(SortDesc(order, Len), n)))
  {
    var U := UniqueLower(words);
    var taken := Take(SortDesc(order, Len), n);
    var g := GroupByLength(taken);
    TopByKey(order, Len, n);
    GroupFacts(taken);
    assert |Grouped(g)| == Min(n, |U|) by {
      NoDupCard(taken);
      NoDupCard(order);
      assert Elems(order) == U;
    }
    forall L, i | L in g && 0 <= i < |g[L]| ensures IsLowercase(g[L][i]) && g[L][i] in U {
      UniqueLowercase(words, g[L][i]);
    }
    forall w, u | w in Grouped(g) && u in U && u !in Grouped(g) ensures |u| <= |w| {
      LongestKept(order, taken, n, w, u);
    }
  }

  lemma UniqueLowercase(words: seq<string>, w: string)
    requires w in UniqueLower(words)
    ensures IsLowercase(w)
  {
    var k :| 0 <= k < |MapLower(words)| && MapLower(words)[k] == w;
  }

  lemma LongestKept(order: seq<string>, taken: seq<string>, n: nat, w: string, u: string)
    requires NonIncreasing(taken, Len)
    requires forall u :: u in order && u !in taken ==> |taken| == n && (n > 0 ==> Len(u) <= Len(taken[n - 1]))
    requires w in taken && u in order && u !in taken
    ensures |u| <= |w|
  {
    var k :| 0 <= k < |taken| && taken[k] == w;
    assert Len(taken[k]) >= Len(taken[n - 1]);
  }

  /** Within one length the words keep the order of their first appearance
      in the text: each list is a prefix of the distinct words of that length. */
  lemma LongestWordsOrder(words: seq<string>, n: nat, L: nat)
    requires L in LongestWords(words, n)
    ensures IsPrefix(LongestWords(words, n)[L], WithKey(Distinct(MapLower(words)), Len, L))
  {
    var d := Distinct(MapLower(words));
    WithKeyTake(SortDesc(d, Len), n, Len, L);
    SortStable(d, Len, L);
  }

  /** Appending one word to the groups (`longest_groups[len(word)].append(word)`). */
  lemma GroupAppend(s: seq<string>, w: string)
    ensures var G := GroupByLength(s);
      GroupByLength(s + [w]) == G[|w| := (if |w| in G then G[|w|] else []) + [w]]
  {
    var G := GroupByLength(s);
    var G' := GroupByLength(s + [w]);
    var R := G[|w| := (if |w| in G then G[|w|] else []) + [w]];
    assert Lengths(s + [w]) == Lengths(s) + {|w|} by {
      assert forall i :: 0 <= i < |s| ==> (s + [w])[i] == s[i];
      assert (s + [w])[|s|] == w;
    }
    forall L | L in G' ensures G'[L] == R[L] {
      WithKeyAppend(s, w, Len, L);
      if L != |w| && L in Lengths(s) {
        assert R[L] == G[L];
      } else if L == |w| && L !in Lengths(s) {
        assert WithKey(s, Len, L) == [] by {
          if WithKey(s, Len, L) != [] {
            WithKeyMember(s, Len, L, WithKey(s, Len, L)[0]);
          }
        }
      }
    }
  }

  /** `get_longest_words` of python-book: the distinct lowercase words come
      from a set, so their order (and the order within each length) is that
      of the set's iteration; the groups are built by a loop of appends. */
  method PyLongestWords(words: seq<string>, n: nat) returns (groups: map<nat, seq<string>>)
    ensures IsLongestGrouping(words, n, groups)
  {
    var unique := set w | w in words :: Lower(w);
    assert unique == UniqueLower(words) by {
      forall x ensures x in unique <==> x in UniqueLower(words) {
        if x in unique {
          var w :| w in words && Lower(w) == x;
          var k :| 0 <= k < |words| && words[k] == w;
          assert MapLower(words)[k] == x;
        }
      }
    }
    var order := SetToSeq(unique);
    var sortedWords := Take(SortDesc(order, Len), n);
    groups := map[];
    for i := 0 to |sortedWords|
      invariant groups == GroupByLength(sortedWords[..i])
    {
      var w := sortedWords[i];
      GroupAppend(sortedWords[..i], w);
      assert sortedWords[..i + 1] == sortedWords[..i] + [w];
      groups := groups[|w| := (if |w| in groups then groups[|w|] else []) + [w]];
    }
    assert sortedWords[..|sortedWords|] == sortedWords;
    GroupingOfEnumeration(words, n, order);
  }
}
