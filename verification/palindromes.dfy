/** Palindromes among the non-stopword tokens, longest first. */
module Palindromes {
  import opened Text
  import opened Sorting
  import opened Stopwords
  import opened Longest

  /** `new StringBuilder(word).reverse()`, `word.reversed()`, `word[::-1]`. */
  function Reverse(s: string): (r: string)
    ensures |r| == |s|
    ensures forall i :: 0 <= i < |s| ==> r[i] == s[|s| - 1 - i]
  {
    seq(|s|, i requires 0 <= i < |s| => s[|s| - 1 - i])
  }

  /** Reversing twice gives back the word. */
  lemma ReverseReverse(s: string)
    ensures Reverse(Reverse(s)) == s
  {
  }

  /** Reversal turns a concatenation around. */
  lemma ReverseAppend(a: string, b: string)
    ensures Reverse(a + b) == Reverse(b) + Reverse(a)
  {
  }

  /** `isPalindrome`: the word equals its reversal, that is, it reads the
      same from both ends. */
  function IsPalindrome(w: string): (b: bool)
    ensures b <==> forall i :: 0 <= i < |w| ==> w[i] == w[|w| - 1 - i]
    ensures |w| <= 1 ==> b
  {
    w == Reverse(w)
  }

  /** The palindromes of `s`, in their order. */
  function PalindromesOf(s: seq<string>): (r: seq<string>)
  {
    if s == [] then []
    else (if IsPalindrome(s[0]) then [s[0]] else []) + PalindromesOf(s[1..])
  }

  lemma {:induction false} PalindromesOfMember(s: seq<string>, x: string)
    ensures x in PalindromesOf(s) <==> x in s && IsPalindrome(x)
  {
    if s != [] {
      PalindromesOfMember(s[1..], x);
      assert s == [s[0]] + s[1..];
    }
  }

  lemma {:induction false} PalindromesOfNoDup(s: seq<string>)
    requires NoDup(s)
    ensures NoDup(PalindromesOf(s))
  {
    if s != [] {
      PalindromesOfNoDup(s[1..]);
      PalindromesOfMember(s[1..], s[0]);
      assert s[0] !in s[1..];
    }
  }

  /** `getLongestPalindromes` of java-book and kotlin-book: lowercase, drop
      stopwords, distinct in first-appearance order, keep palindromes,
      stable sort by length descending, first `n`. */
  function LongestPalindromes(words: seq<string>, stop: set<string>, n: nat): (r: seq<string>)
    ensures IsPalindromeRanking(words, stop, n, r)
  {
    DistinctCandidates(words, stop);
    RankingOfEnumeration(words, stop, n, PalindromesOf(Distinct(Qualifying(words, stop))));
    Take(SortDesc(PalindromesOf(Distinct(Qualifying(words, stop))), Len), n)
  }

  /** The lowercase tokens that are neither stopwords nor non-palindromes. */
  ghost predicate Candidate(words: seq<string>, stop: set<string>, w: string)
  {
    w in MapLower(words) && w !in stop && IsPalindrome(w)
  }

  /** What every version promises: distinct candidates, longest first; `n`
      of them, or all when there are fewer; nothing left out is longer than
      the last one kept. */
  ghost predicate IsPalindromeRanking(words: seq<string>, stop: set<string>, n: nat, r: seq<string>)
  {
    && |r| == Min(n, |set w | w in MapLower(words) && Candidate(words, stop, w)|)
    && NoDup(r)
    && (forall i :: 0 <= i < |r| ==> Candidate(words, stop, r[i]) && IsLowercase(r[i]))
    && NonIncreasing(r, Len)
    && (forall u :: Candidate(words, stop, u) && u !in r ==> |r| == n && (n > 0 ==> |u| <= |r[n - 1]|))
  }

  /** Any enumeration of the candidates, sorted by length and cut, meets the promise. */
  lemma RankingOfEnumeration(words: seq<string>, stop: set<string>, n: nat, order: seq<string>)
    requires NoDup(order)
    requires forall x :: x in order <==> Candidate(words, stop, x)
    ensures IsPalindromeRanking(words, stop, n, Take(SortDesc(order, Len), n))
  {
    var r := Take(SortDesc(order, Len), n);
    TopByKey(order, Len, n);
    assert |set w | w in MapLower(words) && Candidate(words, stop, w)| == |order| by {
      NoDupCard(order);
      assert Elems(order) == set w | w in MapLower(words) && Candidate(words, stop, w);
    }
    forall i | 0 <= i < |r| ensures IsLowercase(r[i]) {
      UniqueLowercase(words, r[i]);
    }
  }

  /** The palindromes among the distinct qualifying words are exactly the
      candidates, each once. */
  lemma DistinctCandidates(words: seq<string>, stop: set<string>)
    ensures NoDup(PalindromesOf(Distinct(Qualifying(words, stop))))
    ensures forall x :: x in PalindromesOf(Distinct(Qualifying(words, stop))) <==> Candidate(words, stop, x)
  {
    var d := Distinct(Qualifying(words, stop));
    PalindromesOfNoDup(d);
    forall x ensures x in PalindromesOf(d) <==> Candidate(words, stop, x) {
      PalindromesOfMember(d, x);
      QualifyingMember(words, stop, x);
    }
  }

  /** Among palindromes of equal length the first to appear in the text
      comes first. */
  lemma LongestPalindromesTies(words: seq<string>, stop: set<string>, n: nat, L: nat)
    ensures IsPrefix(WithKey(LongestPalindromes(words, stop, n), Len, L),
                     WithKey(PalindromesOf(Distinct(Qualifying(words, stop))), Len, L))
  {
    var p := PalindromesOf(Distinct(Qualifying(words, stop)));
    WithKeyTake(SortDesc(p, Len), n, Len, L);
    SortStable(p, Len, L);
  }

  /** `get_longest_palindromes` of python-book: the candidates come from a
      set, so ties follow its iteration order; the list is sorted in place. */
  method PyLongestPalindromes(words: seq<string>, stop: set<string>, n: nat) returns (result: seq<string>)
    ensures IsPalindromeRanking(words, stop, n, result)
  {
    var unique := set w | w in words && Lower(w) !in stop :: Lower(w);
    var order := SetToSeq(unique);
    var palindromes := PalindromesOf(order);
    var a := new string[|palindromes|](i requires 0 <= i < |palindromes| => palindromes[i]);
    assert a[..] == palindromes;
    SortInPlace(a, Len);
    result := Take(a[..], n);
    PalindromesOfNoDup(order);
    forall x ensures x in palindromes <==> Candidate(words, stop, x) {
      PalindromesOfMember(order, x);
      if x in MapLower(words) {
        var k :| 0 <= k < |words| && MapLower(words)[k] == x;
        assert words[k] in words;
      }
    }
    RankingOfEnumeration(words, stop, n, palindromes);
  }
}
