/** Concrete inputs worked through the model: a sentence with an
    apostrophe, a few palindrome checks, a small frequency count and a small
    palindrome ranking. */
module Scenarios {
  import opened Text
  import opened Tokenizer
  import opened Stopwords
  import opened Frequency
  import opened Sorting
  import opened Longest
  import opened Palindromes

  /** With the plain ASCII apostrophe outside the class, a contraction
      splits into two tokens; punctuation and spaces only delimit. */
  lemma ApostropheSplits(cc: CharClass)
    requires forall c :: c in cc.extra ==> c !in {',', ' ', '!', '\'', '.'}
    ensures Tokens("Hello, World! It's a test.", cc) == ["Hello", "World", "It", "s", "a", "test"]
  {
    var s := "Hello, World! It's a test.";
    var toks := ["Hello", "World", "It", "s", "a", "test"];
    var gaps := ["", ", ", "! ", "'", " ", " ", "."];
    HelloJoin();
    HelloRuns(cc);
    HelloDelimiters(cc);
    SplitUnique(s, toks, gaps, cc);
  }

  lemma HelloJoin()
    ensures Join(["", ", ", "! ", "'", " ", " ", "."], ["Hello", "World", "It", "s", "a", "test"])
      == "Hello, World! It's a test."
  {
    var g := ["", ", ", "! ", "'", " ", " ", "."];
    var t := ["Hello", "World", "It", "s", "a", "test"];
    HelloWorld();
    assert g[1..] == [", ", "! ", "'", " ", " ", "."] && t[1..] == ["World", "It", "s", "a", "test"];
  }

  lemma HelloWorld()
    ensures Join([", ", "! ", "'", " ", " ", "."], ["World", "It", "s", "a", "test"]) == ", World! It's a test."
  {
    var g := [", ", "! ", "'", " ", " ", "."];
    var t := ["World", "It", "s", "a", "test"];
    HelloIt();
    assert g[1..] == ["! ", "'", " ", " ", "."] && t[1..] == ["It", "s", "a", "test"];
  }

  lemma HelloIt()
    ensures Join(["! ", "'", " ", " ", "."], ["It", "s", "a", "test"]) == "! It's a test."
  {
    var g := ["! ", "'", " ", " ", "."];
    var t := ["It", "s", "a", "test"];
    HelloTail();
    assert g[1..] == ["'", " ", " ", "."] && t[1..] == ["s", "a", "test"];
  }

  lemma HelloTail()
    ensures Join(["'", " ", " ", "."], ["s", "a", "test"]) == "'s a test."
  {
    var g := ["'", " ", " ", "."];
    var t := ["s", "a", "test"];
    assert Join(g[3..], t[3..]) == ".";
    assert Join(g[2..], t[2..]) == " test.";
    assert Join(g[1..], t[1..]) == " a test.";
  }

  lemma HelloRuns(cc: CharClass)
    ensures WordRuns(["Hello", "World", "It", "s", "a", "test"], cc)
  {
  }

  lemma HelloDelimiters(cc: CharClass)
    requires forall c :: c in cc.extra ==> c !in {',', ' ', '!', '\'', '.'}
    ensures Delimiters(["", ", ", "! ", "'", " ", " ", "."], cc)
  {
  }

  lemma PalindromeValues()
    ensures IsPalindrome("racecar")
    ensures !IsPalindrome("hello")
    ensures IsPalindrome("")
    ensures IsPalindrome("a")
  {
    assert "hello"[0] != "hello"[4];
  }

  /** `getFrequentWords(["cat","dog","cat","cat","dog"], 1)` with no
      stopwords ranks "cat" first with three occurrences. */
  lemma CatDogExample()
    ensures FrequentWords(CatDog(), {}, 1) == [Entry("cat", 3)]
  {
    CatDogCounts();
    CatDogTop(CatDog(), FrequentWords(CatDog(), {}, 1));
  }

  function CatDog(): seq<string> { ["cat", "dog", "cat", "cat", "dog"] }

  lemma CatDogCounts()
    ensures MapLower(CatDog()) == CatDog()
    ensures Count(CatDog(), "cat") == 3 && Count(CatDog(), "dog") == 2
    ensures forall w :: w in CatDog() <==> w == "cat" || w == "dog"
  {
    var ws := CatDog();
    assert Lower("cat") == "cat" && Lower("dog") == "dog";
    var a1, a2, a3, a4 := ["cat"], ["cat", "dog"], ["cat", "dog", "cat"], ["cat", "dog", "cat", "cat"];
    assert a1[..0] == [];
    assert Count(a1, "cat") == 1 && Count(a1, "dog") == 0;
    assert a2[..1] == a1;
    assert Count(a2, "cat") == 1 && Count(a2, "dog") == 1;
    assert a3[..2] == a2;
    assert Count(a3, "cat") == 2 && Count(a3, "dog") == 1;
    assert a4[..3] == a3;
    assert Count(a4, "cat") == 3 && Count(a4, "dog") == 1;
    assert ws[..4] == a4;
  }

  lemma CatDogTop(words: seq<string>, r: seq<Entry>)
    requires IsFrequencyRanking(words, {}, 1, r)
    requires MapLower(words) == words
    requires Count(words, "cat") == 3 && Count(words, "dog") == 2
    requires forall w :: w in words <==> w == "cat" || w == "dog"
    ensures r == [Entry("cat", 3)]
  {
    QualifyingMember(words, {}, "cat");
    assert "cat" in Elems(Qualifying(words, {}));
    assert |r| == 1;
  }

  /** "Bob saw a racecar racecar level test" with "a" a stopword gives the
      three palindromes racecar, level and bob, longest first. */
  lemma RacecarExample()
    ensures LongestPalindromes(ExampleWords(), {"a"}, 3) == ["racecar", "level", "bob"]
  {
    ExampleCandidates();
    ExampleRanking(ExampleWords(), LongestPalindromes(ExampleWords(), {"a"}, 3));
  }

  lemma ExampleRanking(words: seq<string>, r: seq<string>)
    requires IsPalindromeRanking(words, {"a"}, 3, r)
    requires forall w :: Candidate(words, {"a"}, w) <==> w in ["racecar", "level", "bob"]
    requires |set w | w in MapLower(words) && Candidate(words, {"a"}, w)| == 3
    ensures r == ["racecar", "level", "bob"]
  {
    RankingOfThree(r);
  }

  function ExampleWords(): seq<string>
  {
    ["Bob", "saw", "a", "racecar", "racecar", "level", "test"]
  }

  lemma ExampleLower()
    ensures MapLower(ExampleWords()) == ["bob", "saw", "a", "racecar", "racecar", "level", "test"]
  {
    assert Lower("Bob") == "bob";
    assert Lower("saw") == "saw";
    assert Lower("a") == "a";
    assert Lower("racecar") == "racecar";
    assert Lower("level") == "level";
    assert Lower("test") == "test";
  }

  lemma ExampleCandidates()
    ensures forall w :: Candidate(ExampleWords(), {"a"}, w) <==> w in ["racecar", "level", "bob"]
    ensures |set w | w in MapLower(ExampleWords()) && Candidate(ExampleWords(), {"a"}, w)| == 3
  {
    ExampleLower();
    assert !IsPalindrome("saw") by { assert "saw"[0] != "saw"[2]; }
    assert !IsPalindrome("test") by { assert "test"[1] != "test"[2]; }
    assert IsPalindrome("bob") && IsPalindrome("racecar") && IsPalindrome("level");
    ExampleCandidateSet(ExampleWords());
  }

  lemma ExampleCandidateSet(words: seq<string>)
    requires forall w :: Candidate(words, {"a"}, w) <==> w in ["racecar", "level", "bob"]
    ensures |set w | w in MapLower(words) && Candidate(words, {"a"}, w)| == 3
  {
    var C := set w | w in MapLower(words) && Candidate(words, {"a"}, w);
    forall w ensures w in C <==> w in {"racecar", "level", "bob"} {
      assert w in ["racecar", "level", "bob"] <==> w in {"racecar", "level", "bob"};
    }
    assert C == {"racecar", "level", "bob"};
  }

  /** Three distinct words of lengths 7, 5 and 3 in length order can only be
      in one order. */
  lemma RankingOfThree(r: seq<string>)
    requires |r| == 3 && NoDup(r) && NonIncreasing(r, Len)
    requires forall i :: 0 <= i < |r| ==> r[i] in ["racecar", "level", "bob"]
    ensures r == ["racecar", "level", "bob"]
  {
    assert |r[0]| >= |r[1]| >= |r[2]|;
    assert r[0] != r[1] && r[1] != r[2];
  }
}
