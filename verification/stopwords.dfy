/** The stopword set and the lowercase-then-filter step the analyses share. */
module Stopwords {
  import opened Text

  /** `commonWords` / `common_words`: the same 125 lowercase words in all
      four versions. */
  const CommonWords: set<string> := {
    "a", "able", "about", "across", "after", "all", "almost", "also", "am", "among", "an",
    "and", "any", "are", "as", "at", "be", "because", "been", "but", "by", "can", "cannot",
    "could", "dear", "did", "do", "does", "either", "else", "ever", "every", "for", "from",
    "get", "got", "had", "has", "have", "he", "her", "hers", "him", "his", "how", "however",
    "i", "if", "in", "into", "is", "it", "its", "just", "least", "let", "like", "likely",
    "may", "me", "might", "most", "must", "my", "neither", "no", "nor", "not", "of", "off",
    "often", "on", "only", "or", "other", "our", "own", "rather", "said", "says", "she",
    "should", "since", "so", "some", "than", "that", "the", "their", "them", "then",
    "there", "these", "they", "this", "those", "through", "to", "too", "more", "upon",
    "us", "wants", "was", "we", "were", "what", "when", "where", "which", "while", "who",
    "whom", "why", "will", "with", "would", "yet", "you", "your", "shall", "before", "now", "one",
    "even"
  }

  /** The lowercase form of every token whose lowercase form is not a
      stopword, in token order. */
  function Qualifying(words: seq<string>, stop: set<string>): (q: seq<string>)
    ensures |q| <= |words|
    ensures forall i :: 0 <= i < |q| ==> IsLowercase(q[i]) && q[i] !in stop
  {
    if words == [] then []
    else
      var w := Lower(words[|words| - 1]);
      Qualifying(words[..|words| - 1], stop) + (if w in stop then [] else [w])
  }

  /** A word occurs among the qualifying tokens exactly as often as tokens
      lowercase to it, unless it is a stopword, which never occurs. */
  lemma {:induction false} QualifyingCount(words: seq<string>, stop: set<string>, w: string)
    ensures Count(Qualifying(words, stop), w) == if w in stop then 0 else Count(MapLower(words), w)
  {
    if words != [] {
      var init := words[..|words| - 1];
      var l := Lower(words[|words| - 1]);
      QualifyingCount(init, stop, w);
      CountAppend(Qualifying(init, stop), if l in stop then [] else [l], w);
      assert MapLower(words)[..|words| - 1] == MapLower(init);
    }
  }

  /** Membership follows from the count. */
  lemma QualifyingMember(words: seq<string>, stop: set<string>, w: string)
    ensures w in Qualifying(words, stop) <==> w in MapLower(words) && w !in stop
  {
    QualifyingCount(words, stop, w);
  }

  /** `filterWords` of go-book: a loop that appends the lowercase form of
      each token that is not a stopword. */
  method FilterWords(words: seq<string>, stop: set<string>) returns (result: seq<string>)
    ensures result == Qualifying(words, stop)
  {
    result := [];
    for i := 0 to |words|
      invariant result == Qualifying(words[..i], stop)
    {
      var w := Lower(words[i]);
      if w !in stop {
        result := result + [w];
      }
      assert words[..i + 1][..i] == words[..i];
    }
    assert words[..|words|] == words;
  }
}
