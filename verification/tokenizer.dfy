/** The tokenizer `getWords`: the maximal runs of word characters of a text,
    left to right. Java, Go and Kotlin match `[\w…]+`, where `\w` is the
    ASCII class [A-Za-z0-9_]; Python matches `[a-zA-Z0-9…]+`, without the
    underscore. The extra characters of the literal are a parameter. */
module Tokenizer {

  /** A word-character class: ASCII letters and digits, optionally the
      underscore, plus the extra characters of the pattern literal. */
  datatype CharClass = CharClass(underscore: bool, extra: set<char>)

  /** `[\w…]` of java-book, go-book and kotlin-book. */
  function JvmClass(extra: set<char>): CharClass { CharClass(true, extra) }

  /** `[a-zA-Z0-9…]` of python-book. */
  function PythonClass(extra: set<char>): CharClass { CharClass(false, extra) }

  predicate IsWordChar(c: char, cc: CharClass)
  {
    || ('a' <= c <= 'z')
    || ('A' <= c <= 'Z')
    || ('0' <= c <= '9')
    || (cc.underscore && c == '_')
    || c in cc.extra
  }

  predicate AllWord(s: string, cc: CharClass)
  {
    forall i :: 0 <= i < |s| ==> IsWordChar(s[i], cc)
  }

  predicate NoWord(s: string, cc: CharClass)
  {
    forall i :: 0 <= i < |s| ==> !IsWordChar(s[i], cc)
  }

  /** Length of the run of word characters at the start of `s`. */
  function RunLength(s: string, cc: CharClass): (n: nat)
    ensures n <= |s|
    ensures AllWord(s[..n], cc)
    ensures n == |s| || !IsWordChar(s[n], cc)
  {
    if s == [] || !IsWordChar(s[0], cc) then 0 else 1 + RunLength(s[1..], cc)
  }

  /** The tokens of `s`: every maximal run of word characters, in order. */
  function Tokens(s: string, cc: CharClass): (toks: seq<string>)
    ensures forall i :: 0 <= i < |toks| ==> toks[i] != [] && AllWord(toks[i], cc)
    decreases |s|
  {
    if s == [] then []
    else if !IsWordChar(s[0], cc) then Tokens(s[1..], cc)
    else
      var n := RunLength(s, cc);
      [s[..n]] + Tokens(s[n..], cc)
  }

  /** The delimiter stretches around the tokens: one before each token and
      one after the last. */
  function Separators(s: string, cc: CharClass): (g: seq<string>)
    ensures |g| == |Tokens(s, cc)| + 1
    decreases |s|
  {
    if s == [] then [[]]
    else if !IsWordChar(s[0], cc) then
      var g := Separators(s[1..], cc);
      [[s[0]] + g[0]] + g[1..]
    else
      [[]] + Separators(s[RunLength(s, cc)..], cc)
  }

  /** gaps[0] + toks[0] + gaps[1] + … + toks[k-1] + gaps[k]. */
  function Join(gaps: seq<string>, toks: seq<string>): string
    requires |gaps| == |toks| + 1
  {
    if toks == [] then gaps[0] else gaps[0] + toks[0] + Join(gaps[1..], toks[1..])
  }

  /** `toks` are the maximal word runs of `s`, with `gaps` the delimiter
      stretches between them: the text is the gaps and tokens interleaved,
      every token is a non-empty run of word characters, every gap holds
      only non-word characters, and the gaps between two tokens are not
      empty (so each token is bounded by a delimiter or an end of the text). */
  ghost predicate IsSplit(s: string, toks: seq<string>, gaps: seq<string>, cc: CharClass)
  {
    && |gaps| == |toks| + 1
    && Join(gaps, toks) == s
    && WordRuns(toks, cc)
    && Delimiters(gaps, cc)
    && (forall i :: 0 < i < |toks| ==> gaps[i] != [])
  }

  ghost predicate WordRuns(toks: seq<string>, cc: CharClass)
  {
    forall i :: 0 <= i < |toks| ==> toks[i] != [] && AllWord(toks[i], cc)
  }

  ghost predicate Delimiters(gaps: seq<string>, cc: CharClass)
  {
    forall i :: 0 <= i < |gaps| ==> NoWord(gaps[i], cc)
  }

  /** The tokens and separators split the text exactly. */
  lemma {:induction false} TokensSplit(s: string, cc: CharClass)
    ensures IsSplit(s, Tokens(s, cc), Separators(s, cc), cc)
    decreases |s|
  {
    if s == [] {
    } else if !IsWordChar(s[0], cc) {
      TokensSplit(s[1..], cc);
      SplitSkip(s, cc);
    } else {
      TokensSplit(s[RunLength(s, cc)..], cc);
      SplitRun(s, cc);
    }
  }

  lemma SplitSkip(s: string, cc: CharClass)
    requires s != [] && !IsWordChar(s[0], cc)
    requires IsSplit(s[1..], Tokens(s[1..], cc), Separators(s[1..], cc), cc)
    ensures IsSplit(s, Tokens(s, cc), Separators(s, cc), cc)
  {
    var g := Separators(s[1..], cc);
    SkipSplit(s[0], s[1..], g, Tokens(s[1..], cc), cc);
    assert Separators(s, cc) == [[s[0]] + g[0]] + g[1..];
    assert Tokens(s, cc) == Tokens(s[1..], cc);
    assert [s[0]] + s[1..] == s;
  }

  /** A non-word character in front of a split text joins its first gap. */
  lemma SkipSplit(c: char, rest: string, g: seq<string>, rt: seq<string>, cc: CharClass)
    requires IsSplit(rest, rt, g, cc)
    requires !IsWordChar(c, cc)
    ensures IsSplit([c] + rest, rt, [[c] + g[0]] + g[1..], cc)
  {
    var gaps := [[c] + g[0]] + g[1..];
    JoinHead([c], g, rt);
    assert Delimiters(gaps, cc) by {
      forall i | 0 <= i < |gaps| ensures NoWord(gaps[i], cc) {
        if i > 0 {
          assert gaps[i] == g[i];
        } else {
          assert NoWord(g[0], cc);
        }
      }
    }
    forall i | 0 < i < |rt| ensures gaps[i] != [] {
      assert gaps[i] == g[i];
    }
  }

  /** Putting text in front of the first gap puts it in front of the join. */
  lemma JoinHead(p: string, g: seq<string>, toks: seq<string>)
    requires |g| == |toks| + 1
    ensures Join([p + g[0]] + g[1..], toks) == p + Join(g, toks)
  {
    var gaps := [p + g[0]] + g[1..];
    assert gaps[1..] == g[1..];
  }

  lemma SplitRun(s: string, cc: CharClass)
    requires s != [] && IsWordChar(s[0], cc)
    requires IsSplit(s[RunLength(s, cc)..], Tokens(s[RunLength(s, cc)..], cc), Separators(s[RunLength(s, cc)..], cc), cc)
    ensures IsSplit(s, Tokens(s, cc), Separators(s, cc), cc)
  {
    var n := RunLength(s, cc);
    var rest := s[n..];
    GapBeforeToken(rest, cc);
    RunSplit(s[..n], rest, Separators(rest, cc), Tokens(rest, cc), cc);
    UnfoldRun(s, cc);
  }

  /** A run of word characters in front of a split text that does not start
      with a word character extends the split by one token. */
  lemma RunSplit(t: string, rest: string, g: seq<string>, rt: seq<string>, cc: CharClass)
    requires IsSplit(rest, rt, g, cc)
    requires t != [] && AllWord(t, cc)
    requires |rt| > 0 ==> g[0] != []
    ensures IsSplit(t + rest, [t] + rt, [[]] + g, cc)
  {
    RunJoin(t, rest, g, rt);
    ConsSplit(t, g, rt, cc);
  }

  /** One step of `Tokens` and `Separators` over a leading run. */
  lemma UnfoldRun(s: string, cc: CharClass)
    requires s != [] && IsWordChar(s[0], cc)
    ensures Tokens(s, cc) == [s[..RunLength(s, cc)]] + Tokens(s[RunLength(s, cc)..], cc)
    ensures Separators(s, cc) == [[]] + Separators(s[RunLength(s, cc)..], cc)
    ensures s[..RunLength(s, cc)] + s[RunLength(s, cc)..] == s
  {
    UnfoldTokens(s, cc);
    UnfoldSeparators(s, cc);
  }

  lemma UnfoldTokens(s: string, cc: CharClass)
    requires s != [] && IsWordChar(s[0], cc)
    ensures Tokens(s, cc) == [s[..RunLength(s, cc)]] + Tokens(s[RunLength(s, cc)..], cc)
  {
  }

  lemma UnfoldSeparators(s: string, cc: CharClass)
    requires s != [] && IsWordChar(s[0], cc)
    ensures Separators(s, cc) == [[]] + Separators(s[RunLength(s, cc)..], cc)
  {
  }

  /** After a maximal run, a further token is preceded by a non-empty gap. */
  lemma GapBeforeToken(rest: string, cc: CharClass)
    requires rest == [] || !IsWordChar(rest[0], cc)
    ensures Tokens(rest, cc) != [] ==> Separators(rest, cc)[0] != []
  {
    if rest != [] {
      SeparatorHead(rest, cc);
    }
  }

  lemma RunJoin(t: string, rest: string, g: seq<string>, rt: seq<string>)
    requires |g| == |rt| + 1 && Join(g, rt) == rest
    ensures Join([[]] + g, [t] + rt) == t + rest
  {
    assert ([[]] + g)[1..] == g && ([t] + rt)[1..] == rt;
  }

  lemma ConsSplit(t: string, g: seq<string>, rt: seq<string>, cc: CharClass)
    requires |g| == |rt| + 1
    requires t != [] && AllWord(t, cc)
    requires WordRuns(rt, cc) && Delimiters(g, cc)
    requires forall i :: 0 < i < |rt| ==> g[i] != []
    requires |rt| > 0 ==> g[0] != []
    ensures WordRuns([t] + rt, cc) && Delimiters([[]] + g, cc)
    ensures forall i :: 0 < i < |[t] + rt| ==> ([[]] + g)[i] != []
  {
    var toks, gaps := [t] + rt, [[]] + g;
    assert forall i :: 0 < i < |gaps| ==> gaps[i] == g[i - 1];
    assert forall i :: 0 < i < |toks| ==> toks[i] == rt[i - 1];
  }

  /** A text that starts with a delimiter and has a token starts with a
      non-empty separator. */
  lemma SeparatorHead(s: string, cc: CharClass)
    requires s != [] && !IsWordChar(s[0], cc)
    ensures Separators(s, cc)[0] != []
  {
  }

  lemma {:induction false} NoWordTokens(s: string, cc: CharClass)
    requires NoWord(s, cc)
    ensures Tokens(s, cc) == []
  {
    if s != [] {
      NoWordTokens(s[1..], cc);
    }
  }

  lemma {:induction false} SkipNoWord(g: string, s: string, cc: CharClass)
    requires NoWord(g, cc)
    ensures Tokens(g + s, cc) == Tokens(s, cc)
  {
    if g == [] {
      assert g + s == s;
    } else {
      var u := g + s;
      assert u[0] == g[0] && !IsWordChar(u[0], cc);
      assert u[1..] == g[1..] + s;
      SkipNoWord(g[1..], s, cc);
      assert Tokens(u, cc) == Tokens(u[1..], cc);
    }
  }

  /** A split into maximal runs is unique: any split of the text is the one
      `Tokens` computes, so `Tokens` returns exactly the maximal runs. */
  lemma {:induction false} SplitUnique(s: string, toks: seq<string>, gaps: seq<string>, cc: CharClass)
    requires IsSplit(s, toks, gaps, cc)
    ensures toks == Tokens(s, cc)
    decreases |toks|
  {
    if toks == [] {
      NoWordTokens(s, cc);
    } else {
      var t := toks[0];
      var rest := Join(gaps[1..], toks[1..]);
      assert s == gaps[0] + (t + rest);
      SkipNoWord(gaps[0], t + rest, cc);
      SplitTail(s, toks, gaps, cc);
      SplitUnique(rest, toks[1..], gaps[1..], cc);
      TokensOfRun(t, rest, cc);
    }
  }

  /** What follows the first token of a split is again a split, and it does
      not start with a word character. */
  lemma SplitTail(s: string, toks: seq<string>, gaps: seq<string>, cc: CharClass)
    requires IsSplit(s, toks, gaps, cc) && toks != []
    ensures IsSplit(Join(gaps[1..], toks[1..]), toks[1..], gaps[1..], cc)
    ensures var rest := Join(gaps[1..], toks[1..]); rest == [] || !IsWordChar(rest[0], cc)
  {
    var rest := Join(gaps[1..], toks[1..]);
    forall i | 0 <= i < |toks[1..]| ensures toks[1..][i] != [] && AllWord(toks[1..][i], cc) {
      assert toks[1..][i] == toks[i + 1];
    }
    forall i | 0 <= i < |gaps[1..]| ensures NoWord(gaps[1..][i], cc) {
      assert gaps[1..][i] == gaps[i + 1];
    }
    if |toks| > 1 {
      assert gaps[1] != [] && NoWord(gaps[1], cc);
      assert rest == gaps[1] + (toks[1] + Join(gaps[2..], toks[2..]));
      assert rest[0] == gaps[1][0];
    } else {
      assert rest == gaps[1];
      assert NoWord(gaps[1], cc);
    }
  }

  /** A non-empty word run followed by a non-word character (or nothing)
      is the first token. */
  lemma TokensOfRun(t: string, rest: string, cc: CharClass)
    requires t != [] && AllWord(t, cc)
    requires rest == [] || !IsWordChar(rest[0], cc)
    ensures Tokens(t + rest, cc) == [t] + Tokens(rest, cc)
  {
    var u := t + rest;
    RunOf(t, rest, cc);
    assert u[|t|..] == rest;
    assert u[..|t|] == t;
  }

  lemma {:induction false} RunOf(t: string, rest: string, cc: CharClass)
    requires AllWord(t, cc)
    requires rest == [] || !IsWordChar(rest[0], cc)
    ensures RunLength(t + rest, cc) == |t|
  {
    if t != [] {
      assert (t + rest)[1..] == t[1..] + rest;
      RunOf(t[1..], rest, cc);
    }
  }

  /** No token exactly when the text has no word character; in particular the
      empty text has none. */
  lemma {:induction false} TokensEmpty(s: string, cc: CharClass)
    ensures Tokens(s, cc) == [] <==> NoWord(s, cc)
    decreases |s|
  {
    if NoWord(s, cc) {
      NoWordTokens(s, cc);
    } else if s != [] && !IsWordChar(s[0], cc) {
      TokensEmpty(s[1..], cc);
    }
  }

  /** `getWords` of java-book: a `while (matcher.find())` loop that appends
      each match in turn. Each iteration skips delimiters, then consumes one
      maximal run. */
  method GetWords(text: string, cc: CharClass) returns (words: seq<string>)
    ensures words == Tokens(text, cc)
  {
    words := [];
    var i := 0;
    while i < |text|
      invariant 0 <= i <= |text|
      invariant words + Tokens(text[i..], cc) == Tokens(text, cc)
    {
      if !IsWordChar(text[i], cc) {
        SkipOne(text, i, cc);
        i := i + 1;
      } else {
        var j := RunEnd(text, i, cc);
        ConsumeStep(words, text, i, j, cc);
        words := words + [text[i..j]];
        i := j;
      }
    }
  }

  /** The end of the run of word characters that starts at `i`. */
  method RunEnd(text: string, i: nat, cc: CharClass) returns (j: nat)
    requires i < |text| && IsWordChar(text[i], cc)
    ensures i < j <= |text|
    ensures forall k :: i <= k < j ==> IsWordChar(text[k], cc)
    ensures j == |text| || !IsWordChar(text[j], cc)
  {
    j := i + 1;
    while j < |text| && IsWordChar(text[j], cc)
      invariant i < j <= |text|
      invariant forall k :: i <= k < j ==> IsWordChar(text[k], cc)
    {
      j := j + 1;
    }
  }

  lemma SkipOne(text: string, i: nat, cc: CharClass)
    requires i < |text| && !IsWordChar(text[i], cc)
    ensures Tokens(text[i..], cc) == Tokens(text[i + 1..], cc)
  {
    assert text[i..][1..] == text[i + 1..];
  }

  /** Consuming the run from `i` to `j` keeps the loop invariant of `GetWords`. */
  lemma ConsumeStep(words: seq<string>, text: string, i: nat, j: nat, cc: CharClass)
    requires i < j <= |text|
    requires forall k :: i <= k < j ==> IsWordChar(text[k], cc)
    requires j == |text| || !IsWordChar(text[j], cc)
    requires words + Tokens(text[i..], cc) == Tokens(text, cc)
    ensures (words + [text[i..j]]) + Tokens(text[j..], cc) == Tokens(text, cc)
  {
    ConsumeRun(text, i, j, cc);
    assert words + ([text[i..j]] + Tokens(text[j..], cc)) == Tokens(text, cc);
  }

  /** A maximal run starting at `i` is the next token. */
  lemma ConsumeRun(text: string, i: nat, j: nat, cc: CharClass)
    requires i < j <= |text|
    requires forall k :: i <= k < j ==> IsWordChar(text[k], cc)
    requires j == |text| || !IsWordChar(text[j], cc)
    ensures Tokens(text[i..], cc) == [text[i..j]] + Tokens(text[j..], cc)
  {
    assert AllWord(text[i..j], cc);
    RunOf(text[i..j], text[j..], cc);
    assert text[i..] == text[i..j] + text[j..];
    assert text[i..][j - i..] == text[j..];
  }

  /** The underscore joins a token in the Java, Go and Kotlin class but
      separates tokens in the Python class. */
  lemma UnderscoreDialects()
    ensures Tokens("a_b", JvmClass({})) == ["a_b"]
    ensures Tokens("a_b", PythonClass({})) == ["a", "b"]
  {
    var s := "a_b";
    var jvm, py := JvmClass({}), PythonClass({});
    assert s[1..] == "_b" && s[2..] == "b" && s[3..] == "";
    assert RunLength("", jvm) == 0;
    assert RunLength("b", jvm) == 1;
    assert RunLength("_b", jvm) == 2;
    assert RunLength(s, jvm) == 3;
    assert s[..3] == s;
    assert Tokens(s, jvm) == [s] + Tokens("", jvm);
    assert RunLength(s, py) == 1;
    assert s[..1] == "a";
    assert Tokens(s, py) == ["a"] + Tokens("_b", py);
    assert "_b"[1..] == "b";
    assert Tokens("_b", py) == Tokens("b", py);
    assert RunLength("b", py) == 1;
    assert "b"[..1] == "b" && "b"[1..] == "";
    assert Tokens("b", py) == ["b"] + Tokens("", py);
  }
}
