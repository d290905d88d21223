/**
 The word counts of `calculate_text_statistics`: whitespace-separated words,
 distinct lower-cased alphabetic words, lexical diversity and average sentence
 length. The sentence tokenizer is abstract: its sentence count is a parameter.
 Rounding for display is left out; ratios are exact reals.
 */
module Statistics {
  import opened Chars
  import opened Whitespace

  datatype TextStatistics = TextStatistics(
    totalWords: nat,
    totalSentences: nat,
    uniqueWords: nat,
    filteredTokens: nat,
    lexicalDiversity: real,
    avgSentenceLength: real)

  /** `set(token.lower() for token in words if token.isalpha())` */
  function UniqueAlphaWords(words: seq<string>): (u: set<string>)
    ensures |u| <= |words|
  {
    if words == [] then {}
    else
      var init, last := words[..|words| - 1], words[|words| - 1];
      UniqueAlphaWords(init) + (if IsAlpha(last) then {Lower(last)} else {})
  }

  /** The distinct words are exactly the lower-cased forms of the alphabetic words. */
  lemma {:induction false} UniqueAlphaWordsMembers(words: seq<string>)
    ensures forall k :: 0 <= k < |words| && IsAlpha(words[k]) ==> Lower(words[k]) in UniqueAlphaWords(words)
    ensures forall w :: w in UniqueAlphaWords(words) ==>
      exists k :: 0 <= k < |words| && IsAlpha(words[k]) && w == Lower(words[k])
    decreases |words|
  {
    if words != [] {
      var init, last := words[..|words| - 1], words[|words| - 1];
      UniqueAlphaWordsMembers(init);
      assert forall k :: 0 <= k < |init| ==> init[k] == words[k];
      forall w | w in UniqueAlphaWords(words)
        ensures exists k :: 0 <= k < |words| && IsAlpha(words[k]) && w == Lower(words[k])
      {
        if w !in UniqueAlphaWords(init) {
          assert IsAlpha(words[|words| - 1]) && w == Lower(words[|words| - 1]);
        }
      }
    }
  }

  /** `a / b if b else 0`, as the source writes both ratios. */
  function RatioOrZero(a: nat, b: nat): (r: real)
    ensures b == 0 ==> r == 0.0
    ensures b > 0 ==> r * b as real == a as real
    ensures 0.0 <= r
    ensures a <= b ==> r <= 1.0
  {
    if b > 0 then a as real / b as real else 0.0
  }

  function CalculateTextStatistics(text: string, tokens: seq<string>, sentenceCount: nat): (r: TextStatistics)
    ensures r.totalWords == |Split(text)| && r.totalSentences == sentenceCount && r.filteredTokens == |tokens|
    ensures r.totalWords == 0 <==> AllSpace(text)
    ensures r.uniqueWords == |UniqueAlphaWords(Split(text))| <= r.totalWords
    ensures 0.0 <= r.lexicalDiversity <= 1.0
    ensures r.totalWords == 0 ==> r.lexicalDiversity == 0.0
    ensures r.lexicalDiversity == RatioOrZero(r.uniqueWords, r.totalWords)
    ensures r.avgSentenceLength == RatioOrZero(r.totalWords, sentenceCount)
  {
    var words := Split(text);
    SplitEmptyIff(text);
    var unique := |UniqueAlphaWords(words)|;
    var total := |words|;
    var diversity := RatioOrZero(unique, total);
    var average := RatioOrZero(total, sentenceCount);
    TextStatistics(total, sentenceCount, unique, |tokens|, diversity, average)
  }
}
