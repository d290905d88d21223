/**
 The token filter of `clean_and_tokenize` and the frequency table of
 `build_word_frequency` (`Counter(tokens).most_common(top_n)` turned into a dict).
 The word tokenizer is a parameter.
 */
module Tokens {
  import opened Chars
  import opened Ranking

  const MinWordLength: nat := 3

  /** The comprehension's condition: alphabetic, not a stopword, at least three characters. */
  predicate Keep(w: string, stopWords: set<string>) {
    IsAlpha(w) && w !in stopWords && |w| >= MinWordLength
  }

  /** `[word for word in tokens if ...]` */
  function FilterTokens(tokens: seq<string>, stopWords: set<string>): (r: seq<string>)
    ensures forall k :: 0 <= k < |r| ==> Keep(r[k], stopWords)
    ensures forall w :: multiset(r)[w] == if Keep(w, stopWords) then multiset(tokens)[w] else 0
  {
    if tokens == [] then []
    else
      var init, last := tokens[..|tokens| - 1], tokens[|tokens| - 1];
      assert tokens == init + [last];
      FilterTokens(init, stopWords) + (if Keep(last, stopWords) then [last] else [])
  }

  /** The positions of the tokens the filter keeps, in increasing order. */
  function KeptIndices(tokens: seq<string>, stopWords: set<string>): (idx: seq<nat>)
  {
    if tokens == [] then []
    else
      KeptIndices(tokens[..|tokens| - 1], stopWords)
        + (if Keep(tokens[|tokens| - 1], stopWords) then [|tokens| - 1] else [])
  }

  lemma {:induction false} KeptIndicesFacts(tokens: seq<string>, stopWords: set<string>)
    ensures var idx := KeptIndices(tokens, stopWords);
      && (forall k :: 0 <= k < |idx| ==> idx[k] < |tokens|)
      && (forall a, b :: 0 <= a < b < |idx| ==> idx[a] < idx[b])
      && (forall i :: 0 <= i < |tokens| ==> (i in idx <==> Keep(tokens[i], stopWords)))
    decreases |tokens|
  {
    if tokens != [] {
      var init := tokens[..|tokens| - 1];
      KeptIndicesFacts(init, stopWords);
      assert forall i :: 0 <= i < |init| ==> init[i] == tokens[i];
    }
  }

  lemma {:induction false} FilterAtKeptIndices(tokens: seq<string>, stopWords: set<string>)
    ensures var idx, r := KeptIndices(tokens, stopWords), FilterTokens(tokens, stopWords);
      |idx| == |r| && forall k :: 0 <= k < |idx| ==> idx[k] < |tokens| && r[k] == tokens[idx[k]]
    decreases |tokens|
  {
    if tokens != [] {
      var init := tokens[..|tokens| - 1];
      FilterAtKeptIndices(init, stopWords);
      var idx0, r0 := KeptIndices(init, stopWords), FilterTokens(init, stopWords);
      var idx, r := KeptIndices(tokens, stopWords), FilterTokens(tokens, stopWords);
      forall k | 0 <= k < |idx| ensures idx[k] < |tokens| && r[k] == tokens[idx[k]] {
        if k < |idx0| {
          assert idx[k] == idx0[k] && r[k] == r0[k];
          assert init[idx0[k]] == tokens[idx0[k]];
        }
      }
    }
  }

  /** The filtered tokens are the input tokens at increasing positions, exactly those the condition accepts. */
  lemma FilterIsSubsequence(tokens: seq<string>, stopWords: set<string>)
    ensures var idx, r := KeptIndices(tokens, stopWords), FilterTokens(tokens, stopWords);
      && |idx| == |r|
      && (forall k :: 0 <= k < |idx| ==> idx[k] < |tokens| && r[k] == tokens[idx[k]])
      && (forall a, b :: 0 <= a < b < |idx| ==> idx[a] < idx[b])
      && (forall i :: 0 <= i < |tokens| ==> (i in idx <==> Keep(tokens[i], stopWords)))
  {
    KeptIndicesFacts(tokens, stopWords);
    FilterAtKeptIndices(tokens, stopWords);
  }

  /** `clean_and_tokenize`: lower-case the text, tokenize it, filter the tokens. */
  function CleanAndTokenize(text: string, tokenize: string -> seq<string>, stopWords: set<string>): (r: seq<string>)
    ensures forall k :: 0 <= k < |r| ==> Keep(r[k], stopWords) && r[k] in tokenize(Lower(text))
  {
    var r := FilterTokens(tokenize(Lower(text)), stopWords);
    assert forall k :: 0 <= k < |r| ==> r[k] in multiset(r);
    r
  }

  /** The distinct tokens in the order they are first met (the key order of a `Counter`). */
  function Distinct(s: seq<string>): (d: seq<string>)
    ensures forall i, j :: 0 <= i < j < |d| ==> d[i] != d[j]
    ensures forall w :: w in d <==> w in s
  {
    if s == [] then []
    else
      var init, last := s[..|s| - 1], s[|s| - 1];
      assert s == init + [last];
      var d := Distinct(init);
      if last in d then d else d + [last]
  }

  lemma {:induction false} DistinctSize(s: seq<string>)
    ensures |Distinct(s)| == |set w | w in s|
    decreases |s|
  {
    if s != [] {
      var init, last := s[..|s| - 1], s[|s| - 1];
      assert s == init + [last];
      DistinctSize(init);
      var before := set w | w in init;
      assert (set w | w in s) == before + {last};
      assert last in Distinct(init) <==> last in before;
      if last in before {
        assert Distinct(s) == Distinct(init);
        assert before + {last} == before;
      } else {
        assert Distinct(s) == Distinct(init) + [last];
      }
    }
  }

  /** The position of the first occurrence of `w` in `s`, or `|s|` when `w` does not occur. */
  function FirstIndex(s: seq<string>, w: string): (r: nat)
    ensures r <= |s|
    ensures r < |s| <==> w in s
    ensures r < |s| ==> s[r] == w
    ensures forall k :: 0 <= k < r ==> s[k] != w
  {
    if s == [] then 0 else if s[0] == w then 0 else 1 + FirstIndex(s[1..], w)
  }

  /** A word that occurs in a prefix first occurs at the same position in the whole sequence. */
  lemma FirstIndexOfPrefix(s: seq<string>, n: nat, w: string)
    requires n <= |s| && w in s[..n]
    ensures FirstIndex(s, w) == FirstIndex(s[..n], w)
  {
    var r, r' := FirstIndex(s, w), FirstIndex(s[..n], w);
    assert s[r'] == w;
  }

  /** The distinct tokens come in the order of their first occurrence. */
  lemma {:induction false} DistinctOrder(s: seq<string>)
    ensures forall i, j :: 0 <= i < j < |Distinct(s)| ==> FirstIndex(s, Distinct(s)[i]) < FirstIndex(s, Distinct(s)[j])
    decreases |s|
  {
    if s != [] {
      var init, last := s[..|s| - 1], s[|s| - 1];
      assert s == init + [last];
      DistinctOrder(init);
      var d := Distinct(init);
      forall k | 0 <= k < |d| ensures FirstIndex(s, d[k]) == FirstIndex(init, d[k]) < |init| {
        FirstIndexOfPrefix(s, |s| - 1, d[k]);
      }
      if last !in d {
        assert Distinct(s) == d + [last];
      }
    }
  }

  lemma CounterHasAll(s: seq<string>, d: seq<string>, c: seq<(string, nat)>)
    requires forall w :: w in d <==> w in s
    requires |c| == |d| && forall i :: 0 <= i < |d| ==> c[i] == (d[i], multiset(s)[d[i]])
    ensures forall w :: w in s ==> (w, multiset(s)[w]) in c
  {
    forall w | w in s ensures (w, multiset(s)[w]) in c {
      var i :| 0 <= i < |d| && d[i] == w;
      assert c[i] == (w, multiset(s)[w]);
    }
  }

  /** The keys of `c` come in the order of their first occurrence in `s`. */
  predicate InFirstSeenOrder(c: seq<(string, nat)>, s: seq<string>) {
    forall i, j :: 0 <= i < j < |c| ==> FirstIndex(s, c[i].0) < FirstIndex(s, c[j].0)
  }

  /** Pairs of `c` with equal values come in the order of their keys' first occurrence in `s`. */
  predicate TiesInFirstSeenOrder(c: seq<(string, nat)>, s: seq<string>) {
    forall i, j :: 0 <= i < j < |c| && c[i].1 == c[j].1 ==> FirstIndex(s, c[i].0) < FirstIndex(s, c[j].0)
  }

  /** `Counter(tokens).items()`: every distinct token once, in order of first occurrence,
      with its exact number of occurrences, and nothing else. */
  function Counter(s: seq<string>): (c: seq<(string, nat)>)
    ensures |c| == |set w | w in s|
    ensures DistinctKeys(c)
    ensures forall w :: w in s ==> (w, multiset(s)[w]) in c
    ensures forall p :: p in c ==> p.0 in s && p.1 == multiset(s)[p.0]
    ensures InFirstSeenOrder(c, s)
  {
    var d := Distinct(s);
    DistinctSize(s);
    DistinctOrder(s);
    var c := seq(|d|, i requires 0 <= i < |d| => (d[i], multiset(s)[d[i]]));
    CounterHasAll(s, d, c);
    c
  }

  /** `dict(Counter(tokens).most_common(top_n))`, as the list of its items. */
  function BuildWordFrequency(tokens: seq<string>, topN: nat): seq<(string, nat)> {
    Take(SortDesc(Counter(tokens)), topN)
  }

  lemma TailKeepsTies(t: seq<(string, nat)>, s: seq<string>)
    requires t != [] && TiesInFirstSeenOrder(t, s)
    ensures TiesInFirstSeenOrder(t[1..], s)
  {
    var rest := t[1..];
    forall i, j | 0 <= i < j < |rest| && rest[i].1 == rest[j].1
      ensures FirstIndex(s, rest[i].0) < FirstIndex(s, rest[j].0)
    {
      assert rest[i] == t[i + 1] && rest[j] == t[j + 1];
    }
  }

  /** Inserting a pair whose key is seen before every key of `t` keeps ties in first-seen order. */
  lemma {:induction false} InsertKeepsTies(x: (string, nat), t: seq<(string, nat)>, s: seq<string>)
    requires TiesInFirstSeenOrder(t, s)
    requires forall p :: p in t ==> FirstIndex(s, x.0) < FirstIndex(s, p.0)
    ensures TiesInFirstSeenOrder(Insert(x, t), s)
    decreases |t|
  {
    if t == [] || x.1 >= t[0].1 {
      HeadKeepsTies(x, t, s);
    } else {
      var rest := t[1..];
      TailKeepsTies(t, s);
      InsertKeepsTies(x, rest, s);
      InsertPermutes(x, rest);
      var tail := Insert(x, rest);
      forall p | p in tail && p.1 == t[0].1 ensures FirstIndex(s, t[0].0) < FirstIndex(s, p.0) {
        assert p in multiset(tail);
        assert p in multiset(rest);
        var k :| 0 <= k < |rest| && rest[k] == p;
        assert t[k + 1] == p;
      }
      HeadKeepsTies(t[0], tail, s);
    }
  }

  /** Ties in `[y] + t`, when `y`'s key is seen before the key of every pair of `t` with `y`'s value. */
  lemma HeadKeepsTies(y: (string, nat), t: seq<(string, nat)>, s: seq<string>)
    requires TiesInFirstSeenOrder(t, s)
    requires forall p :: p in t && p.1 == y.1 ==> FirstIndex(s, y.0) < FirstIndex(s, p.0)
    ensures TiesInFirstSeenOrder([y] + t, s)
  {
    var r := [y] + t;
    forall i, j | 0 <= i < j < |r| && r[i].1 == r[j].1 ensures FirstIndex(s, r[i].0) < FirstIndex(s, r[j].0) {
      assert r[j] == t[j - 1];
      if i > 0 {
        assert r[i] == t[i - 1];
      }
    }
  }

  /** Sorting a sequence that is in first-seen order leaves equal values in first-seen order. */
  lemma {:induction false} SortDescTies(c: seq<(string, nat)>, s: seq<string>)
    requires InFirstSeenOrder(c, s)
    ensures TiesInFirstSeenOrder(SortDesc(c), s)
    decreases |c|
  {
    if c != [] {
      var rest := c[1..];
      assert InFirstSeenOrder(rest, s) by {
        forall i, j | 0 <= i < j < |rest| ensures FirstIndex(s, rest[i].0) < FirstIndex(s, rest[j].0) {
          assert rest[i] == c[i + 1] && rest[j] == c[j + 1];
        }
      }
      SortDescTies(rest, s);
      SortDescCorrect(rest);
      forall p | p in SortDesc(rest) ensures FirstIndex(s, c[0].0) < FirstIndex(s, p.0) {
        assert p in multiset(rest);
        var k :| 0 <= k < |rest| && rest[k] == p;
        assert c[k + 1] == p;
      }
      InsertKeepsTies(c[0], SortDesc(rest), s);
    }
  }

  /** Tokens with equal counts appear in the table in the order of their first occurrence. */
  lemma WordFrequencyTies(tokens: seq<string>, topN: nat)
    ensures TiesInFirstSeenOrder(BuildWordFrequency(tokens, topN), tokens)
  {
    SortDescTies(Counter(tokens), tokens);
  }

  lemma {:induction false} WordFrequencyEntries(tokens: seq<string>, topN: nat)
    ensures var r := BuildWordFrequency(tokens, topN);
      forall i :: 0 <= i < |r| ==> r[i].0 in tokens && r[i].1 == multiset(tokens)[r[i].0] > 0
  {
    var c := Counter(tokens);
    var sorted := SortDesc(c);
    var r := Take(sorted, topN);
    SortDescCorrect(c);
    forall i | 0 <= i < |r| ensures r[i].0 in tokens && r[i].1 == multiset(tokens)[r[i].0] > 0 {
      assert r[i] == sorted[i];
      assert sorted[i] in multiset(c);
    }
  }

  lemma {:induction false} WordFrequencyTop(tokens: seq<string>, topN: nat, w: string)
    requires w in tokens
    requires var r := BuildWordFrequency(tokens, topN); forall i :: 0 <= i < |r| ==> r[i].0 != w
    ensures var r := BuildWordFrequency(tokens, topN);
      |r| == topN && forall i :: 0 <= i < |r| ==> r[i].1 >= multiset(tokens)[w]
  {
    var c := Counter(tokens);
    var sorted := SortDesc(c);
    var r := Take(sorted, topN);
    assert r == BuildWordFrequency(tokens, topN);
    var p := (w, multiset(tokens)[w]);
    SortDescCorrect(c);
    assert p in multiset(c);
    assert p in sorted;
    forall i | 0 <= i < |r| ensures r[i] != p {
      assert r[i].0 != w;
    }
    TakeSortedKeepsLargest(sorted, topN, p);
  }

  lemma WordFrequencyShape(tokens: seq<string>, topN: nat)
    ensures var r := BuildWordFrequency(tokens, topN);
      && |r| == (if topN < |set w | w in tokens| then topN else |set w | w in tokens|)
      && DistinctKeys(r)
      && SortedDesc(r)
  {
    var c := Counter(tokens);
    SortDescCorrect(c);
    SortDescKeepsDistinctKeys(c);
  }

  lemma WordFrequencyLeftOut(tokens: seq<string>, topN: nat)
    ensures var r := BuildWordFrequency(tokens, topN);
      forall w :: w in tokens && (forall i :: 0 <= i < |r| ==> r[i].0 != w) ==>
        |r| == topN && forall i :: 0 <= i < |r| ==> r[i].1 >= multiset(tokens)[w]
  {
    var r := BuildWordFrequency(tokens, topN);
    forall w | w in tokens && (forall i :: 0 <= i < |r| ==> r[i].0 != w)
      ensures |r| == topN && forall i :: 0 <= i < |r| ==> r[i].1 >= multiset(tokens)[w]
    {
      WordFrequencyTop(tokens, topN, w);
    }
  }

  lemma WordFrequencyStable(tokens: seq<string>, topN: nat)
    ensures forall v :: IsPrefix(WithValue(BuildWordFrequency(tokens, topN), v), WithValue(Counter(tokens), v))
  {
    SortDescCorrect(Counter(tokens));
    forall v ensures IsPrefix(WithValue(BuildWordFrequency(tokens, topN), v), WithValue(Counter(tokens), v)) {
      TakeWithValue(SortDesc(Counter(tokens)), topN, v);
    }
  }

  /** The frequency table: at most `topN` distinct tokens with their exact counts, by non-increasing count;
      a token left out occurs no more often than any token kept and is left out only when `topN` are kept;
      tokens with equal counts keep the order in which they are first met. */
  lemma WordFrequencyCorrect(tokens: seq<string>, topN: nat)
    ensures var r := BuildWordFrequency(tokens, topN);
      && |r| == (if topN < |set w | w in tokens| then topN else |set w | w in tokens|)
      && DistinctKeys(r)
      && SortedDesc(r)
      && (forall i :: 0 <= i < |r| ==> r[i].0 in tokens && r[i].1 == multiset(tokens)[r[i].0] > 0)
      && (forall w :: w in tokens && (forall i :: 0 <= i < |r| ==> r[i].0 != w) ==>
            |r| == topN && forall i :: 0 <= i < |r| ==> r[i].1 >= multiset(tokens)[w])
      && (forall v :: IsPrefix(WithValue(r, v), WithValue(Counter(tokens), v)))
      && TiesInFirstSeenOrder(r, tokens)
  {
    WordFrequencyShape(tokens, topN);
    WordFrequencyEntries(tokens, topN);
    WordFrequencyLeftOut(tokens, topN);
    WordFrequencyStable(tokens, topN);
    WordFrequencyTies(tokens, topN);
  }
}
