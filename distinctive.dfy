/**
 `find_distinctive_words`: for each text, its words scored by how often they
 occur in it and how few of the other texts contain them; words that every
 other text also contains are dropped; the top `topN` by score are kept.
 */
module Distinctive {
  import opened Ranking
  import opened Tokens

  /** How many texts other than `id` contain `w`. */
  function AppearsIn(all: map<string, seq<string>>, id: string, w: string): nat {
    |set o | o in all && o != id && w in all[o]|
  }

  /** `appears_in < len(all_freqs) - 1`: some other text lacks `w`. */
  predicate Eligible(all: map<string, seq<string>>, id: string, w: string) {
    AppearsIn(all, id, w) < |all| - 1
  }

  /** `count * (len(all_freqs) - appears_in)` */
  function Score(all: map<string, seq<string>>, id: string, w: string, count: nat): (r: nat)
    requires Eligible(all, id, w)
    ensures 2 * count <= r <= count * |all|
  {
    MultiplyBounds(count, |all| - AppearsIn(all, id, w), |all|);
    count * (|all| - AppearsIn(all, id, w))
  }

  lemma MultiplyBounds(count: nat, factor: nat, n: nat)
    requires 2 <= factor <= n
    ensures 2 * count <= count * factor <= count * n
  {
    assert count * factor - 2 * count == count * (factor - 2);
    assert count * n - count * factor == count * (n - factor);
  }

  /** The `scores` dictionary as its items, in insertion order, built from the pairs of `freq`. */
  function Scores(all: map<string, seq<string>>, id: string, freq: seq<(string, nat)>): (r: seq<(string, nat)>)
    ensures |r| <= |freq|
  {
    if freq == [] then []
    else
      var (w, count) := freq[|freq| - 1];
      Scores(all, id, freq[..|freq| - 1])
        + (if Eligible(all, id, w) then [(w, Score(all, id, w, count))] else [])
  }

  /** The list `find_distinctive_words` returns for text `id`. */
  function DistinctiveOf(all: map<string, seq<string>>, id: string, topN: nat): seq<(string, nat)>
    requires id in all
  {
    Take(SortDesc(Scores(all, id, Counter(all[id]))), topN)
  }

  /** The inner loop of `find_distinctive_words`: score every word of one text's counter. */
  method ScoreWords(all: map<string, seq<string>>, id: string, freq: seq<(string, nat)>)
    returns (scores: seq<(string, nat)>)
    ensures scores == Scores(all, id, freq)
  {
    scores := [];
    var i := 0;
    while i < |freq|
      invariant 0 <= i <= |freq|
      invariant scores == Scores(all, id, freq[..i])
    {
      var (word, count) := freq[i];
      var appearsIn := AppearsIn(all, id, word);
      if appearsIn < |all| - 1 {
        scores := scores + [(word, count * (|all| - appearsIn))];
      }
      assert freq[..i + 1][..i] == freq[..i];
      i := i + 1;
    }
    assert freq[..i] == freq;
  }

  /** `find_distinctive_words`: the scores of each text, sorted and truncated. */
  method FindDistinctiveWords(all: map<string, seq<string>>, topN: nat)
    returns (distinctive: map<string, seq<(string, nat)>>)
    ensures distinctive.Keys == all.Keys
    ensures forall id :: id in all ==> distinctive[id] == DistinctiveOf(all, id, topN)
  {
    var allFreqs := map id | id in all :: Counter(all[id]);
    distinctive := map[];
    var pending := all.Keys;
    while pending != {}
      invariant pending <= all.Keys
      invariant forall id :: id in distinctive <==> id in all && id !in pending
      invariant forall id :: id in distinctive ==> distinctive[id] == DistinctiveOf(all, id, topN)
      decreases |pending|
    {
      var id :| id in pending;
      var scores := ScoreWords(all, id, allFreqs[id]);
      distinctive := distinctive[id := Take(SortDesc(scores), topN)];
      pending := pending - {id};
    }
  }

  function KeysOf(s: seq<(string, nat)>): set<string> {
    set p | p in s :: p.0
  }

  /** Every scored word comes from `freq`, may be scored, and carries its score. */
  lemma {:induction false} ScoresEntries(all: map<string, seq<string>>, id: string, freq: seq<(string, nat)>)
    requires id in all
    requires forall q :: q in freq ==> q.0 in all[id] && q.1 == multiset(all[id])[q.0]
    ensures forall p :: p in Scores(all, id, freq) ==>
      && p.0 in KeysOf(freq) && p.0 in all[id] && Eligible(all, id, p.0)
      && p.1 == Score(all, id, p.0, multiset(all[id])[p.0])
    decreases |freq|
  {
    if freq != [] {
      var init := freq[..|freq| - 1];
      assert forall q :: q in init ==> q in freq;
      ScoresEntries(all, id, init);
      assert KeysOf(init) <= KeysOf(freq);
      assert freq[|freq| - 1] in freq;
    }
  }

  /** Every word of `freq` that may be scored is scored. */
  lemma {:induction false} ScoresComplete(all: map<string, seq<string>>, id: string, freq: seq<(string, nat)>)
    ensures forall q :: q in freq && Eligible(all, id, q.0) ==> (q.0, Score(all, id, q.0, q.1)) in Scores(all, id, freq)
    decreases |freq|
  {
    if freq != [] {
      var init := freq[..|freq| - 1];
      ScoresComplete(all, id, init);
      assert freq == init + [freq[|freq| - 1]];
    }
  }

  /** Words are scored at most once when `freq` has each word once. */
  lemma {:induction false} ScoresDistinct(all: map<string, seq<string>>, id: string, freq: seq<(string, nat)>)
    requires DistinctKeys(freq)
    ensures DistinctKeys(Scores(all, id, freq))
    decreases |freq|
  {
    if freq != [] {
      var init := freq[..|freq| - 1];
      var last := freq[|freq| - 1];
      assert DistinctKeys(init);
      ScoresDistinct(all, id, init);
      ScoresKeys(all, id, init);
      assert last.0 !in KeysOf(init);
    }
  }

  lemma {:induction false} ScoresKeys(all: map<string, seq<string>>, id: string, freq: seq<(string, nat)>)
    ensures forall p :: p in Scores(all, id, freq) ==> p.0 in KeysOf(freq)
    decreases |freq|
  {
    if freq != [] {
      var init := freq[..|freq| - 1];
      ScoresKeys(all, id, init);
      assert forall q :: q in init ==> q in freq;
      assert KeysOf(init) <= KeysOf(freq);
      assert freq[|freq| - 1] in freq;
    }
  }

  /** Scoring keeps the words in the order of `freq`. */
  lemma {:induction false} ScoresOrdered(all: map<string, seq<string>>, id: string, freq: seq<(string, nat)>, s: seq<string>)
    requires InFirstSeenOrder(freq, s)
    ensures InFirstSeenOrder(Scores(all, id, freq), s)
    decreases |freq|
  {
    if freq != [] {
      var init, last := freq[..|freq| - 1], freq[|freq| - 1];
      assert InFirstSeenOrder(init, s) by {
        forall i, j | 0 <= i < j < |init| ensures FirstIndex(s, init[i].0) < FirstIndex(s, init[j].0) {
          assert init[i] == freq[i] && init[j] == freq[j];
        }
      }
      ScoresOrdered(all, id, init, s);
      ScoresKeys(all, id, init);
      forall p | p in Scores(all, id, init) ensures FirstIndex(s, p.0) < FirstIndex(s, last.0) {
        var k :| 0 <= k < |init| && init[k].0 == p.0;
        assert init[k] == freq[k];
      }
    }
  }

  /** Words with equal scores appear in the order in which the text first uses them. */
  lemma DistinctiveTies(all: map<string, seq<string>>, id: string, topN: nat)
    requires id in all
    ensures TiesInFirstSeenOrder(DistinctiveOf(all, id, topN), all[id])
  {
    ScoresOrdered(all, id, Counter(all[id]), all[id]);
    SortDescTies(Scores(all, id, Counter(all[id])), all[id]);
  }

  lemma SubsetSize(a: set<string>, b: set<string>)
    requires a <= b
    ensures |a| <= |b|
    ensures |a| == |b| ==> a == b
  {
    assert b == a + (b - a);
    assert a * (b - a) == {};
  }

  /** A word may be scored exactly when some other text does not contain it. */
  lemma EligibleMeans(all: map<string, seq<string>>, id: string, w: string)
    requires id in all
    ensures Eligible(all, id, w) <==> exists o :: o in all && o != id && w !in all[o]
  {
    var others := all.Keys - {id};
    var containing := set o | o in all && o != id && w in all[o];
    assert |all.Keys| == |all|;
    assert |others| == |all| - 1;
    assert AppearsIn(all, id, w) == |containing|;
    assert containing <= others;
    SubsetSize(containing, others);
    if !Eligible(all, id, w) {
      assert containing == others;
      forall o | o in all && o != id ensures w in all[o] {
        assert o in containing;
      }
    } else {
      assert containing != others;
      var o :| o in others && o !in containing;
    }
  }

  /** With a single text no word is missing from every other text, so nothing is distinctive. */
  lemma SingleTextHasNone(all: map<string, seq<string>>, id: string, topN: nat)
    requires id in all && |all| == 1
    ensures DistinctiveOf(all, id, topN) == []
  {
    NoneEligible(all, id, Counter(all[id]));
    SortDescCorrect(Scores(all, id, Counter(all[id])));
  }

  lemma {:induction false} NoneEligible(all: map<string, seq<string>>, id: string, freq: seq<(string, nat)>)
    requires |all| == 1
    ensures Scores(all, id, freq) == []
    decreases |freq|
  {
    if freq != [] {
      NoneEligible(all, id, freq[..|freq| - 1]);
    }
  }

  lemma DistinctiveShape(all: map<string, seq<string>>, id: string, topN: nat)
    requires id in all
    ensures DistinctKeys(DistinctiveOf(all, id, topN)) && SortedDesc(DistinctiveOf(all, id, topN))
  {
    var scores := Scores(all, id, Counter(all[id]));
    ScoresDistinct(all, id, Counter(all[id]));
    SortDescCorrect(scores);
    SortDescKeepsDistinctKeys(scores);
  }

  lemma DistinctiveEntries(all: map<string, seq<string>>, id: string, topN: nat)
    requires id in all
    ensures var r := DistinctiveOf(all, id, topN);
      forall i :: 0 <= i < |r| ==>
        && r[i].0 in all[id] && Eligible(all, id, r[i].0)
        && r[i].1 == Score(all, id, r[i].0, multiset(all[id])[r[i].0])
  {
    var freq := Counter(all[id]);
    var scores := Scores(all, id, freq);
    var sorted := SortDesc(scores);
    var r := Take(sorted, topN);
    ScoresEntries(all, id, freq);
    SortDescCorrect(scores);
    forall i | 0 <= i < |r|
      ensures r[i].0 in all[id] && Eligible(all, id, r[i].0)
      ensures r[i].1 == Score(all, id, r[i].0, multiset(all[id])[r[i].0])
    {
      assert r[i] == sorted[i];
      assert sorted[i] in multiset(scores);
    }
  }

  /** The scored pair of a word that may be scored occurs in the sorted scores. */
  lemma ScoredInSorted(all: map<string, seq<string>>, id: string, w: string)
    requires id in all && w in all[id] && Eligible(all, id, w)
    ensures (w, Score(all, id, w, multiset(all[id])[w])) in SortDesc(Scores(all, id, Counter(all[id])))
  {
    var scores := Scores(all, id, Counter(all[id]));
    ScoresComplete(all, id, Counter(all[id]));
    SortDescCorrect(scores);
    assert (w, Score(all, id, w, multiset(all[id])[w])) in multiset(SortDesc(scores));
  }

  /** A word that may be scored but is left out scores no more than any word kept,
      and is left out only when `topN` words are kept. */
  lemma DistinctiveTop(all: map<string, seq<string>>, id: string, topN: nat, w: string)
    requires id in all && w in all[id] && Eligible(all, id, w)
    requires var r := DistinctiveOf(all, id, topN); forall i :: 0 <= i < |r| ==> r[i].0 != w
    ensures var r := DistinctiveOf(all, id, topN);
      |r| == topN && forall i :: 0 <= i < |r| ==> r[i].1 >= Score(all, id, w, multiset(all[id])[w])
  {
    var sorted := SortDesc(Scores(all, id, Counter(all[id])));
    var r := Take(sorted, topN);
    assert r == DistinctiveOf(all, id, topN);
    var p := (w, Score(all, id, w, multiset(all[id])[w]));
    ScoredInSorted(all, id, w);
    SortDescCorrect(Scores(all, id, Counter(all[id])));
    forall i | 0 <= i < |r| ensures r[i] != p {
      assert r[i].0 != w;
    }
    TakeSortedKeepsLargest(sorted, topN, p);
  }

  /** The distinctive words of one text: at most `topN` distinct words of the text, each missing
      from some other text, with score `count * (number of texts - number of other texts containing it)`,
      by non-increasing score; a word that could be scored but is left out scores no more than any word
      kept and is left out only when `topN` are kept; equal scores keep the order of the scores list,
      which is the order in which the text first uses the words. */
  lemma DistinctiveCorrect(all: map<string, seq<string>>, id: string, topN: nat)
    requires id in all
    ensures var r := DistinctiveOf(all, id, topN);
      && |r| <= topN
      && DistinctKeys(r)
      && SortedDesc(r)
      && (forall i :: 0 <= i < |r| ==>
            && r[i].0 in all[id]
            && (exists o :: o in all && o != id && r[i].0 !in all[o])
            && Eligible(all, id, r[i].0)
            && r[i].1 == Score(all, id, r[i].0, multiset(all[id])[r[i].0]))
      && (forall w :: w in all[id] && Eligible(all, id, w) && (forall i :: 0 <= i < |r| ==> r[i].0 != w) ==>
            |r| == topN && forall i :: 0 <= i < |r| ==> r[i].1 >= Score(all, id, w, multiset(all[id])[w]))
      && (forall v :: IsPrefix(WithValue(r, v), WithValue(Scores(all, id, Counter(all[id])), v)))
      && TiesInFirstSeenOrder(r, all[id])
  {
    var scores := Scores(all, id, Counter(all[id]));
    var sorted := SortDesc(scores);
    var r := Take(sorted, topN);
    DistinctiveShape(all, id, topN);
    DistinctiveEntries(all, id, topN);
    forall i | 0 <= i < |r| ensures exists o :: o in all && o != id && r[i].0 !in all[o] {
      EligibleMeans(all, id, r[i].0);
    }
    forall w | w in all[id] && Eligible(all, id, w) && (forall i :: 0 <= i < |r| ==> r[i].0 != w)
      ensures |r| == topN && forall i :: 0 <= i < |r| ==> r[i].1 >= Score(all, id, w, multiset(all[id])[w])
    {
      DistinctiveTop(all, id, topN, w);
    }
    SortDescCorrect(scores);
    forall v ensures IsPrefix(WithValue(r, v), WithValue(scores, v)) {
      TakeWithValue(sorted, topN, v);
    }
    DistinctiveTies(all, id, topN);
  }
}
