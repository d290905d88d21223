/**
 The sampling and aggregation logic of `analyze_sentiment`. The sentence
 tokenizer's output is the input; the VADER scorer is a function parameter
 returning the four polarity scores of a sentence. Means are exact reals;
 floating-point summation and rounding are left out.
 */
module Sentiment {
  import opened Wrappers
  import opened Ranking

  const PositiveThreshold: real := 0.05
  const NegativeThreshold: real := -0.05

  /** `s[::step]`: the elements at positions 0, step, 2 * step, ... */
  function Stride<T>(s: seq<T>, step: nat): seq<T>
    requires step > 0
    decreases |s|
  {
    if s == [] then [] else [s[0]] + Stride(if step < |s| then s[step..] else [], step)
  }

  lemma {:induction false} StrideAt<T>(s: seq<T>, step: nat, i: nat)
    requires step > 0 && i * step < |s|
    ensures i < |Stride(s, step)| && Stride(s, step)[i] == s[i * step]
    decreases i
  {
    if i > 0 {
      assert i * step == (i - 1) * step + step;
      var rest := s[step..];
      StrideAt(rest, step, i - 1);
      assert rest[(i - 1) * step] == s[i * step];
    }
  }

  lemma MulMonotone(a: nat, b: nat, c: nat)
    requires a <= b
    ensures a * c <= b * c
  {
    assert b * c == a * c + (b - a) * c;
  }

  lemma SampleIndexInRange(n: nat, k: nat, i: nat)
    requires 0 < k < n && i < k
    ensures 0 < n / k && i * (n / k) < n
  {
    var step := n / k;
    assert n == step * k + n % k;
    assert step > 0;
    MulMonotone(i, k - 1, step);
    assert (k - 1) * step + step == k * step;
  }

  /** The sentences `analyze_sentiment` scores: all of them when there are at most `sampleSize`,
      otherwise `sentences[::step][:sampleSize]` with `step = len(sentences) // sampleSize`. */
  function Sample<T>(sentences: seq<T>, sampleSize: nat): seq<T>
    requires |sentences| <= sampleSize || sampleSize > 0
  {
    if |sentences| > sampleSize then
      SampleIndexInRange(|sentences|, sampleSize, 0);
      Take(Stride(sentences, |sentences| / sampleSize), sampleSize)
    else sentences
  }

  /** No more than `sampleSize` sentences are scored; up to that many, every sentence once, in order;
      beyond it exactly `sampleSize` of them, evenly spaced from the first. */
  lemma SampleCorrect<T>(sentences: seq<T>, sampleSize: nat)
    requires |sentences| <= sampleSize || sampleSize > 0
    ensures |Sample(sentences, sampleSize)| == if |sentences| <= sampleSize then |sentences| else sampleSize
    ensures |sentences| <= sampleSize ==> Sample(sentences, sampleSize) == sentences
    ensures |sentences| > sampleSize ==>
      forall i :: 0 <= i < sampleSize ==>
        && i * (|sentences| / sampleSize) < |sentences|
        && Sample(sentences, sampleSize)[i] == sentences[i * (|sentences| / sampleSize)]
  {
    var n, k := |sentences|, sampleSize;
    if n > k {
      var step := n / k;
      var strided := Stride(sentences, step);
      SampleIndexInRange(n, k, k - 1);
      StrideAt(sentences, step, k - 1);
      forall i | 0 <= i < k
        ensures i * step < n && Sample(sentences, k)[i] == sentences[i * step]
      {
        SampleIndexInRange(n, k, i);
        StrideAt(sentences, step, i);
      }
    }
  }

  datatype Label = Positive | Negative | Neutral

  /** The overall label from the mean compound score. */
  function Classify(avgCompound: real): (l: Label)
    ensures l == Positive <==> avgCompound >= PositiveThreshold
    ensures l == Negative <==> avgCompound <= NegativeThreshold
    ensures l == Neutral <==> NegativeThreshold < avgCompound < PositiveThreshold
  {
    if avgCompound >= PositiveThreshold then Positive
    else if avgCompound <= NegativeThreshold then Negative
    else Neutral
  }

  /** What `polarity_scores` returns for one sentence. */
  datatype Polarity = Polarity(compound: real, pos: real, neu: real, neg: real)

  /** The ranges VADER's scores lie in: compound within [-1, 1], the three proportions within [0, 1]. */
  predicate InRange(p: Polarity) {
    -1.0 <= p.compound <= 1.0 && 0.0 <= p.pos <= 1.0 && 0.0 <= p.neu <= 1.0 && 0.0 <= p.neg <= 1.0
  }

  datatype Component = Compound | Pos | Neu | Neg

  function Get(p: Polarity, c: Component): real {
    match c
    case Compound => p.compound
    case Pos => p.pos
    case Neu => p.neu
    case Neg => p.neg
  }

  function Sum(ps: seq<Polarity>, c: Component): real {
    if ps == [] then 0.0 else Get(ps[0], c) + Sum(ps[1..], c)
  }

  /** `sum(s[c] for s in sentiments) / len(sentiments)` */
  function Mean(ps: seq<Polarity>, c: Component): real
    requires |ps| > 0
  {
    Sum(ps, c) / |ps| as real
  }

  lemma {:induction false} SumBounds(ps: seq<Polarity>, c: Component, lo: real, hi: real)
    requires forall j :: 0 <= j < |ps| ==> lo <= Get(ps[j], c) <= hi
    ensures lo * |ps| as real <= Sum(ps, c) <= hi * |ps| as real
    decreases |ps|
  {
    if ps != [] {
      SumBounds(ps[1..], c, lo, hi);
      assert lo * |ps| as real == lo + lo * |ps[1..]| as real;
      assert hi * |ps| as real == hi + hi * |ps[1..]| as real;
    }
  }

  /** A mean of scores that lie within `[lo, hi]` lies within `[lo, hi]`. */
  lemma MeanBounds(ps: seq<Polarity>, c: Component, lo: real, hi: real)
    requires |ps| > 0
    requires forall j :: 0 <= j < |ps| ==> lo <= Get(ps[j], c) <= hi
    ensures lo <= Mean(ps, c) <= hi
  {
    SumBounds(ps, c, lo, hi);
    var n := |ps| as real;
    assert Mean(ps, c) * n == Sum(ps, c);
  }

  datatype SentimentSummary = SentimentSummary(
    compound: real, positive: real, neutral: real, negative: real,
    overall: Label, sentencesAnalyzed: nat)

  /** `len(sentences) // sample_size` with `sample_size` 0 raises `ZeroDivisionError`. */
  datatype SampleError = ZeroDivisionError

  /** The four means of scores that each lie in range lie in range. */
  lemma MeansInRange(ps: seq<Polarity>)
    requires |ps| > 0
    ensures (forall j :: 0 <= j < |ps| ==> InRange(ps[j])) ==>
      InRange(Polarity(Mean(ps, Compound), Mean(ps, Pos), Mean(ps, Neu), Mean(ps, Neg)))
  {
    if forall j :: 0 <= j < |ps| ==> InRange(ps[j]) {
      MeanBounds(ps, Compound, -1.0, 1.0);
      MeanBounds(ps, Pos, 0.0, 1.0);
      MeanBounds(ps, Neu, 0.0, 1.0);
      MeanBounds(ps, Neg, 0.0, 1.0);
    }
  }

  /** `analyze_sentiment`: split the text into sentences, score each sampled sentence,
      then average each score and label the mean compound. */
  method AnalyzeSentiment(text: string, sampleSize: nat, sentTokenize: string -> seq<string>,
                          polarity: string -> Polarity)
    returns (result: Result<SentimentSummary, SampleError>)
    ensures result.Failure? <==> |sentTokenize(text)| > sampleSize == 0
    ensures result.Success? ==>
      var r, sentences := result.value, sentTokenize(text);
      && r.sentencesAnalyzed == (if |sentences| <= sampleSize then |sentences| else sampleSize)
      && (r.sentencesAnalyzed == 0 ==> r == SentimentSummary(0.0, 0.0, 0.0, 0.0, Neutral, 0))
      && (r.sentencesAnalyzed > 0 ==>
            var sampled := Sample(sentences, sampleSize);
            var scores := seq(|sampled|, j requires 0 <= j < |sampled| => polarity(sampled[j]));
            && r.compound == Mean(scores, Compound) && r.positive == Mean(scores, Pos)
            && r.neutral == Mean(scores, Neu) && r.negative == Mean(scores, Neg)
            && r.overall == Classify(r.compound))
      && ((forall s :: InRange(polarity(s))) ==>
            InRange(Polarity(r.compound, r.positive, r.neutral, r.negative)))
  {
    var sentences := sentTokenize(text);
    if |sentences| > sampleSize == 0 {
      return Failure(ZeroDivisionError);
    }
    SampleCorrect(sentences, sampleSize);
    var sampled := Sample(sentences, sampleSize);
    var sentiments: seq<Polarity> := [];
    var i := 0;
    while i < |sampled|
      invariant 0 <= i <= |sampled|
      invariant sentiments == seq(i, j requires 0 <= j < i => polarity(sampled[j]))
    {
      sentiments := sentiments + [polarity(sampled[i])];
      i := i + 1;
    }
    if |sentiments| > 0 {
      MeansInRange(sentiments);
      var avgCompound := Mean(sentiments, Compound);
      result := Success(SentimentSummary(avgCompound, Mean(sentiments, Pos), Mean(sentiments, Neu),
        Mean(sentiments, Neg), Classify(avgCompound), |sampled|));
    } else {
      result := Success(SentimentSummary(0.0, 0.0, 0.0, 0.0, Neutral, |sampled|));
    }
  }
}
