/**
 `compare_vocabularies`: for every ordered pair of distinct texts, the number of
 distinct words they share and that number as a percentage of the first text's
 vocabulary.
 */
module Compare {
  import opened Wrappers

  /** `set(tokens)` */
  function Vocab(tokens: seq<string>): set<string> {
    set w | w in tokens
  }

  datatype Overlap = Overlap(sharedWords: nat, overlapPercentage: real)

  /** `len(a & b)` and `len(a & b) / len(a) * 100`, with 0 for an empty `a`. */
  function OverlapOf(a: set<string>, b: set<string>): Overlap {
    Overlap(|a * b|, Percentage(|a * b|, |a|))
  }

  /** `part / whole * 100`, and 0 when `whole` is 0. */
  function Percentage(part: nat, whole: nat): (p: real)
    ensures whole == 0 ==> p == 0.0
    ensures whole > 0 ==> p * whole as real == part as real * 100.0
    ensures 0.0 <= p
    ensures p == 0.0 <==> part == 0 || whole == 0
    ensures part <= whole ==> p <= 100.0
    ensures whole > 0 ==> (p == 100.0 <==> part == whole)
  {
    if whole == 0 then 0.0 else part as real / whole as real * 100.0
  }

  /** Row `a` of the table: every other text `b`, with the overlap of `a`'s vocabulary with `b`'s. */
  function Row(all: map<string, seq<string>>, a: string): map<string, Overlap>
    requires a in all
  {
    map b | b in all && b != a :: OverlapOf(Vocab(all[a]), Vocab(all[b]))
  }

  /** Some text's vocabulary is empty while another text exists: the first comparison
      that divides by it raises `ZeroDivisionError`. */
  predicate EmptyVocabWithPeer(all: map<string, seq<string>>) {
    exists a :: a in all && Vocab(all[a]) == {} && HasPeer(all, a)
  }

  /** Some text other than `a` exists. */
  predicate HasPeer(all: map<string, seq<string>>, a: string) {
    exists b :: b in all && b != a
  }

  /** The table `compare_vocabularies` returns when it returns normally. */
  function ComparisonTable(all: map<string, seq<string>>): map<string, map<string, Overlap>> {
    map a | a in all :: Row(all, a)
  }

  /** Once every other text is compared, the row is complete. */
  lemma RowComplete(all: map<string, seq<string>>, a: string, row: map<string, Overlap>)
    requires a in all
    requires forall b :: b in row <==> b in all && b != a
    requires forall b :: b in row ==> row[b] == OverlapOf(Vocab(all[a]), Vocab(all[b]))
    ensures row == Row(all, a)
  {
  }

  /** One row of `compare_vocabularies`: the inner loop over every other text, given the
      precomputed vocabularies. */
  method CompareRow(all: map<string, seq<string>>, unique: map<string, set<string>>, a: string)
    returns (r: Result<map<string, Overlap>, string>)
    requires a in all
    requires unique.Keys == all.Keys && forall id :: id in all ==> unique[id] == Vocab(all[id])
    ensures r.Failure? <==> Vocab(all[a]) == {} && HasPeer(all, a)
    ensures r.Failure? ==> r.error == a
    ensures r.Success? ==> r.value == Row(all, a)
  {
    var row: map<string, Overlap> := map[];
    var others := all.Keys;
    ghost var compared := false;
    while others != {}
      invariant others <= all.Keys
      invariant forall b :: b in row <==> b in all && b !in others && b != a
      invariant forall b :: b in row ==> row[b] == OverlapOf(Vocab(all[a]), Vocab(all[b]))
      invariant compared ==> Vocab(all[a]) != {}
      invariant compared <==> exists b :: b in row
      decreases |others|
    {
      var b :| b in others;
      if a != b {
        if |unique[a]| == 0 {
          assert HasPeer(all, a);
          return Failure(a);
        }
        row := row[b := OverlapOf(unique[a], unique[b])];
        compared := true;
      }
      others := others - {b};
    }
    RowComplete(all, a, row);
    return Success(row);
  }

  /** Once every text has its row and no row divided by zero, the table is complete. */
  lemma TableComplete(all: map<string, seq<string>>, comparisons: map<string, map<string, Overlap>>)
    requires forall a :: a in comparisons <==> a in all
    requires forall a :: a in comparisons ==> comparisons[a] == Row(all, a)
    requires forall a :: a in comparisons && HasPeer(all, a) ==> Vocab(all[a]) != {}
    ensures !EmptyVocabWithPeer(all)
    ensures comparisons == ComparisonTable(all)
  {
  }

  /** `compare_vocabularies`: `Failure(id)` models the `ZeroDivisionError` raised on text `id`. */
  method CompareVocabularies(all: map<string, seq<string>>) returns (r: Result<map<string, map<string, Overlap>>, string>)
    ensures r.Failure? <==> EmptyVocabWithPeer(all)
    ensures r.Failure? ==> r.error in all && Vocab(all[r.error]) == {}
    ensures r.Success? ==> r.value == ComparisonTable(all)
  {
    var unique := map id | id in all :: Vocab(all[id]);
    var comparisons: map<string, map<string, Overlap>> := map[];
    var pending := all.Keys;
    while pending != {}
      invariant pending <= all.Keys
      invariant forall a :: a in comparisons <==> a in all && a !in pending
      invariant forall a :: a in comparisons ==> comparisons[a] == Row(all, a)
      invariant forall a :: a in comparisons && HasPeer(all, a) ==> Vocab(all[a]) != {}
      decreases |pending|
    {
      var a :| a in pending;
      var row := CompareRow(all, unique, a);
      if row.Failure? {
        assert Vocab(all[a]) == {} && HasPeer(all, a);
        return Failure(row.error);
      }
      comparisons := comparisons[a := row.value];
      pending := pending - {a};
    }
    TableComplete(all, comparisons);
    return Success(comparisons);
  }

  /** What one comparison states: the shared count is the same in both directions and bounded by
      both vocabularies; the percentage lies within [0, 100], is 100 exactly when the first vocabulary
      lies inside the second, and is 0 exactly when the two share nothing or the first is empty. */
  lemma OverlapFacts(a: set<string>, b: set<string>)
    ensures OverlapOf(a, b).sharedWords == OverlapOf(b, a).sharedWords
    ensures OverlapOf(a, b).sharedWords <= |a| && OverlapOf(a, b).sharedWords <= |b|
    ensures 0.0 <= OverlapOf(a, b).overlapPercentage <= 100.0
    ensures a != {} ==> (OverlapOf(a, b).overlapPercentage == 100.0 <==> a <= b)
    ensures OverlapOf(a, b).overlapPercentage == 0.0 <==> a * b == {}
  {
    IntersectionSize(a, b);
    IntersectionSize(b, a);
    assert a * b == b * a;
  }

  lemma IntersectionSize(a: set<string>, b: set<string>)
    ensures |a * b| <= |a|
    ensures |a * b| == |a| <==> a <= b
  {
    assert a == (a - b) + (a * b);
    assert (a - b) * (a * b) == {};
    if |a * b| == |a| {
      assert |a - b| == 0;
    }
  }

  /** The table has a row for every text, and each row a column for every other text;
      the shared counts of `a` against `b` and of `b` against `a` agree. */
  lemma ComparisonTableShape(all: map<string, seq<string>>)
    ensures ComparisonTable(all).Keys == all.Keys
    ensures forall a :: a in all ==> ComparisonTable(all)[a].Keys == all.Keys - {a}
    ensures forall a, b :: a in all && b in all && a != b ==>
      ComparisonTable(all)[a][b].sharedWords == ComparisonTable(all)[b][a].sharedWords
  {
    forall a, b | a in all && b in all && a != b
      ensures ComparisonTable(all)[a][b].sharedWords == ComparisonTable(all)[b][a].sharedWords
    {
      OverlapFacts(Vocab(all[a]), Vocab(all[b]));
    }
  }

  /** The percentage is taken over the first text's vocabulary, so it is not symmetric:
      a two-word vocabulary and a one-word vocabulary inside it give 50 one way and 100 the other. */
  lemma PercentageIsDirectional()
    ensures var all := map["first" := ["whale", "sea"], "second" := ["whale"]];
      && ComparisonTable(all)["first"]["second"] == Overlap(1, 50.0)
      && ComparisonTable(all)["second"]["first"] == Overlap(1, 100.0)
  {
    var all := map["first" := ["whale", "sea"], "second" := ["whale"]];
    var whale, sea := "whale", "sea";
    assert whale[0] != sea[0];
    assert Vocab(all["first"]) == {whale, sea};
    assert Vocab(all["second"]) == {whale};
    assert {whale, sea} * {whale} == {whale};
    assert |{whale, sea}| == 2;
    assert Percentage(1, 2) == 50.0;
    assert Percentage(1, 1) == 100.0;
    assert {whale} * {whale, sea} == {whale};
    assert OverlapOf({whale, sea}, {whale}) == Overlap(1, 50.0);
    assert OverlapOf({whale}, {whale, sea}) == Overlap(1, 100.0);
  }

  /** A text whose vocabulary is empty, next to any other text, makes `compare_vocabularies` raise. */
  lemma EmptyTextRaises()
    ensures EmptyVocabWithPeer(map["empty" := [], "other" := ["whale"]])
  {
    var all := map["empty" := [], "other" := ["whale"]];
    assert Vocab(all["empty"]) == {};
    assert "other" in all && "other" != "empty";
  }

  /** With the division guarded, every entry of the table is well defined and lies within [0, 100]. */
  lemma ComparisonTableBounds(all: map<string, seq<string>>)
    ensures forall a, b :: a in all && b in all && a != b ==>
      && 0.0 <= ComparisonTable(all)[a][b].overlapPercentage <= 100.0
      && ComparisonTable(all)[a][b].sharedWords <= |Vocab(all[a])|
  {
    forall a, b | a in all && b in all && a != b
      ensures 0.0 <= ComparisonTable(all)[a][b].overlapPercentage <= 100.0
      ensures ComparisonTable(all)[a][b].sharedWords <= |Vocab(all[a])|
    {
      OverlapFacts(Vocab(all[a]), Vocab(all[b]));
    }
  }
}
