/**
 Python's `str.strip()` and `str.split()` without arguments: both treat
 exactly the characters of `Chars.IsSpace` as whitespace.
 */
module Whitespace {
  import opened Chars

  predicate AllSpace(s: string) {
    forall k :: 0 <= k < |s| ==> IsSpace(s[k])
  }

  predicate NoSpace(s: string) {
    forall k :: 0 <= k < |s| ==> !IsSpace(s[k])
  }

  /** Neither the first nor the last character is whitespace. */
  predicate Trimmed(s: string) {
    s == [] || (!IsSpace(s[0]) && !IsSpace(s[|s| - 1]))
  }

  /** Number of whitespace characters at the front of `s`. */
  function LeadingSpaces(s: string): (n: nat)
    ensures n <= |s|
    ensures AllSpace(s[..n])
    ensures n < |s| ==> !IsSpace(s[n])
  {
    if s == [] || !IsSpace(s[0]) then 0 else 1 + LeadingSpaces(s[1..])
  }

  /** Number of whitespace characters at the back of `s`. */
  function TrailingSpaces(s: string): (n: nat)
    ensures n <= |s|
    ensures AllSpace(s[|s| - n..])
    ensures n < |s| ==> !IsSpace(s[|s| - 1 - n])
  {
    if s == [] || !IsSpace(s[|s| - 1]) then 0 else 1 + TrailingSpaces(s[..|s| - 1])
  }

  /** `s[i..j]` is what stripping `s` leaves: whitespace on both sides of it, none at its ends. */
  ghost predicate StripsTo(s: string, i: int, j: int) {
    && 0 <= i <= j <= |s|
    && AllSpace(s[..i])
    && AllSpace(s[j..])
    && Trimmed(s[i..j])
  }

  /** `str.strip()`: drops the leading and the trailing whitespace. */
  function Strip(s: string): (r: string)
    ensures exists i, j :: StripsTo(s, i, j) && r == s[i..j]
    ensures Trimmed(r)
    ensures r == [] <==> AllSpace(s)
  {
    var i := LeadingSpaces(s);
    var t := s[i..];
    var n := TrailingSpaces(t);
    var j := i + |t| - n;
    assert s[j..] == t[|t| - n..];
    assert t[..|t| - n] == s[i..j];
    assert j > i ==> s[i..j][0] == s[i] && s[i..j][j - i - 1] == t[|t| - 1 - n];
    assert StripsTo(s, i, j);
    assert AllSpace(s) ==> i == |s|;
    assert j == i ==> AllSpace(s) by {
      if j == i {
        forall k | 0 <= k < |s| ensures IsSpace(s[k]) {
          assert s[..i][k] == s[k];
        }
      }
    }
    t[..|t| - n]
  }

  lemma SpacesEndBefore(s: string, p: int, x: int)
    requires 0 <= p <= |s| && AllSpace(s[..p])
    requires 0 <= x < |s| && !IsSpace(s[x])
    ensures p <= x
  {
  }

  lemma SpacesStartAfter(s: string, p: int, x: int)
    requires 0 <= p <= |s| && AllSpace(s[p..])
    requires 0 <= x < |s| && !IsSpace(s[x])
    ensures x < p
  {
  }

  /** The part `Strip` keeps is unique once it is not empty. */
  lemma StripBoundsUnique(s: string, i: int, j: int, i': int, j': int)
    requires StripsTo(s, i, j) && StripsTo(s, i', j')
    requires i < j
    ensures i == i' && j == j'
  {
    assert s[i] == s[i..j][0] && s[j - 1] == s[i..j][j - i - 1];
    SpacesEndBefore(s, i', i);
    SpacesStartAfter(s, j', j - 1);
    assert i' < j';
    assert s[i'] == s[i'..j'][0] && s[j' - 1] == s[i'..j'][j' - i' - 1];
    SpacesEndBefore(s, i, i');
    SpacesStartAfter(s, j, j' - 1);
  }

  /** Length of the run of non-whitespace characters at the front of `s`. */
  function WordLength(s: string): (m: nat)
    ensures m <= |s|
    ensures NoSpace(s[..m])
    ensures m < |s| ==> IsSpace(s[m])
  {
    if s == [] || IsSpace(s[0]) then 0 else 1 + WordLength(s[1..])
  }

  /** `str.split()`: the maximal runs of non-whitespace characters, in order. */
  function Split(s: string): (r: seq<string>)
    ensures forall k :: 0 <= k < |r| ==> |r[k]| > 0 && NoSpace(r[k])
    decreases |s|
  {
    var i := LeadingSpaces(s);
    if i == |s| then
      assert s[..i] == s;
      []
    else
      var rest := s[i..];
      var m := WordLength(rest);
      assert rest[0] == s[i];
      [rest[..m]] + Split(rest[m..])
  }

  /** A text has no words exactly when it is all whitespace. */
  lemma SplitEmptyIff(s: string)
    ensures Split(s) == [] <==> AllSpace(s)
  {
    var i := LeadingSpaces(s);
    if i == |s| {
      assert s[..i] == s;
    } else {
      assert !IsSpace(s[i]);
    }
  }

  /** The characters of `s` that are not whitespace, in order. */
  function NonSpaceChars(s: string): (r: string)
    ensures NoSpace(r)
  {
    if s == [] then []
    else (if IsSpace(s[0]) then [] else [s[0]]) + NonSpaceChars(s[1..])
  }

  function Concat(ws: seq<string>): string {
    if ws == [] then [] else ws[0] + Concat(ws[1..])
  }

  lemma {:induction false} NonSpaceCharsAppend(a: string, b: string)
    ensures NonSpaceChars(a + b) == NonSpaceChars(a) + NonSpaceChars(b)
    decreases |a|
  {
    if a == [] {
      assert a + b == b;
    } else {
      assert (a + b)[1..] == a[1..] + b;
      NonSpaceCharsAppend(a[1..], b);
    }
  }

  lemma {:induction false} NonSpaceCharsOfSpaces(s: string)
    requires AllSpace(s)
    ensures NonSpaceChars(s) == []
    decreases |s|
  {
    if s != [] {
      NonSpaceCharsOfSpaces(s[1..]);
    }
  }

  lemma {:induction false} NonSpaceCharsOfWord(s: string)
    requires NoSpace(s)
    ensures NonSpaceChars(s) == s
    decreases |s|
  {
    if s != [] {
      NonSpaceCharsOfWord(s[1..]);
    }
  }

  /** Splitting loses only whitespace: the words, concatenated, are the text's non-whitespace characters. */
  lemma {:induction false} SplitKeepsNonSpace(s: string)
    ensures Concat(Split(s)) == NonSpaceChars(s)
    decreases |s|
  {
    var i := LeadingSpaces(s);
    assert s == s[..i] + s[i..];
    NonSpaceCharsAppend(s[..i], s[i..]);
    NonSpaceCharsOfSpaces(s[..i]);
    if i < |s| {
      var rest := s[i..];
      var m := WordLength(rest);
      assert rest == rest[..m] + rest[m..];
      NonSpaceCharsAppend(rest[..m], rest[m..]);
      NonSpaceCharsOfWord(rest[..m]);
      SplitKeepsNonSpace(rest[m..]);
      assert Split(s) == [rest[..m]] + Split(rest[m..]);
      assert Concat(Split(s)) == rest[..m] + Concat(Split(rest[m..]));
    }
  }

  /** A whitespace prefix does not change the words. */
  lemma {:induction false} SplitAfterSpaces(a: string, b: string)
    requires AllSpace(a)
    ensures Split(a + b) == Split(b)
  {
    var s := a + b;
    var i := LeadingSpaces(s);
    var ib := LeadingSpaces(b);
    assert i == |a| + ib by {
      LeadingSpacesAppend(a, b);
    }
    assert s[i..] == b[ib..];
  }

  lemma {:induction false} LeadingSpacesAppend(a: string, b: string)
    requires AllSpace(a)
    ensures LeadingSpaces(a + b) == |a| + LeadingSpaces(b)
    decreases |a|
  {
    if a != [] {
      assert (a + b)[1..] == a[1..] + b;
      assert AllSpace(a[1..]) by {
        forall k | 0 <= k < |a| - 1 ensures IsSpace(a[1..][k]) { assert a[1..][k] == a[k + 1]; }
      }
      LeadingSpacesAppend(a[1..], b);
    } else {
      assert a + b == b;
    }
  }

  lemma {:induction false} WordLengthOfWord(w: string, rest: string)
    requires NoSpace(w)
    requires rest == [] || IsSpace(rest[0])
    ensures WordLength(w + rest) == |w|
    decreases |w|
  {
    if w == [] {
      assert w + rest == rest;
    } else {
      assert (w + rest)[1..] == w[1..] + rest;
      WordLengthOfWord(w[1..], rest);
    }
  }

  /** A word followed by nothing or by whitespace is split off as one word. */
  lemma {:induction false} SplitWordThen(w: string, rest: string)
    requires |w| > 0 && NoSpace(w)
    requires rest == [] || IsSpace(rest[0])
    ensures Split(w + rest) == [w] + Split(rest)
  {
    var s := w + rest;
    assert LeadingSpaces(s) == 0 by { assert s[0] == w[0]; }
    assert s[0..] == s;
    WordLengthOfWord(w, rest);
    assert s[..|w|] == w && s[|w|..] == rest;
  }

  /** A text that is not all whitespace starts with whitespace, one word, then nothing or whitespace. */
  lemma FirstWord(a: string) returns (sp: string, w: string, a': string)
    requires !AllSpace(a)
    ensures a == sp + (w + a')
    ensures AllSpace(sp) && |w| > 0 && NoSpace(w)
    ensures a' == [] || IsSpace(a'[0])
    ensures |a'| < |a|
  {
    var i := LeadingSpaces(a);
    var m := WordLength(a[i..]);
    sp, w, a' := a[..i], a[i..][..m], a[i + m..];
    assert i < |a| && 0 < m by { assert a[i..][0] == a[i]; }
    assert a' == [] || IsSpace(a'[0]) by { if a' != [] { assert a'[0] == a[i..][m]; } }
    assert a == sp + (w + a');
  }

  /** Leading whitespace, then a word that ends the text or is followed by whitespace. */
  lemma SplitDecomposed(sp: string, w: string, rest: string)
    requires AllSpace(sp) && |w| > 0 && NoSpace(w)
    requires rest == [] || IsSpace(rest[0])
    ensures Split(sp + (w + rest)) == [w] + Split(rest)
  {
    SplitAfterSpaces(sp, w + rest);
    SplitWordThen(w, rest);
  }

  lemma SplitSpacesThen(a: string, c: char, b: string)
    requires IsSpace(c) && AllSpace(a)
    ensures Split(a + [c] + b) == Split(b)
  {
    assert AllSpace(a + [c]) by {
      forall k | 0 <= k < |a| + 1 ensures IsSpace((a + [c])[k]) {
        if k < |a| { assert (a + [c])[k] == a[k]; }
      }
    }
    SplitAfterSpaces(a + [c], b);
  }

  lemma Regroup(a: string, c: char, b: string, sp: string, w: string, a': string)
    requires a == sp + (w + a')
    ensures a + [c] + b == sp + (w + (a' + [c] + b))
  {
  }

  lemma ConsAssoc(p: seq<string>, q: seq<string>, u: seq<string>, v: seq<string>, r: seq<string>, w: string)
    requires p == [w] + q && u == [w] + v && q == v + r
    ensures p == u + r
  {
  }

  lemma SplitAtSpaceStep(a: string, c: char, b: string, sp: string, w: string, a': string)
    requires IsSpace(c)
    requires a == sp + (w + a') && AllSpace(sp) && |w| > 0 && NoSpace(w)
    requires a' == [] || IsSpace(a'[0])
    requires Split(a' + [c] + b) == Split(a') + Split(b)
    ensures Split(a + [c] + b) == Split(a) + Split(b)
  {
    Regroup(a, c, b, sp, w, a');
    SplitDecomposed(sp, w, a' + [c] + b);
    SplitDecomposed(sp, w, a');
    ConsAssoc(Split(a + [c] + b), Split(a' + [c] + b), Split(a), Split(a'), Split(b), w);
  }

  /** Splitting at a whitespace character splits the words: `(a + " " + b).split() == a.split() + b.split()`. */
  lemma {:induction false} SplitAtSpace(a: string, c: char, b: string)
    requires IsSpace(c)
    ensures Split(a + [c] + b) == Split(a) + Split(b)
    decreases |a|
  {
    if AllSpace(a) {
      SplitSpacesThen(a, c, b);
    } else {
      var sp, w, a' := FirstWord(a);
      SplitAtSpace(a', c, b);
      SplitAtSpaceStep(a, c, b, sp, w, a');
    }
  }
}
