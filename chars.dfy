/**
 Character classes used by the pipeline.

 `IsSpace` is the full set of code points Python's `str.isspace` accepts,
 which is also the set `str.split()` and `str.strip()` (without arguments)
 treat as whitespace. `IsLetter` and `Lower` are restricted to ASCII: non-ASCII
 letters are not letters here, and `Lower` leaves non-ASCII characters alone.
 */
module Chars {

  predicate IsSpace(c: char) {
    || ('\t' <= c <= '\r')                     // tab, line feed, vertical tab, form feed, carriage return
    || ('\U{1C}' <= c <= '\U{1F}')             // file, group, record and unit separators
    || c == ' ' || c == '\U{85}' || c == '\U{A0}' || c == '\U{1680}'
    || ('\U{2000}' <= c <= '\U{200A}')         // en quad .. hair space
    || c == '\U{2028}' || c == '\U{2029}' || c == '\U{202F}' || c == '\U{205F}' || c == '\U{3000}'
  }

  predicate IsLetter(c: char) {
    ('a' <= c <= 'z') || ('A' <= c <= 'Z')
  }

  /** Python's `str.isalpha`: non-empty and made only of letters. */
  predicate IsAlpha(s: string) {
    |s| > 0 && forall i :: 0 <= i < |s| ==> IsLetter(s[i])
  }

  /** An upper-case ASCII letter moves to its lower-case partner; every other character stays. */
  function LowerChar(c: char): (r: char)
    ensures 'A' <= c <= 'Z' ==> r as int == c as int + ('a' as int - 'A' as int)
    ensures !('A' <= c <= 'Z') ==> r == c
    ensures IsLetter(r) <==> IsLetter(c)
    ensures !('A' <= r <= 'Z')
  {
    if 'A' <= c <= 'Z' then (c as int - 'A' as int + 'a' as int) as char else c
  }

  /** Python's `str.lower`, on ASCII. */
  function Lower(s: string): (r: string)
    ensures |r| == |s|
    ensures forall i :: 0 <= i < |s| && 'A' <= s[i] <= 'Z' ==> r[i] as int == s[i] as int + ('a' as int - 'A' as int)
    ensures forall i :: 0 <= i < |s| && !('A' <= s[i] <= 'Z') ==> r[i] == s[i]
    ensures forall i :: 0 <= i < |s| ==> !('A' <= r[i] <= 'Z')
  {
    seq(|s|, i requires 0 <= i < |s| => LowerChar(s[i]))
  }

  lemma {:induction false} LowerKeepsAlpha(s: string)
    ensures IsAlpha(Lower(s)) <==> IsAlpha(s)
  {
    if IsAlpha(s) {
      forall i | 0 <= i < |s| ensures IsLetter(Lower(s)[i]) {
        assert Lower(s)[i] == LowerChar(s[i]);
      }
    }
    if IsAlpha(Lower(s)) {
      forall i | 0 <= i < |s| ensures IsLetter(s[i]) {
        assert IsLetter(Lower(s)[i]);
      }
    }
  }
}
