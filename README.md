# Distant reading of Transcendentalist texts, modelled in Dafny

This project models the computational core of a small text-analysis pipeline. The pipeline:

- extracts the literary text from Project Gutenberg files;
- filters and counts word tokens;
- computes whitespace-based text statistics;
- samples sentences for sentiment scoring and labels the mean score;
- compares vocabularies between texts;
- ranks the words that distinguish one text from the others.

Modules, one file each:

- `Wrappers`: `Option` and `Result`.
- `Chars`: Python's whitespace set. ASCII letters and ASCII lower-casing.
- `Whitespace`: `str.strip()` and `str.split()` without arguments, with their characterising lemmas.
- `Extract`: `extract_clean_text` from `extract_texts.py`, an oracle for a literal marker, and the driver's `if clean_text:` test.
- `Ranking`: the stable descending sort behind `Counter.most_common` and `sorted(..., reverse=True)`, and truncation to the first `n`.
- `Tokens`: the token filter of `clean_and_tokenize`, `Counter`, and `build_word_frequency`.
- `Statistics`: the word part of `calculate_text_statistics`.
- `Sentiment`: sampling, averaging and labelling in `analyze_sentiment`. The per-sentence loop is a method.
- `Compare`: `compare_vocabularies` as a method with nested loops over the texts, proved against the table it should produce.
- `Distinctive`: `find_distinctive_words` as a method with nested loops, proved against a functional definition of the scores.

External calls are parameters:

- NLTK's `word_tokenize` and `sent_tokenize` are functions `string -> seq<string>`.
- The English stopword list is a set.
- VADER's `polarity_scores` is a function from a sentence to its four scores.
- For `calculate_text_statistics`, only the sentence count is needed, so that is the parameter.
- Each regular-expression search of `extract_clean_text` is the `Option<Span>` that `re.search` returns.

Some of what the code computes is easy to misread from its names and comments. The model follows what the code does:

- The overlap percentage is divided by the size of the first text's vocabulary, not by the size of the union. It is therefore not symmetric.
- `total_words` counts the whitespace-separated words of the raw text, not the filtered tokens.
- The distinctive score is the integer `count * (n - appears_in)`. The comment at analyze_texts.py:191 calls it "TF-IDF-like", but there is no logarithm.
- Words with equal counts or equal scores appear in the order in which the text first uses them (`Tokens.TiesInFirstSeenOrder`). No alphabetical tie-break is applied.

## Model

| member | source | states |
|---|---|---|
| Chars.LowerChar | analyze_texts.py:67 | an ASCII upper-case letter moves by the fixed distance from `'A'` to `'a'`; every other character is unchanged; a character is a letter after exactly when before, and never upper case after |
| Chars.Lower | analyze_texts.py:67 | lower-casing keeps the length; at each position an ASCII upper-case letter becomes its lower-case partner and any other character is unchanged; no upper-case letter remains |
| Chars.LowerKeepsAlpha | analyze_texts.py:67-76 | a token is alphabetic after lower-casing exactly when it was before, so lower-casing first does not change which tokens pass `isalpha` |
| Whitespace.Strip | extract_texts.py:54 | the result is a contiguous slice of the input with only whitespace cut on either side; it neither starts nor ends with whitespace; it is empty exactly when the input is all whitespace |
| Whitespace.StripBoundsUnique | extract_texts.py:54 | a non-empty stripped slice has exactly one pair of bounds, so the slice-and-trim characterisation determines the result |
| Whitespace.Split | analyze_texts.py:88 | every word of `text.split()` is non-empty and contains no whitespace |
| Whitespace.SplitEmptyIff | analyze_texts.py:88-93 | there are no words exactly when the text is all whitespace (the `if words else 0` case) |
| Whitespace.SplitKeepsNonSpace | analyze_texts.py:88 | concatenating the words gives exactly the text's non-whitespace characters, in order |
| Whitespace.SplitAfterSpaces | analyze_texts.py:88 | leading whitespace does not change the words |
| Whitespace.SplitAtSpace | analyze_texts.py:88 | splitting at any whitespace character: the words of `a + c + b` are the words of `a` followed by those of `b` |
| Extract.ExtractCleanText | extract_texts.py:49-58 | `None` exactly when either match is missing; otherwise the stripped `content[start.end():end.start()]`: trimmed, a slice of the region between the matches with only whitespace cut, no longer than that region, and empty when the end match begins at or before the start match's end |
| Extract.FindFirst | extract_texts.py:49-50 | a literal-marker oracle: the first occurrence of the marker, or `None` exactly when it never occurs |
| Extract.ExtractBetweenMarkers | extract_texts.py:46-58 | with literal markers, the result is `None` exactly when one of the markers never occurs, and is trimmed otherwise |
| Extract.WrittenIsContent | extract_texts.py:75-85 | about `DriverOutcome`: the driver writes a file exactly when both markers match and a non-whitespace character lies between them; the written text is non-empty and begins and ends with non-whitespace; an empty result is a failure |
| Ranking.Take | analyze_texts.py:203 | `s[:n]` is the prefix of length `min(n, len(s))` |
| Ranking.SortDescCorrect | analyze_texts.py:84 | about `SortDesc`: the sort is non-increasing by value, a permutation of its input, and stable: the pairs with any one value appear in their input order |
| Ranking.SortDescKeepsDistinctKeys | analyze_texts.py:84 | sorting does not duplicate keys |
| Ranking.TakeWithValue | analyze_texts.py:84 | truncation keeps, for each value, a prefix of the pairs with that value |
| Ranking.TakeSortedKeepsLargest | analyze_texts.py:203 | a pair lost to truncation of a sorted list has a value no larger than every kept pair, and is lost only when `n` pairs are kept |
| Tokens.FilterTokens | analyze_texts.py:74-77 | with `Keep` as the test: every kept token is alphabetic, at least 3 characters long and not a stopword; a token that qualifies is kept as often as it occurs, one that does not is dropped |
| Tokens.FilterIsSubsequence | analyze_texts.py:74-77 | the kept tokens are the input tokens at strictly increasing positions, and a position is kept exactly when its token qualifies |
| Tokens.CleanAndTokenize | analyze_texts.py:64-79 | every token returned qualifies and is a token of the lower-cased text |
| Tokens.Distinct | analyze_texts.py:83 | the keys of a `Counter`: no duplicates, and the same words as the input |
| Tokens.FirstIndex | analyze_texts.py:83 | the position of a word's first occurrence: in range exactly when the word occurs, holding the word, with no earlier occurrence |
| Tokens.DistinctOrder | analyze_texts.py:83 | the keys of a `Counter` come in the order of their first occurrence in the input |
| Tokens.DistinctSize | analyze_texts.py:83 | a `Counter` has as many keys as the input has distinct tokens |
| Tokens.Counter | analyze_texts.py:83 | as many entries as distinct tokens, with distinct keys; every token of the input appears with its exact count, and nothing else appears; keys come in first-occurrence order |
| Tokens.SortDescTies | analyze_texts.py:84 | sorting a list whose keys are in first-occurrence order leaves pairs with equal values in first-occurrence order |
| Tokens.WordFrequencyTies | analyze_texts.py:84 | in the frequency table, tokens with equal counts appear in the order of their first occurrence |
| Tokens.WordFrequencyCorrect | analyze_texts.py:81-84 | about `BuildWordFrequency`: exactly `min(top_n, distinct tokens)` entries with distinct keys, non-increasing counts, each key a token with its exact positive count; a token left out occurs no more often than any kept and is left out only when `top_n` are kept; for each count the kept tokens are a prefix of the counter's tokens with that count, and tokens with equal counts appear in the order of their first occurrence |
| Statistics.UniqueAlphaWords | analyze_texts.py:92 | no more distinct lower-cased words than words |
| Statistics.UniqueAlphaWordsMembers | analyze_texts.py:92 | the set holds exactly the lower-cased forms of the alphabetic words |
| Statistics.RatioOrZero | analyze_texts.py:93-96 | `a / b if b else 0`: 0 when `b` is 0, otherwise `r * b == a`; never negative; at most 1 when `a <= b` |
| Statistics.CalculateTextStatistics | analyze_texts.py:86-105 | total words is the number of whitespace-separated words, 0 exactly for an all-whitespace text; unique words is at most total words; lexical diversity lies in [0, 1] and is 0 for a text with no words; the average sentence length is words per sentence, 0 without sentences |
| Sentiment.StrideAt | analyze_texts.py:118 | about `Stride`: `s[::step][i]` is `s[i * step]` whenever `i * step` is in range |
| Sentiment.SampleCorrect | analyze_texts.py:115-120 | about `Sample`: up to `sample_size` sentences, all of them once in order; beyond that exactly `sample_size`, the `i`-th being sentence `i * (len // sample_size)` |
| Sentiment.Classify | analyze_texts.py:136-144 | positive exactly when the mean compound is at least 0.05, negative exactly when at most -0.05, neutral exactly in between |
| Sentiment.MeanBounds | analyze_texts.py:130-133 | about `Mean`: a mean of scores in `[lo, hi]` lies in `[lo, hi]` |
| Sentiment.MeansInRange | analyze_texts.py:130-133 | when every sentence's scores are in VADER's ranges, so are the four means |
| Sentiment.AnalyzeSentiment | analyze_texts.py:107-153 | `ZeroDivisionError` exactly when `sample_size` is 0 and there is a sentence; otherwise the number analysed is `min(len(sentences), sample_size)`; with none, all zeros and neutral; else each score is the mean over exactly the sampled sentences and the label is `Classify` of the mean compound; means stay in VADER's ranges |
| Compare.Percentage | analyze_texts.py:171 | `part / whole * 100`: within [0, 100] when `part <= whole`, 0 exactly when `part` or `whole` is 0, 100 exactly when they are equal |
| Compare.OverlapFacts | analyze_texts.py:170-171 | about `OverlapOf`: shared words are symmetric and bounded by both vocabularies; the percentage lies within [0, 100], is 100 exactly when the first vocabulary lies inside the second, and is 0 exactly when nothing is shared |
| Compare.CompareRow | analyze_texts.py:167-176 | the inner loop: fails exactly when the text's vocabulary is empty and another text exists; otherwise the row for every other text |
| Compare.CompareVocabularies | analyze_texts.py:155-177 | `ZeroDivisionError` exactly when some text with an empty vocabulary has another text beside it; otherwise the table has a row per text, one entry per other text, with the overlap of the two vocabularies |
| Compare.ComparisonTableShape | analyze_texts.py:166-173 | about `ComparisonTable`: a row for every text, never an entry for the text itself, and equal shared counts in both directions |
| Compare.PercentageIsDirectional | analyze_texts.py:171 | the percentage is over the first text's vocabulary: `{whale, sea}` against `{whale}` gives 50, the reverse 100 |
| Compare.EmptyTextRaises | analyze_texts.py:171 | a text with no tokens next to any other text makes the comparison raise |
| Compare.ComparisonTableBounds | analyze_texts.py:171 | about `ComparisonTable`: with the division guarded, every percentage in the table lies within [0, 100] and every shared count is at most the first vocabulary's size |
| Distinctive.Score | analyze_texts.py:200 | the score of a word missing from some other text is at least `2 * count` and at most `count * n` |
| Distinctive.ScoreWords | analyze_texts.py:193-200 | the inner loop builds exactly the scores of the words that some other text lacks, in counter order |
| Distinctive.FindDistinctiveWords | analyze_texts.py:179-206 | one list per text, each the sorted, truncated scores of that text |
| Distinctive.ScoresEntries | analyze_texts.py:193-200 | about `Scores`: every scored word is a word of the text, is missing from some other text, and carries `count * (n - appears_in)` |
| Distinctive.ScoresComplete | analyze_texts.py:193-200 | about `Scores`: every word of the text that some other text lacks is scored |
| Distinctive.EligibleMeans | analyze_texts.py:195-199 | about `Eligible` and `AppearsIn`: `appears_in < n - 1` holds exactly when some other text does not contain the word |
| Distinctive.SingleTextHasNone | analyze_texts.py:199 | with a single text the list is empty |
| Distinctive.ScoresOrdered | analyze_texts.py:192-200 | the scores list keeps the order of the counter it is built from |
| Distinctive.DistinctiveTies | analyze_texts.py:193-203 | in a text's list, words with equal scores appear in the order in which the text first uses them |
| Distinctive.DistinctiveCorrect | analyze_texts.py:179-206 | about `DistinctiveOf`: at most `top_n` distinct words, non-increasing by score; each word occurs in the text, is missing from some other text, and carries its exact score; a scorable word left out scores no more than any kept and is left out only when `top_n` are kept; for each score the kept words are a prefix of the scores list's words with that score, and words with equal scores appear in the order in which the text first uses them |

## Left out

- File and console I/O: reading, writing and JSON export, the `main` functions of both scripts, `load_text`, and the `except Exception` paths. These are input and output.
- `word_tokenize`, `sent_tokenize` and the NLTK stopword corpus are parameters. They are foreign library calls.
- VADER's `polarity_scores` is a parameter. It is a foreign call.
- The regular-expression semantics of the Gutenberg marker patterns (`.+`, `THIS|THE`, `re.IGNORECASE`) are an oracle. `FindFirst` gives an oracle for a literal marker.
- Unicode `str.isalpha` and `str.lower`: the model is restricted to ASCII, to avoid the Unicode database.
- Negative `top_n` and negative `sample_size`: both are `nat`, because Python's negative slicing is outside what the pipeline uses.
- Sentiment.AnalyzeSentiment: means are exact reals, so floating-point summation and `round(..., 4)` are not modelled.
- Statistics.CalculateTextStatistics: diversity and average are exact reals, with no `round(..., 4)` or `round(..., 2)`.
- Compare.OverlapOf: the percentage is exact, with no `round(..., 2)`. With rounding, `OverlapFacts`' "0 exactly when nothing is shared" and "100 exactly when the first vocabulary lies inside the second" would no longer hold: one shared word out of a first vocabulary of more than 20,000 words gives less than 0.005 and rounds to 0.0, and a first vocabulary of 100,000 words of which all but one are shared gives 99.999 and rounds to 100.0.
- Compare.CompareVocabularies: a `Failure` names some text with an empty vocabulary. It is not necessarily the first such text in dictionary order, because texts are a `map` and have no insertion order.
- Compare.CompareVocabularies and Distinctive.FindDistinctiveWords: the results are maps, so Python's dictionary key order is not modelled. Every value is modelled.
- Distinctive.FindDistinctiveWords: each entry is a `(word, score)` pair, not a `{'word': ..., 'score': ...}` dictionary.
- The pipeline that collects `results` and `all_tokens` across texts is I/O orchestration around the modelled functions.

## Findings

| source | as written | input that shows it | evidently intended | confidence | as-written member | corrected member |
|---|---|---|---|---|---|---|
| analyze_texts.py:171 | `len(overlap) / len(unique_words[text_id]) * 100` divides by the first text's vocabulary size with no guard | two texts, one with no kept tokens (`{"empty": [], "other": ["whale"]}`): the first comparison from `"empty"` raises `ZeroDivisionError`, aborting the whole comparison | a ratio with an empty denominator is 0, as the pipeline's other ratios are (`if words else 0`, line 93) | not executed; reachable only when a text yields no kept tokens | Compare.EmptyTextRaises | Compare.ComparisonTableBounds |

`Compare.CompareVocabularies` models the code as written: it fails exactly on such inputs, and `Compare.EmptyTextRaises` shows one. `Compare.ComparisonTable` is the guarded table, built with `Compare.OverlapOf`, which gives 0 for an empty vocabulary. It agrees with every table the method returns, and `Compare.ComparisonTableBounds` proves its percentages lie within [0, 100].
