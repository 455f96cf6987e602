# Text analysis of a literary text: the token layer

The script `ex03/ex03_code.py` tokenises and part-of-speech tags a play and then answers
several questions about it. The steps are:

- filter the tokens down to lower-cased alphabetic words;
- count them, with and without stop words (parts b to d);
- extract adjective+noun phrases such as "fair lady" (part e);
- find homographs, meaning words the tagger gave two or more different tags (part g);
- collect the proper nouns (part h).

This project models that token layer in Dafny, in five modules:

- `AsciiText` (`text.dfy`) models the Python string primitives the script uses on ASCII text:
  `str.isalpha`, `str.lower`, `str.startswith` and `' '.join`.
  - It also defines `str.split(' ')`. The script never calls `split`; it is here only as the
    inverse of `Join`, so that `SplitJoin` can show a joined phrase determines its words.
- `Tokens` (`tokens.dfy`) holds the pure list comprehensions:
  - filter_tokens and remove_stopwords, each specified against the reference `Positions`
    (the indices of the kept elements);
  - count_frequencies, as a `map<string, nat>` (Python's `Counter`);
  - the proper-noun selection of part (h).
- `AdjNoun` (`phrases.dfy`) models extract_adj_noun_phrases as a method with a `for` loop.
  - The loop carries the same pending `phrase` state as the source.
  - The method is proved equal to a declarative reference: one phrase per kept noun that
    directly follows a kept adjective, made of the maximal adjective run before that noun
    and the noun itself.
- `Homographs` (`homographs.dfy`) models find_homographs as a method.
  - Its loop folds the pairs into a dictionary from lower-cased word to set of tags.
  - A second loop keeps the entries with more than one tag.
  - The results are specified by `TagsOf`, the set of tags seen with a word.
- `Ranking` (`ranking.dfy`) models the selections that `main` writes out:
  - `Counter.most_common(20)`;
  - the homographs sorted by decreasing number of tags.

  Both rest on a stable sort by decreasing weight, which is proved to be a permutation and stable.

The inputs are what the NLTK library calls would produce:

- a sequence of token strings;
- a sequence of (word, tag) pairs (`Tokens.TaggedWord`);
- the stop-word set, passed as a parameter.

Python dictionaries iterate in insertion order.

- `Tokens.FirstOccurrences` models that order where a result's order matters: the key order of
  `Counter` and of the homograph dictionary.
- Ties in `most_common` and in the homograph ranking are broken by it. Python's sort and
  `heapq.nlargest` are stable.

## Model

| member | source | states |
|---|---|---|
| AsciiText.IsAlpha | ex03/ex03_code.py:28 | the defining model of str.isalpha on ASCII (also used at lines 65 and 85): non-empty and all letters |
| AsciiText.Lower | ex03/ex03_code.py:28 | the defining model of str.lower on ASCII (also used at lines 49, 65 and 84): each upper-case letter becomes its lower-case letter |
| AsciiText.StartsWith | ex03/ex03_code.py:67-69 | the defining model of str.startswith, used for the JJ and NN tag tests |
| AsciiText.Join | ex03/ex03_code.py:72 | the defining model of ' '.join: the words separated by single spaces |
| Tokens.FilterTokens | ex03/ex03_code.py:27-28 | never longer than the input; every result token is alphabetic and contains no upper-case letter |
| Tokens.FilterTokensExact | ex03/ex03_code.py:27-28 | the k-th result is the lower-cased k-th alphabetic input token, and there is one result per alphabetic token: exactly the alphabetic tokens, in order |
| Tokens.FilterTokensIdempotent | ex03/ex03_code.py:27-28 | filtering an already filtered list returns it unchanged |
| Tokens.FilteredTokenOrigin | ex03/ex03_code.py:27-28 | every filtered token is the lower-cased form of some alphabetic input token |
| AsciiText.LowerIsLowerCase | ex03/ex03_code.py:28 | lower() keeps the length and leaves no upper-case letter |
| AsciiText.LowerKeepsAlpha | ex03/ex03_code.py:28 | lower-casing preserves isalpha in both directions |
| AsciiText.LowerFixedPoints | ex03/ex03_code.py:28 | a string equals its lower-case form iff it has no upper-case letter; lower() is idempotent |
| Tokens.Select | ex03/ex03_code.py:49 | the defining model of a filtering list comprehension: never longer than its input, and every element kept satisfies the filter |
| Tokens.NotStopWord | ex03/ex03_code.py:49 | the defining model of the test token.lower() not in stop_words |
| Tokens.RemoveStopwords | ex03/ex03_code.py:47-49 | never longer than the input; no kept token lower-cases to a stop word |
| Tokens.RemoveStopwordsCounts | ex03/ex03_code.py:47-49 | every occurrence of a token whose lower-case form is a stop word is dropped, and every occurrence of any other token is kept |
| Tokens.RemoveStopwordsExact | ex03/ex03_code.py:47-49 | the result is the order-preserving subsequence at exactly the positions whose tokens are not stop words |
| Tokens.Frequencies | ex03/ex03_code.py:31-32 | the keys are exactly the distinct tokens, and each count equals the token's number of occurrences |
| Tokens.FrequenciesTotal | ex03/ex03_code.py:31-32 | the counts add up to the number of tokens |
| Tokens.FirstOccurrences | ex03/ex03_code.py:86-87 | the dictionary's key order: it holds exactly the values of the input, each once |
| Tokens.FirstIndex | ex03/ex03_code.py:86-87 | the index of the first occurrence of a value: it holds the value and no earlier index does |
| Tokens.FirstOccurrencesOrder | ex03/ex03_code.py:86-87 | the key order is first-occurrence order: a key listed earlier first occurs earlier in the input |
| Tokens.KeptTokenWasFiltered | ex03/ex03_code.py:129 | a token left after filtering and stop-word removal is a filtered token that is not a stop word |
| Tokens.PipelineKeys | ex03/ex03_code.py:120-130 | every token counted in part (c) is a filtered token that is lower-case, alphabetic and not a stop word |
| Tokens.ProperNouns | ex03/ex03_code.py:158 | never more proper nouns than tagged words |
| Tokens.IsProperNounTag | ex03/ex03_code.py:158 | the defining model of the test pos in ['NNP', 'NNPS'] |
| Tokens.ProperNounsExact | ex03/ex03_code.py:158 | the proper nouns are the words at exactly the positions tagged NNP or NNPS, in order |
| AdjNoun.KeptWord | ex03/ex03_code.py:65 | the defining model of the test word.isalpha() and word.lower() not in the five excluded words (the constant AdjNoun.Excluded: s, second, servant, first, third) |
| AdjNoun.IsAdjective | ex03/ex03_code.py:67 | the defining model of the branch test at this line: a kept word whose tag starts with JJ |
| AdjNoun.IsNoun | ex03/ex03_code.py:69 | the defining model of the tag test at this line, reached only when the JJ test has failed: a kept word whose tag starts with NN but not JJ |
| AdjNoun.RunStart | ex03/ex03_code.py:67-68 | the pending adjective run starts at the input's start or just after a pair that is not a kept adjective |
| AdjNoun.RunIsAdjectives | ex03/ex03_code.py:67-68 | every pair of the pending run is a kept JJ-tagged word |
| AdjNoun.ClosingPositions | ex03/ex03_code.py:69-73 | the positions where a phrase is emitted: increasing, each a kept noun right after a kept adjective, and every such position is listed |
| AdjNoun.PhrasesBeforeStep | ex03/ex03_code.py:64-77 | one more pair adds at most the phrase that ends at it |
| AdjNoun.ExtendRun | ex03/ex03_code.py:67-68 | a kept JJ word is appended to the pending phrase and emits nothing |
| AdjNoun.ClosePhrase | ex03/ex03_code.py:69-73 | a kept NN word after a non-empty run emits the run plus the noun and empties the pending phrase |
| AdjNoun.ResetRun | ex03/ex03_code.py:74-77 | a non-alphabetic or excluded word, a noun with no pending adjective, or any other tag empties the pending phrase and emits nothing |
| AdjNoun.JoinAll | ex03/ex03_code.py:72 | one joined string per phrase |
| AdjNoun.JoinAllAppend | ex03/ex03_code.py:72 | joining is done phrase by phrase, so appending a phrase appends its joined string |
| AdjNoun.ExtractAdjNounPhrases | ex03/ex03_code.py:61-78 | the scan returns exactly the declarative phrases, each joined by single spaces, in input order |
| AsciiText.Split | ex03/ex03_code.py:72 | str.split(' '), not called by the script: the inverse partner of the join at this line; it always gives at least one piece |
| AsciiText.SplitJoin | ex03/ex03_code.py:72 | splitting a space-separated join of space-free words returns the words |
| AdjNoun.JoinedPhrasesSplit | ex03/ex03_code.py:65-73 | each emitted string splits back into its phrase, which has at least two words |
| AdjNoun.PhraseAtWords | ex03/ex03_code.py:65-73 | the phrase ending at a closing noun has at least two words, all alphabetic and not excluded |
| AdjNoun.PhraseWords | ex03/ex03_code.py:65-73 | every phrase has at least two words; every word is alphabetic, not an excluded word in any case, and free of spaces |
| AdjNoun.PhraseIsSpan | ex03/ex03_code.py:67-73 | every phrase is a maximal run of one or more consecutive kept JJ words from the input, immediately followed by exactly one kept NN word |
| AdjNoun.EveryClosingNounEmits | ex03/ex03_code.py:69-73 | a kept noun right after a kept adjective always ends an emitted phrase |
| AdjNoun.PhrasesInOrder | ex03/ex03_code.py:61-78 | phrases come out in input order and do not overlap: a later phrase starts after the noun that ends an earlier one |
| AdjNoun.ClosingPositionsBound | ex03/ex03_code.py:69-73 | among the first n pairs, there are no more emission points than NN-tagged words |
| AdjNoun.PhraseCountBound | ex03/ex03_code.py:61-78 | there are never more phrases than NN-tagged words; in particular an empty input yields none |
| Homographs.Eligible | ex03/ex03_code.py:85 | the defining model of the test word_lower.isalpha() and word_lower (an alphabetic string is non-empty) |
| Homographs.PosDict | ex03/ex03_code.py:82-88 | the defining model of pos_dict after the first n pairs: each lower-cased alphabetic word mapped to the set of tags seen with it |
| Homographs.KeyOrder | ex03/ex03_code.py:86-87 | the defining model of pos_dict's insertion order after the first n pairs: a word is appended when first inserted |
| Homographs.HomographOrder | ex03/ex03_code.py:89 | the defining model of the key order of the dictionary built at this line: the insertion order restricted to the entries with more than one tag |
| Homographs.HomographItems | ex03/ex03_code.py:153 | the defining model of homographs.items() weighted by len(item[1]), in the dictionary's key order |
| Homographs.TagsSeenStep | ex03/ex03_code.py:83-88 | one more pair adds its tag to the tag set of its lower-cased word exactly when that word is alphabetic |
| Homographs.SetToList | ex03/ex03_code.py:89 | list(set): the set's elements, each exactly once |
| Homographs.EligibleKeysMembers | ex03/ex03_code.py:83-87 | a word is among the recorded lower-cased words iff some tag was seen with it |
| Homographs.PosDictMeaning | ex03/ex03_code.py:82-88 | after n pairs, the dictionary holds exactly the words seen, each mapped to exactly the tags seen with it |
| Homographs.KeyOrderIsFirstOccurrences | ex03/ex03_code.py:86-87 | the dictionary's insertion order is the first-occurrence order of the recorded words |
| Homographs.DictHasKey | ex03/ex03_code.py:86-87 | a word is a dictionary key exactly when it is in the insertion order |
| Homographs.FindHomographs | ex03/ex03_code.py:81-89 | a word is a key iff it was seen with at least two distinct tags; its list holds exactly those tags, without duplicates; the keys are produced in dictionary order, and that order lists each key exactly once and nothing else |
| Homographs.HomographOrderExact | ex03/ex03_code.py:89 | the result's key order lists every homograph exactly once and nothing else |
| Homographs.PosDictKeys | ex03/ex03_code.py:82-89 | the finished dictionary and its insertion order hold the same words |
| Homographs.KeepMultiTagged | ex03/ex03_code.py:89 | the closing comprehension keeps exactly the entries with more than one tag, lists each tag set exactly, and keeps dictionary order |
| Homographs.TagsOfMembers | ex03/ex03_code.py:84-88 | a tag is recorded for w iff w is alphabetic and some pair whose word lower-cases to w carries that tag |
| Homographs.KeysAreLowerAlpha | ex03/ex03_code.py:84-87 | every key is alphabetic and lower-case, and is its own lower-case form |
| Homographs.CaseVariantsMerge | ex03/ex03_code.py:84-88 | the tags of a key are the union of the tags of all its alphabetic spellings in any case |
| Homographs.TwoTagsSuffice | ex03/ex03_code.py:85-89 | two occurrences of a word with different tags make it a key |
| Homographs.HomographIff | ex03/ex03_code.py:81-89 | a word is a key iff two of its occurrences, in any case, carry different tags |
| Homographs.HomographItemsExact | ex03/ex03_code.py:152-153 | the ranked items are exactly the homographs, each with its true number of tags |
| Homographs.ReportHomographs | ex03/ex03_code.py:152-155 | answer_g.txt holds the last ten entries of the stable descending sort by number of tags (min(10, #homographs) of them), each a homograph with its true tag count; no homograph left out has fewer tags than one reported |
| Homographs.ReportedAreLightest | ex03/ex03_code.py:153-155 | the same facts about the reported entries, stated on the reference |
| Ranking.OfWeightAppend | ex03/ex03_code.py:153 | the entries of one weight in a concatenation are those of each part, in order |
| Ranking.Insert | ex03/ex03_code.py:153 | inserting into a descending list adds one entry and keeps the list sorted in descending order |
| Ranking.InsertPermutes | ex03/ex03_code.py:153 | insertion adds exactly the new entry |
| Ranking.InsertOfWeight | ex03/ex03_code.py:153 | the inserted entry goes after every entry of its own weight, and no other weight class changes |
| Ranking.NoneOfWeight | ex03/ex03_code.py:153 | a list whose entries are all lighter than c has no entry of weight c |
| Ranking.SortDesc | ex03/ex03_code.py:153 | sorted(..., reverse=True) keeps the length and is sorted in descending order |
| Ranking.SortDescPermutes | ex03/ex03_code.py:153 | the sort is a permutation of its input |
| Ranking.SortDescStable | ex03/ex03_code.py:153 | the sort is stable: entries of equal weight keep their input order |
| Ranking.Take | ex03/ex03_code.py:154 | the defining model of s[:n]: min(n, len(s)) entries |
| Ranking.TakeLast | ex03/ex03_code.py:155 | the defining model of s[-n:], required to have n > 0 (Python's s[-0:] is the whole list): min(n, len(s)) entries |
| Ranking.SortedCut | ex03/ex03_code.py:154-155 | in a descending list, everything before a cut weighs at least as much as everything after it |
| Ranking.TakeHeaviest | ex03/ex03_code.py:154 | a prefix of the sorted list has min(n, length) entries, is a sub-multiset of the input, and nothing left out outweighs anything kept |
| Ranking.TakeLastLightest | ex03/ex03_code.py:155 | a suffix of the sorted list has min(n, length) entries, is a sub-multiset of the input, and nothing left out is lighter than anything kept |
| Ranking.CounterItems | ex03/ex03_code.py:126 | Counter.items() has one item per distinct token |
| Ranking.CounterItemsExact | ex03/ex03_code.py:126 | every item is a token with its true count, and every token has its item |
| Ranking.MostCommon | ex03/ex03_code.py:126 | the defining model of Counter.most_common(n) (also used at lines 134, 141 and 149): the first n of the stable descending sort of the items; the result is sorted from the most common to the least |
| Ranking.HomographsReported | ex03/ex03_code.py:155 | the defining model of sorted_homographs[-10:]: the last ten of the stable descending sort; the result is sorted by decreasing number of tags |
| Ranking.MostCommonTop | ex03/ex03_code.py:125-126 | most_common(n) lists min(n, #distinct tokens) entries, from the most common to the least, each a token with its true count, and no token left out occurs more often than one listed; the same selection is used at lines 134, 141 and 149 |

## Left out

- Library calls. `nltk.download`, `word_tokenize`, `nltk.pos_tag`, `PorterStemmer` and `stopwords.words('english')` are NLTK library calls. The model takes their outputs as inputs (token strings, (word, tag) pairs, a stop-word set). Stemming (part d) is therefore not modelled. Only the counting of its output, `Tokens.Frequencies`, is.
- ASCII only. `str.isalpha` and `str.lower` are modelled on ASCII letters. Python's versions are Unicode-aware: accented letters count as alphabetic and have case mappings, which this model does not capture.
- `find_repeated_words` is not modelled. It depends on Python's regular-expression semantics: Unicode `\w`, word boundaries, a case-insensitive back-reference and non-overlapping `findall`. Its output order also comes from a set.
- Homographs.SetToList: does not fix the order of the tags inside each homograph list. `list(pos)` iterates a Python set, and that order is unspecified. The contract states only that the list holds each tag of the set exactly once.
- Homographs.FindHomographs: the order of the tags inside each list is left unspecified, for the same reason. The order of the keys is modelled.
- Homographs.ReportHomographs: the tag lists written to answer_g.txt are represented by their lengths, since their order is unspecified.
- answer_g.txt is written twice, once with the first ten sorted homographs and once with the last ten. The second write replaces the first, so only the last ten are modelled. Writing the first ten is the same selection as `Ranking.TakeHeaviest`.
- Plotting (`plot_frequencies`, `create_tag_cloud`) is not modelled: it uses log-scale floats, matplotlib and WordCloud.
- File handling (`load_text`, `save_results_to_file`, directory creation and the formatting of output lines) is not modelled: it is I/O.
- In extract_adj_noun_phrases, the test `len(phrase) > 1` is always true. It runs right after a noun has been appended to a non-empty phrase. The method keeps the test as written, and states before it that it holds.
- The ex02 scripts (random data generation, clustering, plotting) are outside this model, and so are the Final Project scripts.
