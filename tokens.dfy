/** The token layer of the text analysis: filtering the tokenizer's output,
    removing stop words, and counting occurrences (Python's Counter). */
module Tokens {
  import opened AsciiText

  /** One (word, tag) pair produced by the part-of-speech tagger. */
  datatype TaggedWord = TaggedWord(word: string, tag: string)

  /** The indices of the elements of s that satisfy keep, in increasing order:
      the reference for every order-preserving filter below. */
  function Positions<T>(s: seq<T>, keep: T -> bool): (p: seq<nat>)
    ensures forall k :: 0 <= k < |p| ==> p[k] < |s| && keep(s[p[k]])
    ensures forall k, l :: 0 <= k < l < |p| ==> p[k] < p[l]
    ensures forall j :: 0 <= j < |s| && keep(s[j]) ==> j in p
  {
    if |s| == 0 then []
    else
      var i := |s| - 1;
      Positions(s[..i], keep) + (if keep(s[i]) then [i] else [])
  }

  lemma PositionsOfPrefix<T>(s: seq<T>, keep: T -> bool)
    requires |s| > 0
    ensures Positions(s, keep) ==
            Positions(s[..|s| - 1], keep) + (if keep(s[|s| - 1]) then [|s| - 1] else [])
  {
  }

  /** filter_tokens: the alphabetic tokens, lower-cased. */
  function FilterTokens(tokens: seq<string>): (r: seq<string>)
    ensures |r| <= |tokens|
    ensures forall k :: 0 <= k < |r| ==> IsAlpha(r[k]) && IsLowerCase(r[k])
  {
    if |tokens| == 0 then []
    else
      var i := |tokens| - 1;
      FilterTokens(tokens[..i]) +
        (if IsAlpha(tokens[i]) then (LowerKeepsAlpha(tokens[i]); LowerIsLowerCase(tokens[i]); [Lower(tokens[i])]) else [])
  }

  /** FilterTokens keeps exactly the alphabetic tokens, in their order, and lower-cases each. */
  lemma {:induction false} FilterTokensExact(tokens: seq<string>)
    ensures |FilterTokens(tokens)| == |Positions(tokens, IsAlpha)|
    ensures forall k :: 0 <= k < |FilterTokens(tokens)| ==>
              FilterTokens(tokens)[k] == Lower(tokens[Positions(tokens, IsAlpha)[k]])
  {
    if |tokens| > 0 {
      var i := |tokens| - 1;
      FilterTokensExact(tokens[..i]);
      PositionsOfPrefix(tokens, IsAlpha);
      forall j | 0 <= j < |Positions(tokens[..i], IsAlpha)|
        ensures tokens[..i][Positions(tokens[..i], IsAlpha)[j]] == tokens[Positions(tokens[..i], IsAlpha)[j]]
      {
      }
    }
  }

  /** Filtering an already filtered list changes nothing. */
  lemma {:induction false} FilterTokensIdempotent(tokens: seq<string>)
    ensures FilterTokens(FilterTokens(tokens)) == FilterTokens(tokens)
  {
    if |tokens| > 0 {
      var i := |tokens| - 1;
      var front := FilterTokens(tokens[..i]);
      FilterTokensIdempotent(tokens[..i]);
      if IsAlpha(tokens[i]) {
        var x := Lower(tokens[i]);
        var f := front + [x];
        assert FilterTokens(tokens) == f;
        assert f[..|f| - 1] == front;
        LowerKeepsAlpha(tokens[i]);
        LowerFixedPoints(tokens[i]);
        assert FilterTokens(f) == FilterTokens(front) + [Lower(x)];
      } else {
        assert FilterTokens(tokens) == front;
      }
    }
  }

  /** The elements of s that satisfy keep, in their order: a Python list comprehension with a filter. */
  function Select<T>(s: seq<T>, keep: T -> bool): (r: seq<T>)
    ensures |r| <= |s|
    ensures forall k :: 0 <= k < |r| ==> keep(r[k])
  {
    if |s| == 0 then []
    else
      var i := |s| - 1;
      Select(s[..i], keep) + (if keep(s[i]) then [s[i]] else [])
  }

  /** Select keeps every occurrence of a kept value and no occurrence of any other. */
  lemma {:induction false} SelectCounts<T>(s: seq<T>, keep: T -> bool, x: T)
    ensures multiset(Select(s, keep))[x] == if keep(x) then multiset(s)[x] else 0
  {
    if |s| > 0 {
      var i := |s| - 1;
      assert s == s[..i] + [s[i]];
      SelectCounts(s[..i], keep, x);
    }
  }

  /** Select is the subsequence of s at the positions of the kept elements. */
  lemma {:induction false} SelectExact<T>(s: seq<T>, keep: T -> bool)
    ensures |Select(s, keep)| == |Positions(s, keep)|
    ensures forall k :: 0 <= k < |Select(s, keep)| ==> Select(s, keep)[k] == s[Positions(s, keep)[k]]
  {
    if |s| > 0 {
      var i := |s| - 1;
      SelectExact(s[..i], keep);
      PositionsOfPrefix(s, keep);
      var p := Positions(s[..i], keep);
      forall j | 0 <= j < |p| ensures s[..i][p[j]] == s[p[j]] {
      }
    }
  }

  lemma SelectMembers<T>(s: seq<T>, keep: T -> bool, x: T)
    ensures x in Select(s, keep) <==> x in s && keep(x)
  {
    SelectCounts(s, keep, x);
    assert x in Select(s, keep) <==> x in multiset(Select(s, keep));
    assert x in s <==> x in multiset(s);
  }

  lemma SelectOfPrefix<T>(s: seq<T>, keep: T -> bool, n: nat)
    requires n < |s|
    ensures Select(s[..n + 1], keep) == Select(s[..n], keep) + (if keep(s[n]) then [s[n]] else [])
  {
    assert s[..n + 1][..n] == s[..n];
  }

  /** The keep-predicate of remove_stopwords. */
  function NotStopWord(stop: set<string>): string -> bool {
    t => Lower(t) !in stop
  }

  /** remove_stopwords, with the stop-word set as a parameter:
      the tokens whose lower-case form is not a stop word, in their order. */
  function RemoveStopwords(tokens: seq<string>, stop: set<string>): (r: seq<string>)
    ensures |r| <= |tokens|
    ensures forall k :: 0 <= k < |r| ==> Lower(r[k]) !in stop
  {
    Select(tokens, NotStopWord(stop))
  }

  /** RemoveStopwords drops every occurrence of a stop word and keeps every occurrence of any other token. */
  lemma RemoveStopwordsCounts(tokens: seq<string>, stop: set<string>, x: string)
    ensures multiset(RemoveStopwords(tokens, stop))[x] == if Lower(x) in stop then 0 else multiset(tokens)[x]
  {
    SelectCounts(tokens, NotStopWord(stop), x);
  }

  /** RemoveStopwords is the order-preserving subsequence at the positions of non-stop words. */
  lemma RemoveStopwordsExact(tokens: seq<string>, stop: set<string>)
    ensures |RemoveStopwords(tokens, stop)| == |Positions(tokens, NotStopWord(stop))|
    ensures forall k :: 0 <= k < |RemoveStopwords(tokens, stop)| ==>
              RemoveStopwords(tokens, stop)[k] == tokens[Positions(tokens, NotStopWord(stop))[k]]
    ensures forall j :: 0 <= j < |tokens| && Lower(tokens[j]) !in stop ==>
              j in Positions(tokens, NotStopWord(stop))
  {
    SelectExact(tokens, NotStopWord(stop));
  }

  /** count_frequencies: Counter(tokens), a map from each distinct token to its number of occurrences. */
  function Frequencies(tokens: seq<string>): (m: map<string, nat>)
    ensures forall w :: w in m <==> w in tokens
    ensures forall w :: w in m ==> m[w] == multiset(tokens)[w]
  {
    if |tokens| == 0 then map[]
    else
      var i := |tokens| - 1;
      var m := Frequencies(tokens[..i]);
      assert tokens == tokens[..i] + [tokens[i]];
      m[tokens[i] := (if tokens[i] in m then m[tokens[i]] else 0) + 1]
  }

  /** The values of s in the order of their first occurrence, each once: the iteration
      order of a Python dict (or Counter) whose keys were inserted in the order of s. */
  function FirstOccurrences(s: seq<string>): (d: seq<string>)
    ensures forall w :: w in d <==> w in s
    ensures forall i, j :: 0 <= i < j < |d| ==> d[i] != d[j]
  {
    if |s| == 0 then []
    else
      var i := |s| - 1;
      var d := FirstOccurrences(s[..i]);
      assert s == s[..i] + [s[i]];
      if s[i] in d then d else d + [s[i]]
  }

  /** One more element is appended exactly when it is new. */
  lemma FirstOccurrencesSnoc(s: seq<string>, x: string)
    ensures FirstOccurrences(s + [x]) ==
              if x in FirstOccurrences(s) then FirstOccurrences(s) else FirstOccurrences(s) + [x]
  {
    assert (s + [x])[..|s|] == s;
  }

  /** The index of the first occurrence of x in s. */
  function FirstIndex(s: seq<string>, x: string): (i: nat)
    requires x in s
    ensures i < |s| && s[i] == x
    ensures forall k :: 0 <= k < i ==> s[k] != x
  {
    if s[0] == x then 0 else 1 + FirstIndex(s[1..], x)
  }

  /** A value already present before the last element keeps its first index. */
  lemma FirstIndexOfPrefix(s: seq<string>, y: string)
    requires |s| > 0 && y in s[..|s| - 1]
    ensures FirstIndex(s, y) == FirstIndex(s[..|s| - 1], y)
  {
    var s' := s[..|s| - 1];
    var a, b := FirstIndex(s, y), FirstIndex(s', y);
    assert s[b] == s'[b] == y;
    assert a < |s'| ==> s'[a] == s[a];
  }

  /** FirstOccurrences lists the distinct values in the order of their first occurrences:
      a value listed earlier first occurs earlier. */
  lemma {:induction false} FirstOccurrencesOrder(s: seq<string>)
    ensures forall i, j :: 0 <= i < j < |FirstOccurrences(s)| ==>
              FirstIndex(s, FirstOccurrences(s)[i]) < FirstIndex(s, FirstOccurrences(s)[j])
  {
    if |s| > 0 {
      var n := |s| - 1;
      var s' := s[..n];
      var d' := FirstOccurrences(s');
      var d := FirstOccurrences(s);
      FirstOccurrencesOrder(s');
      forall k | 0 <= k < |d'| ensures FirstIndex(s, d'[k]) == FirstIndex(s', d'[k]) {
        FirstIndexOfPrefix(s, d'[k]);
      }
      if s[n] in d' {
        assert d == d';
      } else {
        assert d == d' + [s[n]];
        assert s[n] !in s';
        assert FirstIndex(s, s[n]) == n;
      }
    }
  }

  /** The sum of the counts of a map. */
  ghost function Total(m: map<string, nat>): nat
    decreases |m|
  {
    if m == map[] then 0
    else
      var k :| k in m;
      m[k] + Total(m - {k})
  }

  lemma {:induction false} TotalRemove(m: map<string, nat>, k: string)
    requires k in m
    ensures Total(m) == m[k] + Total(m - {k})
    decreases |m|
  {
    var j :| j in m && Total(m) == m[j] + Total(m - {j});
    if j != k {
      var mj := m - {j};
      var mk := m - {k};
      assert k in mj && j in mk;
      TotalRemove(mj, k);
      TotalRemove(mk, j);
      assert mj - {k} == mk - {j};
    }
  }

  /** Setting one key of a map changes its total by the difference of the old and new count. */
  lemma TotalUpdate(m: map<string, nat>, x: string, v: nat)
    ensures Total(m[x := v]) + (if x in m then m[x] else 0) == Total(m) + v
  {
    var m' := m[x := v];
    TotalRemove(m', x);
    assert m' - {x} == m - {x};
    if x in m {
      TotalRemove(m, x);
    } else {
      assert m - {x} == m;
    }
  }

  /** The counts of Counter(tokens) add up to the number of tokens. */
  lemma {:induction false} FrequenciesTotal(tokens: seq<string>)
    ensures Total(Frequencies(tokens)) == |tokens|
  {
    if |tokens| > 0 {
      var i := |tokens| - 1;
      var x := tokens[i];
      var m := Frequencies(tokens[..i]);
      FrequenciesTotal(tokens[..i]);
      TotalUpdate(m, x, (if x in m then m[x] else 0) + 1);
    }
  }

  /** The proper nouns of part (h) of the analysis: the words tagged NNP or NNPS, in order. */
  function ProperNouns(tagged: seq<TaggedWord>): (r: seq<string>)
    ensures |r| <= |tagged|
  {
    if |tagged| == 0 then []
    else
      var i := |tagged| - 1;
      ProperNouns(tagged[..i]) + (if IsProperNounTag(tagged[i]) then [tagged[i].word] else [])
  }

  predicate IsProperNounTag(p: TaggedWord) {
    p.tag in ["NNP", "NNPS"]
  }

  /** ProperNouns yields the words at exactly the positions tagged NNP or NNPS. */
  lemma {:induction false} ProperNounsExact(tagged: seq<TaggedWord>)
    ensures |ProperNouns(tagged)| == |Positions(tagged, IsProperNounTag)|
    ensures forall k :: 0 <= k < |ProperNouns(tagged)| ==>
              ProperNouns(tagged)[k] == tagged[Positions(tagged, IsProperNounTag)[k]].word
  {
    if |tagged| > 0 {
      var i := |tagged| - 1;
      ProperNounsExact(tagged[..i]);
      PositionsOfPrefix(tagged, IsProperNounTag);
      var p := Positions(tagged[..i], IsProperNounTag);
      forall j | 0 <= j < |p| ensures tagged[..i][p[j]] == tagged[p[j]] {
      }
    }
  }

  /** The pipeline of parts (b) and (c): after filtering and stop-word removal,
      every counted token is a filtered token (so the lower-case form of an input token, by
      FilteredTokenOrigin) and a lower-case alphabetic word that is not a stop word. */
  lemma PipelineKeys(tokens: seq<string>, stop: set<string>, w: string)
    requires w in Frequencies(RemoveStopwords(FilterTokens(tokens), stop))
    ensures w in FilterTokens(tokens)
    ensures IsAlpha(w) && IsLowerCase(w) && w !in stop
  {
    var f := FilterTokens(tokens);
    assert w in RemoveStopwords(f, stop);
    KeptTokenWasFiltered(tokens, stop, w);
    var l :| 0 <= l < |f| && f[l] == w;
    LowerFixedPoints(w);
  }

  lemma KeptTokenWasFiltered(tokens: seq<string>, stop: set<string>, w: string)
    requires w in RemoveStopwords(FilterTokens(tokens), stop)
    ensures w in FilterTokens(tokens) && Lower(w) !in stop
  {
    var f := FilterTokens(tokens);
    RemoveStopwordsCounts(f, stop, w);
    assert w in multiset(RemoveStopwords(f, stop));
    assert w in multiset(f);
  }

  /** Every filtered token is the lower-case form of an input token. */
  lemma FilteredTokenOrigin(tokens: seq<string>, w: string)
    requires w in FilterTokens(tokens)
    ensures exists j :: 0 <= j < |tokens| && IsAlpha(tokens[j]) && Lower(tokens[j]) == w
  {
    var f := FilterTokens(tokens);
    var l :| 0 <= l < |f| && f[l] == w;
    FilterTokensExact(tokens);
    var p := Positions(tokens, IsAlpha);
    assert f[l] == Lower(tokens[p[l]]);
  }
}
