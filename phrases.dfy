/** Adjective+noun phrase extraction over the tagger's (word, tag) pairs:
    a left-to-right scan that collects a run of JJ* words and emits it, joined by
    spaces, when an NN* word follows. The declarative reference says which phrases
    that scan produces: one per noun that directly follows a kept adjective, made of
    the maximal adjective run before the noun and the noun itself. */
module AdjNoun {
  import opened AsciiText
  import opened Tokens

  /** Words that never take part in a phrase, compared in lower case. */
  const Excluded: set<string> := {"s", "second", "servant", "first", "third"}

  /** A word the scan looks at at all: alphabetic and not excluded. */
  predicate KeptWord(w: string) {
    IsAlpha(w) && Lower(w) !in Excluded
  }

  predicate Kept(p: TaggedWord) {
    KeptWord(p.word)
  }

  predicate IsAdjective(p: TaggedWord) {
    Kept(p) && StartsWith(p.tag, "JJ")
  }

  /** A kept noun; the NN* test is only reached once the JJ* test has failed. */
  predicate IsNoun(p: TaggedWord) {
    Kept(p) && !StartsWith(p.tag, "JJ") && StartsWith(p.tag, "NN")
  }

  /** Start of the maximal run of adjectives that ends just before position n. */
  function RunStart(t: seq<TaggedWord>, n: nat): (i: nat)
    requires n <= |t|
    ensures i <= n
    ensures i == 0 || !IsAdjective(t[i - 1])
  {
    if n == 0 || !IsAdjective(t[n - 1]) then n else RunStart(t, n - 1)
  }

  /** Every pair of the run is an adjective. */
  lemma {:induction false} RunIsAdjectives(t: seq<TaggedWord>, n: nat)
    requires n <= |t|
    ensures forall m :: RunStart(t, n) <= m < n ==> IsAdjective(t[m])
  {
    if n > 0 && IsAdjective(t[n - 1]) {
      RunIsAdjectives(t, n - 1);
    }
  }

  /** The words of the pairs at positions i .. j-1. */
  function Words(t: seq<TaggedWord>, i: nat, j: nat): (ws: seq<string>)
    requires i <= j <= |t|
  {
    seq(j - i, k requires 0 <= k < j - i => t[i + k].word)
  }

  /** A phrase ends at j: a kept noun directly after a kept adjective. */
  predicate Closes(t: seq<TaggedWord>, j: nat)
    requires j < |t|
  {
    IsNoun(t[j]) && j > 0 && IsAdjective(t[j - 1])
  }

  /** The positions below n at which a phrase ends, in increasing order. */
  function ClosingPositions(t: seq<TaggedWord>, n: nat): (e: seq<nat>)
    requires n <= |t|
    ensures forall k :: 0 <= k < |e| ==> e[k] < n && Closes(t, e[k])
    ensures forall k, l :: 0 <= k < l < |e| ==> e[k] < e[l]
    ensures forall j :: 0 <= j < n && Closes(t, j) ==> j in e
  {
    if n == 0 then []
    else ClosingPositions(t, n - 1) + (if Closes(t, n - 1) then [n - 1] else [])
  }

  /** The phrase that ends at j: the adjective run before j followed by the word at j. */
  function PhraseAt(t: seq<TaggedWord>, j: nat): seq<string>
    requires j < |t|
  {
    Words(t, RunStart(t, j), j + 1)
  }

  /** The phrases that end below n, as word lists, in input order. */
  function PhrasesBefore(t: seq<TaggedWord>, n: nat): seq<seq<string>>
    requires n <= |t|
  {
    var e := ClosingPositions(t, n);
    seq(|e|, k requires 0 <= k < |e| => PhraseAt(t, e[k]))
  }

  /** The phrases of the whole input. */
  function AdjNounPhrases(t: seq<TaggedWord>): seq<seq<string>> {
    PhrasesBefore(t, |t|)
  }

  /** One more pair adds at most the phrase that ends at it. */
  lemma PhrasesBeforeStep(t: seq<TaggedWord>, n: nat)
    requires n < |t|
    ensures PhrasesBefore(t, n + 1) ==
            PhrasesBefore(t, n) + (if Closes(t, n) then [PhraseAt(t, n)] else [])
  {
  }

  /** An adjective at n extends the pending run and closes nothing. */
  lemma ExtendRun(t: seq<TaggedWord>, n: nat)
    requires n < |t| && IsAdjective(t[n])
    ensures Words(t, RunStart(t, n + 1), n + 1) == Words(t, RunStart(t, n), n) + [t[n].word]
    ensures PhrasesBefore(t, n + 1) == PhrasesBefore(t, n)
  {
    var r := RunStart(t, n);
    assert RunStart(t, n + 1) == r;
    assert Words(t, r, n + 1) == Words(t, r, n) + [t[n].word];
    assert !Closes(t, n);
    PhrasesBeforeStep(t, n);
  }

  /** A noun after a non-empty run closes the phrase made of the run and the noun. */
  lemma ClosePhrase(t: seq<TaggedWord>, n: nat)
    requires n < |t| && IsNoun(t[n]) && |Words(t, RunStart(t, n), n)| > 0
    ensures Words(t, RunStart(t, n + 1), n + 1) == []
    ensures PhrasesBefore(t, n + 1) == PhrasesBefore(t, n) + [Words(t, RunStart(t, n), n) + [t[n].word]]
  {
    var r := RunStart(t, n);
    assert r == if n == 0 || !IsAdjective(t[n - 1]) then n else RunStart(t, n - 1);
    assert RunStart(t, n + 1) == n + 1 && |Words(t, n + 1, n + 1)| == 0;
    assert Closes(t, n);
    assert Words(t, r, n + 1) == Words(t, r, n) + [t[n].word];
    PhrasesBeforeStep(t, n);
  }

  /** Any other pair empties the pending run and closes nothing. */
  lemma ResetRun(t: seq<TaggedWord>, n: nat)
    requires n < |t| && !IsAdjective(t[n])
    requires !(IsNoun(t[n]) && |Words(t, RunStart(t, n), n)| > 0)
    ensures Words(t, RunStart(t, n + 1), n + 1) == []
    ensures PhrasesBefore(t, n + 1) == PhrasesBefore(t, n)
  {
    var r := RunStart(t, n);
    assert r == if n == 0 || !IsAdjective(t[n - 1]) then n else RunStart(t, n - 1);
    assert RunStart(t, n + 1) == n + 1 && |Words(t, n + 1, n + 1)| == 0;
    assert !Closes(t, n);
    PhrasesBeforeStep(t, n);
  }

  /** Each word list joined by single spaces. */
  function JoinAll(ps: seq<seq<string>>): (r: seq<string>)
    ensures |r| == |ps|
  {
    seq(|ps|, k requires 0 <= k < |ps| => Join(ps[k]))
  }

  lemma JoinAllAppend(ps: seq<seq<string>>, p: seq<string>)
    ensures JoinAll(ps + [p]) == JoinAll(ps) + [Join(p)]
  {
  }

  /** extract_adj_noun_phrases: the scan with its pending phrase. */
  method ExtractAdjNounPhrases(t: seq<TaggedWord>) returns (phrases: seq<string>)
    ensures phrases == JoinAll(AdjNounPhrases(t))
  {
    phrases := [];
    var phrase: seq<string> := [];
    for i := 0 to |t|
      invariant phrase == Words(t, RunStart(t, i), i)
      invariant phrases == JoinAll(PhrasesBefore(t, i))
    {
      var word, pos := t[i].word, t[i].tag;
      if KeptWord(word) {
        if StartsWith(pos, "JJ") {
          ExtendRun(t, i);
          phrase := phrase + [word];
        } else if StartsWith(pos, "NN") && |phrase| > 0 {
          ClosePhrase(t, i);
          JoinAllAppend(PhrasesBefore(t, i), phrase + [word]);
          assert JoinAll(PhrasesBefore(t, i + 1)) == phrases + [Join(phrase + [word])];
          phrase := phrase + [word];
          assert |phrase| > 1;
          if |phrase| > 1 {
            phrases := phrases + [Join(phrase)];
          }
          phrase := [];
        } else {
          ResetRun(t, i);
          phrase := [];
        }
      } else {
        ResetRun(t, i);
        phrase := [];
      }
    }
  }

  /** A joined phrase splits back into its words, so no two phrases join to the same string. */
  lemma JoinedPhrasesSplit(t: seq<TaggedWord>)
    ensures forall k :: 0 <= k < |AdjNounPhrases(t)| ==>
              Split(JoinAll(AdjNounPhrases(t))[k]) == AdjNounPhrases(t)[k] && |AdjNounPhrases(t)[k]| >= 2
  {
    forall k | 0 <= k < |AdjNounPhrases(t)|
      ensures Split(Join(AdjNounPhrases(t)[k])) == AdjNounPhrases(t)[k] && |AdjNounPhrases(t)[k]| >= 2
    {
      PhraseWords(t, k);
      SplitJoin(AdjNounPhrases(t)[k]);
    }
  }

  /** The phrase that ends at a closing noun has at least two words, all of them kept. */
  lemma PhraseAtWords(t: seq<TaggedWord>, j: nat)
    requires j < |t| && Closes(t, j)
    ensures |PhraseAt(t, j)| >= 2
    ensures forall m :: 0 <= m < |PhraseAt(t, j)| ==> KeptWord(PhraseAt(t, j)[m])
  {
    var i := RunStart(t, j);
    assert i == RunStart(t, j - 1);
    RunIsAdjectives(t, j);
    var ws := PhraseAt(t, j);
    forall m | 0 <= m < |ws| ensures KeptWord(ws[m]) {
      assert ws[m] == t[i + m].word;
      assert i + m < j || i + m == j;
      assert Kept(t[i + m]);
    }
  }

  /** Every phrase has at least two words, all of them kept (alphabetic, not excluded),
      hence free of spaces: the last is a noun and the others are adjectives. */
  lemma PhraseWords(t: seq<TaggedWord>, k: nat)
    requires k < |AdjNounPhrases(t)|
    ensures |AdjNounPhrases(t)[k]| >= 2
    ensures forall w :: w in AdjNounPhrases(t)[k] ==> KeptWord(w) && ' ' !in w
  {
    var j := ClosingPositions(t, |t|)[k];
    PhraseAtWords(t, j);
    var ws := AdjNounPhrases(t)[k];
    assert ws == PhraseAt(t, j);
    forall w | w in ws ensures KeptWord(w) && ' ' !in w {
      var m :| 0 <= m < |ws| && ws[m] == w;
      AlphaHasNoSpace(w);
    }
  }

  /** Each phrase is a span of the input: a maximal run of one or more adjectives
      immediately followed by one noun. */
  lemma PhraseIsSpan(t: seq<TaggedWord>, k: nat)
    requires k < |AdjNounPhrases(t)|
    ensures exists i, j :: 0 <= i < j < |t| && AdjNounPhrases(t)[k] == Words(t, i, j) + [t[j].word] &&
              (forall m :: i <= m < j ==> IsAdjective(t[m])) && IsNoun(t[j]) &&
              (i == 0 || !IsAdjective(t[i - 1]))
  {
    var e := ClosingPositions(t, |t|);
    var j := e[k];
    assert RunStart(t, j) == RunStart(t, j - 1);
    RunIsAdjectives(t, j);
    assert AdjNounPhrases(t)[k] == Words(t, RunStart(t, j), j + 1);
    assert Words(t, RunStart(t, j), j + 1) == Words(t, RunStart(t, j), j) + [t[j].word];
  }

  /** A noun right after a kept adjective always ends an emitted phrase, namely PhraseAt. */
  lemma EveryClosingNounEmits(t: seq<TaggedWord>, j: nat)
    requires j < |t| && j > 0 && IsAdjective(t[j - 1]) && IsNoun(t[j])
    ensures PhraseAt(t, j) in AdjNounPhrases(t)
  {
    var e := ClosingPositions(t, |t|);
    assert Closes(t, j);
    var k :| 0 <= k < |e| && e[k] == j;
    assert AdjNounPhrases(t)[k] == PhraseAt(t, j);
  }

  /** Phrases come out in input order and never overlap: a later phrase starts
      after the noun that ends an earlier one. */
  lemma PhrasesInOrder(t: seq<TaggedWord>, k: nat, l: nat)
    requires k < l < |AdjNounPhrases(t)|
    ensures ClosingPositions(t, |t|)[k] < RunStart(t, ClosingPositions(t, |t|)[l])
  {
    var e := ClosingPositions(t, |t|);
    assert e[k] < e[l];
    assert !IsAdjective(t[e[k]]);
    RunIsAdjectives(t, e[l]);
  }

  predicate HasNounTag(p: TaggedWord) {
    StartsWith(p.tag, "NN")
  }

  lemma {:induction false} ClosingPositionsBound(t: seq<TaggedWord>, n: nat)
    requires n <= |t|
    ensures |ClosingPositions(t, n)| <= |Positions(t[..n], HasNounTag)|
  {
    if n > 0 {
      ClosingPositionsBound(t, n - 1);
      assert t[..n][..n - 1] == t[..n - 1];
      PositionsOfPrefix(t[..n], HasNounTag);
    }
  }

  /** There are never more phrases than words tagged NN*. */
  lemma PhraseCountBound(t: seq<TaggedWord>)
    ensures |AdjNounPhrases(t)| <= |Positions(t, HasNounTag)|
  {
    ClosingPositionsBound(t, |t|);
    assert t[..|t|] == t;
  }
}
