/** Homograph detection: the words that the tagger gave two or more different tags.
    The scan folds the (word, tag) pairs into a dictionary from lower-cased word to the
    set of tags seen with it, and then keeps the entries with more than one tag, each
    tag set turned into a list. */
module Homographs {
  import opened AsciiText
  import opened Tokens
  import opened Ranking

  /** A pair the dictionary records: its lower-cased word is alphabetic (hence non-empty). */
  predicate Eligible(p: TaggedWord) {
    IsAlpha(Lower(p.word))
  }

  /** The tags seen among the first n pairs whose lower-cased word is w. */
  function TagsSeen(t: seq<TaggedWord>, n: nat, w: string): set<string>
    requires n <= |t|
  {
    set k | 0 <= k < n && Eligible(t[k]) && Lower(t[k].word) == w :: t[k].tag
  }

  /** The tags seen for w in the whole input. */
  function TagsOf(t: seq<TaggedWord>, w: string): set<string> {
    TagsSeen(t, |t|, w)
  }

  lemma TagsSeenStep(t: seq<TaggedWord>, n: nat, w: string)
    requires n < |t|
    ensures TagsSeen(t, n + 1, w) ==
            TagsSeen(t, n, w) + (if Eligible(t[n]) && Lower(t[n].word) == w then {t[n].tag} else {})
  {
  }

  predicate Distinct(xs: seq<string>) {
    forall i, j :: 0 <= i < j < |xs| ==> xs[i] != xs[j]
  }

  /** list(s): the elements of a set, each once, in an unspecified order. */
  method SetToList(s: set<string>) returns (xs: seq<string>)
    ensures Distinct(xs)
    ensures forall x :: x in xs <==> x in s
    ensures |xs| == |s|
  {
    xs := [];
    var rest := s;
    while rest != {}
      invariant rest <= s
      invariant Distinct(xs)
      invariant forall x :: x in xs <==> x in s && x !in rest
      invariant |xs| + |rest| == |s|
      decreases |rest|
    {
      var x :| x in rest;
      xs := xs + [x];
      rest := rest - {x};
    }
  }

  /** The lower-cased words of the eligible pairs among the first n, in input order. */
  function EligibleKeys(t: seq<TaggedWord>, n: nat): seq<string>
    requires n <= |t|
  {
    if n == 0 then []
    else EligibleKeys(t, n - 1) + (if Eligible(t[n - 1]) then [Lower(t[n - 1].word)] else [])
  }

  lemma {:induction false} EligibleKeysMembers(t: seq<TaggedWord>, n: nat, w: string)
    requires n <= |t|
    ensures w in EligibleKeys(t, n) <==> TagsSeen(t, n, w) != {}
  {
    if n > 0 {
      EligibleKeysMembers(t, n - 1, w);
      TagsSeenStep(t, n - 1, w);
    }
  }

  function IsHomographOf(t: seq<TaggedWord>): string -> bool {
    w => |TagsOf(t, w)| >= 2
  }

  /** The iteration order of find_homographs' result: the dictionary's insertion order
      (first occurrence of each lower-cased word) restricted to the homographs. */
  function HomographOrder(t: seq<TaggedWord>): seq<string> {
    Select(FirstOccurrences(EligibleKeys(t, |t|)), IsHomographOf(t))
  }

  /** The dictionary the scan has built after the first n pairs: each lower-cased
      alphabetic word mapped to the set of tags seen with it. */
  ghost function PosDict(t: seq<TaggedWord>, n: nat): map<string, set<string>>
    requires n <= |t|
  {
    if n == 0 then map[]
    else
      var d := PosDict(t, n - 1);
      var w := Lower(t[n - 1].word);
      if Eligible(t[n - 1]) then d[w := (if w in d then d[w] else {}) + {t[n - 1].tag}] else d
  }

  /** The dictionary records exactly the words seen so far, each with the tags seen with it. */
  lemma {:induction false} PosDictMeaning(t: seq<TaggedWord>, n: nat, w: string)
    requires n <= |t|
    ensures w in PosDict(t, n) <==> TagsSeen(t, n, w) != {}
    ensures w in PosDict(t, n) ==> PosDict(t, n)[w] == TagsSeen(t, n, w)
  {
    if n > 0 {
      PosDictMeaning(t, n - 1, w);
      TagsSeenStep(t, n - 1, w);
    }
  }

  /** The insertion order of the dictionary after the first n pairs: a word is appended
      when an eligible pair brings it and it is not listed yet. */
  ghost function KeyOrder(t: seq<TaggedWord>, n: nat): seq<string>
    requires n <= |t|
  {
    if n == 0 then []
    else
      var w := Lower(t[n - 1].word);
      KeyOrder(t, n - 1) + (if Eligible(t[n - 1]) && w !in KeyOrder(t, n - 1) then [w] else [])
  }

  /** The insertion order lists the first occurrences of the recorded words. */
  lemma {:induction false} KeyOrderIsFirstOccurrences(t: seq<TaggedWord>, n: nat)
    requires n <= |t|
    ensures KeyOrder(t, n) == FirstOccurrences(EligibleKeys(t, n))
  {
    if n > 0 {
      var w := Lower(t[n - 1].word);
      var prev := KeyOrder(t, n - 1);
      KeyOrderIsFirstOccurrences(t, n - 1);
      if Eligible(t[n - 1]) {
        assert EligibleKeys(t, n) == EligibleKeys(t, n - 1) + [w];
        FirstOccurrencesSnoc(EligibleKeys(t, n - 1), w);
        if w in prev {
          assert KeyOrder(t, n) == prev + [] == prev;
        } else {
          assert KeyOrder(t, n) == prev + [w];
        }
      } else {
        assert EligibleKeys(t, n) == EligibleKeys(t, n - 1) + [] == EligibleKeys(t, n - 1);
        assert KeyOrder(t, n) == prev + [] == prev;
      }
    }
  }

  /** A word is in the dictionary exactly when it is in the insertion order. */
  lemma DictHasKey(t: seq<TaggedWord>, n: nat, w: string)
    requires n <= |t|
    ensures w in PosDict(t, n) <==> w in KeyOrder(t, n)
  {
    PosDictMeaning(t, n, w);
    EligibleKeysMembers(t, n, w);
    KeyOrderIsFirstOccurrences(t, n);
  }

  /** find_homographs: a word is a key iff it was seen with at least two distinct tags,
      and then its list holds exactly those tags, each once. The second result is the
      order in which the returned dictionary lists its keys. */
  method FindHomographs(t: seq<TaggedWord>) returns (r: map<string, seq<string>>, order: seq<string>)
    ensures forall w :: w in r <==> |TagsOf(t, w)| >= 2
    ensures forall w :: w in r ==>
              Distinct(r[w]) && |r[w]| == |TagsOf(t, w)| && forall x :: x in r[w] <==> x in TagsOf(t, w)
    ensures order == HomographOrder(t)
    ensures Distinct(order) && forall w :: w in order <==> w in r
  {
    var posDict: map<string, set<string>> := map[];
    var keys: seq<string> := [];
    for i := 0 to |t|
      invariant posDict == PosDict(t, i)
      invariant keys == KeyOrder(t, i)
    {
      var word, pos := t[i].word, t[i].tag;
      var wordLower := Lower(word);
      ghost var d := posDict;
      DictHasKey(t, i, wordLower);
      assert PosDict(t, i + 1) ==
             if Eligible(t[i]) then d[wordLower := (if wordLower in d then d[wordLower] else {}) + {pos}] else d;
      assert KeyOrder(t, i + 1) == keys + (if Eligible(t[i]) && wordLower !in d then [wordLower] else []);
      if IsAlpha(wordLower) && |wordLower| > 0 {
        if wordLower !in posDict {
          posDict := posDict[wordLower := {}];
          keys := keys + [wordLower];
        }
        posDict := posDict[wordLower := posDict[wordLower] + {pos}];
        assert posDict == d[wordLower := (if wordLower in d then d[wordLower] else {}) + {pos}];
      }
    }
    KeyOrderIsFirstOccurrences(t, |t|);
    r, order := KeepMultiTagged(t, posDict, keys);
    HomographOrderExact(t);
  }

  /** The key order lists every homograph exactly once and nothing else. */
  lemma HomographOrderExact(t: seq<TaggedWord>)
    ensures Distinct(HomographOrder(t))
    ensures forall w :: w in HomographOrder(t) <==> |TagsOf(t, w)| >= 2
  {
    var d := FirstOccurrences(EligibleKeys(t, |t|));
    var o := HomographOrder(t);
    SelectExact(d, IsHomographOf(t));
    var p := Positions(d, IsHomographOf(t));
    forall i, j | 0 <= i < j < |o| ensures o[i] != o[j] {
      assert o[i] == d[p[i]] && o[j] == d[p[j]] && p[i] < p[j];
    }
    forall w ensures w in o <==> |TagsOf(t, w)| >= 2 {
      SelectMembers(d, IsHomographOf(t), w);
      EligibleKeysMembers(t, |t|, w);
    }
  }

  /** The finished dictionary and its insertion order hold the same words. */
  lemma PosDictKeys(t: seq<TaggedWord>)
    ensures forall w :: w in PosDict(t, |t|) <==> w in FirstOccurrences(EligibleKeys(t, |t|))
  {
    forall w ensures w in PosDict(t, |t|) <==> w in FirstOccurrences(EligibleKeys(t, |t|)) {
      PosDictMeaning(t, |t|, w);
      EligibleKeysMembers(t, |t|, w);
    }
  }

  /** The closing dictionary comprehension of find_homographs: the entries with more
      than one tag, each tag set turned into a list, visited in the dictionary's order. */
  method KeepMultiTagged(ghost t: seq<TaggedWord>, posDict: map<string, set<string>>, keys: seq<string>)
    returns (r: map<string, seq<string>>, order: seq<string>)
    requires posDict == PosDict(t, |t|)
    requires keys == FirstOccurrences(EligibleKeys(t, |t|))
    ensures forall w :: w in r <==> |TagsOf(t, w)| >= 2
    ensures forall w :: w in r ==>
              Distinct(r[w]) && |r[w]| == |TagsOf(t, w)| && forall x :: x in r[w] <==> x in TagsOf(t, w)
    ensures order == HomographOrder(t)
  {
    PosDictKeys(t);
    r, order := map[], [];
    for j := 0 to |keys|
      invariant forall w :: w in r <==> w in keys[..j] && |TagsOf(t, w)| >= 2
      invariant forall w :: w in r ==>
                  Distinct(r[w]) && |r[w]| == |TagsOf(t, w)| && forall x :: x in r[w] <==> x in TagsOf(t, w)
      invariant order == Select(keys[..j], IsHomographOf(t))
    {
      var w := keys[j];
      PosDictMeaning(t, |t|, w);
      SelectOfPrefix(keys, IsHomographOf(t), j);
      if |posDict[w]| > 1 {
        var tags := SetToList(posDict[w]);
        r := r[w := tags];
        order := order + [w];
      }
    }
    assert keys[..|keys|] == keys;
    forall w ensures w in r <==> |TagsOf(t, w)| >= 2 {
      EligibleKeysMembers(t, |t|, w);
    }
  }

  /** The (word, number of tags) items of find_homographs' result, in its iteration order. */
  function HomographItems(t: seq<TaggedWord>): seq<Ranked> {
    var o := HomographOrder(t);
    seq(|o|, k requires 0 <= k < |o| => Ranked(o[k], |TagsOf(t, o[k])|))
  }

  /** Part (g) of the analysis: the homographs sorted by decreasing number of tags, of
      which the last ten end up in the answer file (the first ten, written before them,
      are overwritten). These are ten homographs with the fewest tags: none left out has
      fewer tags than one reported. */
  method ReportHomographs(t: seq<TaggedWord>) returns (report: seq<Ranked>)
    ensures report == HomographsReported(HomographItems(t))
    ensures |report| == if 10 <= |HomographOrder(t)| then 10 else |HomographOrder(t)|
    ensures forall e :: e in report ==> e.weight == |TagsOf(t, e.key)| >= 2
    ensures forall w, y :: |TagsOf(t, w)| >= 2 && y in report && w !in KeysOf(report) ==>
              |TagsOf(t, w)| >= y.weight
  {
    var homographs, order := FindHomographs(t);
    var items := seq(|order|, k requires 0 <= k < |order| => Ranked(order[k], |homographs[order[k]]|));
    assert items == HomographItems(t);
    report := TakeLast(SortDesc(items), 10);
    ReportedAreLightest(t);
  }

  /** The items are the homographs, each with its number of tags. */
  lemma HomographItemsExact(t: seq<TaggedWord>)
    ensures forall e :: e in HomographItems(t) ==> e.weight == |TagsOf(t, e.key)| >= 2
    ensures forall w :: |TagsOf(t, w)| >= 2 ==> Ranked(w, |TagsOf(t, w)|) in HomographItems(t)
  {
    var o := HomographOrder(t);
    var items := HomographItems(t);
    var d := FirstOccurrences(EligibleKeys(t, |t|));
    forall e | e in items ensures e.weight == |TagsOf(t, e.key)| >= 2 {
      var k :| 0 <= k < |items| && items[k] == e;
      SelectMembers(d, IsHomographOf(t), o[k]);
    }
    forall w | |TagsOf(t, w)| >= 2 ensures Ranked(w, |TagsOf(t, w)|) in items {
      EligibleKeysMembers(t, |t|, w);
      SelectMembers(d, IsHomographOf(t), w);
      var k :| 0 <= k < |o| && o[k] == w;
      assert items[k] == Ranked(w, |TagsOf(t, w)|);
    }
  }

  /** The reported homographs: min(10, #homographs) of them, each with its true number
      of tags, and no homograph left out has fewer tags than one reported. */
  lemma ReportedAreLightest(t: seq<TaggedWord>)
    ensures |HomographsReported(HomographItems(t))| ==
              if 10 <= |HomographOrder(t)| then 10 else |HomographOrder(t)|
    ensures forall e :: e in HomographsReported(HomographItems(t)) ==> e.weight == |TagsOf(t, e.key)| >= 2
    ensures forall w, y ::
              (|TagsOf(t, w)| >= 2 && y in HomographsReported(HomographItems(t)) &&
               w !in KeysOf(HomographsReported(HomographItems(t)))) ==>
              |TagsOf(t, w)| >= y.weight
  {
    var items := HomographItems(t);
    var report := HomographsReported(items);
    TakeLastLightest(items, 10);
    HomographItemsExact(t);
    forall e | e in report ensures e in items {
      assert e in multiset(report);
    }
    forall w, y | |TagsOf(t, w)| >= 2 && y in report && w !in KeysOf(report)
      ensures |TagsOf(t, w)| >= y.weight
    {
      var x := Ranked(w, |TagsOf(t, w)|);
      assert x !in report;
      assert x in multiset(items) - multiset(report);
      assert y in multiset(report);
    }
  }

  /** The tags of w are exactly the tags of the pairs whose words lower-case to w. */
  lemma TagsOfMembers(t: seq<TaggedWord>, w: string, x: string)
    ensures x in TagsOf(t, w) <==>
              exists k :: 0 <= k < |t| && IsAlpha(w) && Lower(t[k].word) == w && t[k].tag == x
  {
  }

  /** Every key is a lower-case alphabetic word. */
  lemma KeysAreLowerAlpha(t: seq<TaggedWord>, w: string)
    requires TagsOf(t, w) != {}
    ensures IsAlpha(w) && IsLowerCase(w) && Lower(w) == w
  {
    var x :| x in TagsOf(t, w);
    var k :| 0 <= k < |t| && Eligible(t[k]) && Lower(t[k].word) == w && t[k].tag == x;
    LowerIsLowerCase(t[k].word);
    LowerFixedPoints(w);
  }

  /** The tags recorded for one spelling of a word, compared exactly. */
  function SpellingTags(t: seq<TaggedWord>, v: string): set<string> {
    set k | 0 <= k < |t| && t[k].word == v :: t[k].tag
  }

  /** Case variants share one entry: the tags of the lower-cased word are the union of
      the tags of all its alphabetic spellings. */
  lemma CaseVariantsMerge(t: seq<TaggedWord>, w: string, x: string)
    ensures x in TagsOf(t, w) <==>
              exists v :: IsAlpha(v) && Lower(v) == w && x in SpellingTags(t, v)
  {
    if x in TagsOf(t, w) {
      var k :| 0 <= k < |t| && Eligible(t[k]) && Lower(t[k].word) == w && t[k].tag == x;
      LowerKeepsAlpha(t[k].word);
      assert x in SpellingTags(t, t[k].word);
    }
    if exists v :: IsAlpha(v) && Lower(v) == w && x in SpellingTags(t, v) {
      var v :| IsAlpha(v) && Lower(v) == w && x in SpellingTags(t, v);
      var k :| 0 <= k < |t| && t[k].word == v && t[k].tag == x;
      LowerKeepsAlpha(v);
      assert x in TagsSeen(t, |t|, w);
    }
  }

  /** Two occurrences of w with different tags make w a homograph. */
  lemma TwoTagsSuffice(t: seq<TaggedWord>, w: string, k1: nat, k2: nat)
    requires k1 < |t| && k2 < |t| && Eligible(t[k1]) && Eligible(t[k2])
    requires Lower(t[k1].word) == w && Lower(t[k2].word) == w && t[k1].tag != t[k2].tag
    ensures |TagsOf(t, w)| >= 2
  {
    var s := TagsOf(t, w);
    var pair := {t[k1].tag, t[k2].tag};
    assert pair <= s;
    assert s == pair + (s - pair);
  }

  /** A word is a homograph key iff two of its occurrences carry different tags. */
  lemma HomographIff(t: seq<TaggedWord>, w: string)
    ensures |TagsOf(t, w)| >= 2 <==>
              exists k1, k2 :: 0 <= k1 < |t| && 0 <= k2 < |t| &&
                Eligible(t[k1]) && Eligible(t[k2]) &&
                Lower(t[k1].word) == w && Lower(t[k2].word) == w && t[k1].tag != t[k2].tag
  {
    var s := TagsOf(t, w);
    if |s| >= 2 {
      var a :| a in s;
      assert |s - {a}| >= 1;
      var b :| b in s - {a};
      var k1 :| 0 <= k1 < |t| && Eligible(t[k1]) && Lower(t[k1].word) == w && t[k1].tag == a;
      var k2 :| 0 <= k2 < |t| && Eligible(t[k2]) && Lower(t[k2].word) == w && t[k2].tag == b;
    }
    if exists k1, k2 :: 0 <= k1 < |t| && 0 <= k2 < |t| &&
         Eligible(t[k1]) && Eligible(t[k2]) &&
         Lower(t[k1].word) == w && Lower(t[k2].word) == w && t[k1].tag != t[k2].tag {
      var k1, k2 :| 0 <= k1 < |t| && 0 <= k2 < |t| &&
        Eligible(t[k1]) && Eligible(t[k2]) &&
        Lower(t[k1].word) == w && Lower(t[k2].word) == w && t[k1].tag != t[k2].tag;
      TwoTagsSuffice(t, w, k1, k2);
    }
  }
}
