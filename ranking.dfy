/** The selections the analysis writes out: Counter.most_common(n), and the homographs
    ranked by their number of tags. Both rest on Python's sorted(..., reverse=True) by a
    weight, which is stable: entries of equal weight keep their original order. */
module Ranking {
  import opened Tokens

  /** An item with the weight it is ranked by: a token and its count, or a word and its number of tags. */
  datatype Ranked = Ranked(key: string, weight: nat)

  predicate SortedDesc(s: seq<Ranked>) {
    forall i, j :: 0 <= i < j < |s| ==> s[i].weight >= s[j].weight
  }

  /** The entries of weight c, in their order in s. */
  function OfWeight(s: seq<Ranked>, c: nat): seq<Ranked> {
    if |s| == 0 then []
    else (if s[0].weight == c then [s[0]] else []) + OfWeight(s[1..], c)
  }

  lemma {:induction false} OfWeightAppend(a: seq<Ranked>, b: seq<Ranked>, c: nat)
    ensures OfWeight(a + b, c) == OfWeight(a, c) + OfWeight(b, c)
  {
    if |a| > 0 {
      assert (a + b)[1..] == a[1..] + b;
      OfWeightAppend(a[1..], b, c);
    } else {
      assert a + b == b;
    }
  }

  /** Inserts e into a list sorted by decreasing weight, after every entry at least as heavy. */
  function Insert(e: Ranked, r: seq<Ranked>): (r': seq<Ranked>)
    requires SortedDesc(r)
    ensures |r'| == |r| + 1
    ensures r'[0] == e || (|r| > 0 && r'[0] == r[0])
    ensures SortedDesc(r')
  {
    if |r| == 0 then [e]
    else if r[0].weight >= e.weight then
      var rest := Insert(e, r[1..]);
      assert forall j :: 0 <= j < |rest| ==> rest[0].weight >= rest[j].weight;
      [r[0]] + rest
    else
      [e] + r
  }

  lemma {:induction false} InsertPermutes(e: Ranked, r: seq<Ranked>)
    requires SortedDesc(r)
    ensures multiset(Insert(e, r)) == multiset(r) + multiset{e}
  {
    if |r| > 0 && r[0].weight >= e.weight {
      InsertPermutes(e, r[1..]);
      assert r == [r[0]] + r[1..];
    }
  }

  /** The entries of weight c in a list with one more entry in front. */
  lemma OfWeightCons(x: Ranked, s: seq<Ranked>, c: nat)
    ensures OfWeight([x] + s, c) == (if x.weight == c then [x] else []) + OfWeight(s, c)
  {
    assert ([x] + s)[1..] == s;
  }

  /** Inserting e adds it last among the entries of its weight and changes no other weight class. */
  lemma {:induction false} InsertOfWeight(e: Ranked, r: seq<Ranked>, c: nat)
    requires SortedDesc(r)
    ensures OfWeight(Insert(e, r), c) == OfWeight(r, c) + (if e.weight == c then [e] else [])
  {
    if |r| == 0 {
      assert Insert(e, r) == [e] + [];
      OfWeightCons(e, [], c);
    } else if r[0].weight >= e.weight {
      InsertOfWeight(e, r[1..], c);
      InsertBehind(e, r, c);
    } else {
      InsertInFront(e, r, c);
    }
  }

  /** The step of InsertOfWeight where e goes behind the first entry. */
  lemma InsertBehind(e: Ranked, r: seq<Ranked>, c: nat)
    requires SortedDesc(r) && |r| > 0 && r[0].weight >= e.weight
    requires OfWeight(Insert(e, r[1..]), c) == OfWeight(r[1..], c) + (if e.weight == c then [e] else [])
    ensures OfWeight(Insert(e, r), c) == OfWeight(r, c) + (if e.weight == c then [e] else [])
  {
    var rest := Insert(e, r[1..]);
    var head := if r[0].weight == c then [r[0]] else [];
    var added := if e.weight == c then [e] else [];
    assert Insert(e, r) == [r[0]] + rest;
    assert [r[0]] + r[1..] == r;
    OfWeightCons(r[0], rest, c);
    OfWeightCons(r[0], r[1..], c);
    ConcatAssoc(head, OfWeight(r[1..], c), added);
  }

  lemma ConcatAssoc(a: seq<Ranked>, b: seq<Ranked>, d: seq<Ranked>)
    ensures a + (b + d) == (a + b) + d
  {
  }

  /** The step of InsertOfWeight where e goes in front of a lighter list. */
  lemma InsertInFront(e: Ranked, r: seq<Ranked>, c: nat)
    requires SortedDesc(r) && |r| > 0 && r[0].weight < e.weight
    ensures OfWeight(Insert(e, r), c) == OfWeight(r, c) + (if e.weight == c then [e] else [])
  {
    assert Insert(e, r) == [e] + r;
    OfWeightCons(e, r, c);
    if e.weight == c {
      NoneOfWeight(r, c);
    }
  }

  lemma {:induction false} NoneOfWeight(r: seq<Ranked>, c: nat)
    requires forall i :: 0 <= i < |r| ==> r[i].weight < c
    ensures OfWeight(r, c) == []
  {
    if |r| > 0 {
      NoneOfWeight(r[1..], c);
    }
  }

  /** sorted(s, key=weight, reverse=True). */
  function SortDesc(s: seq<Ranked>): (r: seq<Ranked>)
    ensures |r| == |s|
    ensures SortedDesc(r)
  {
    if |s| == 0 then []
    else
      var i := |s| - 1;
      Insert(s[i], SortDesc(s[..i]))
  }

  lemma MultisetOfSnoc(s: seq<Ranked>)
    requires |s| > 0
    ensures multiset(s) == multiset(s[..|s| - 1]) + multiset{s[|s| - 1]}
  {
    assert s == s[..|s| - 1] + [s[|s| - 1]];
  }

  /** SortDesc reorders its input and does nothing else. */
  lemma {:induction false} SortDescPermutes(s: seq<Ranked>)
    ensures multiset(SortDesc(s)) == multiset(s)
  {
    if |s| > 0 {
      var i := |s| - 1;
      var r := SortDesc(s[..i]);
      assert SortDesc(s) == Insert(s[i], r);
      SortDescPermutes(s[..i]);
      InsertPermutes(s[i], r);
      MultisetOfSnoc(s);
    }
  }

  /** SortDesc is stable: within each weight the entries keep their input order. */
  lemma {:induction false} SortDescStable(s: seq<Ranked>, c: nat)
    ensures OfWeight(SortDesc(s), c) == OfWeight(s, c)
  {
    if |s| > 0 {
      var i := |s| - 1;
      var r := SortDesc(s[..i]);
      assert SortDesc(s) == Insert(s[i], r);
      SortDescStable(s[..i], c);
      InsertOfWeight(s[i], r, c);
      assert s == s[..i] + [s[i]];
      OfWeightAppend(s[..i], [s[i]], c);
      assert OfWeight([s[i]], c) == (if s[i].weight == c then [s[i]] else []) + OfWeight([], c);
    }
  }

  /** s[:n]: the first min(n, |s|) entries. */
  function Take(s: seq<Ranked>, n: nat): (r: seq<Ranked>)
    ensures |r| == if n <= |s| then n else |s|
  {
    if n <= |s| then s[..n] else s
  }

  /** s[-n:] for n > 0: the last min(n, |s|) entries. */
  function TakeLast(s: seq<Ranked>, n: nat): (r: seq<Ranked>)
    requires n > 0
    ensures |r| == if n <= |s| then n else |s|
  {
    if n <= |s| then s[|s| - n..] else s
  }

  /** In a list sorted by decreasing weight, everything before a cut outweighs everything after it. */
  lemma SortedCut(r: seq<Ranked>, m: nat)
    requires SortedDesc(r) && m <= |r|
    ensures r == r[..m] + r[m..]
    ensures forall x, y :: x in multiset(r[..m]) && y in multiset(r[m..]) ==> x.weight >= y.weight
  {
    forall x, y | x in multiset(r[..m]) && y in multiset(r[m..]) ensures x.weight >= y.weight {
      var a :| 0 <= a < m && r[..m][a] == x;
      var b :| 0 <= b < |r[m..]| && r[m..][b] == y;
      assert r[a] == x && r[m + b] == y;
    }
  }

  /** Taking the first n of a list sorted by decreasing weight keeps n heaviest entries:
      nothing left out outweighs anything kept. */
  lemma TakeHeaviest(s: seq<Ranked>, n: nat)
    ensures |Take(SortDesc(s), n)| == if n <= |s| then n else |s|
    ensures multiset(Take(SortDesc(s), n)) <= multiset(s)
    ensures forall x, y :: x in multiset(s) - multiset(Take(SortDesc(s), n)) && y in multiset(Take(SortDesc(s), n)) ==>
              x.weight <= y.weight
  {
    var r := SortDesc(s);
    SortDescPermutes(s);
    if n <= |r| {
      SortedCut(r, n);
      assert multiset(r) == multiset(r[..n]) + multiset(r[n..]);
      assert multiset(s) - multiset(r[..n]) == multiset(r[n..]);
    }
  }

  /** Taking the last n of a list sorted by decreasing weight keeps n lightest entries. */
  lemma TakeLastLightest(s: seq<Ranked>, n: nat)
    requires n > 0
    ensures |TakeLast(SortDesc(s), n)| == if n <= |s| then n else |s|
    ensures multiset(TakeLast(SortDesc(s), n)) <= multiset(s)
    ensures forall x, y :: x in multiset(s) - multiset(TakeLast(SortDesc(s), n)) && y in multiset(TakeLast(SortDesc(s), n)) ==>
              x.weight >= y.weight
  {
    var r := SortDesc(s);
    SortDescPermutes(s);
    if n <= |r| {
      var m := |r| - n;
      SortedCut(r, m);
      assert multiset(r) == multiset(r[..m]) + multiset(r[m..]);
      assert multiset(s) - multiset(r[m..]) == multiset(r[..m]);
    }
  }

  /** Counter(tokens).items(): each distinct token with its count, in first-occurrence order. */
  function CounterItems(tokens: seq<string>): (items: seq<Ranked>)
    ensures |items| == |FirstOccurrences(tokens)|
  {
    var d := FirstOccurrences(tokens);
    var m := Frequencies(tokens);
    assert forall k :: 0 <= k < |d| ==> d[k] in m;
    seq(|d|, k requires 0 <= k < |d| => Ranked(d[k], m[d[k]]))
  }

  /** Counter(tokens).most_common(n): the n most frequent tokens, ties in first-occurrence order. */
  function MostCommon(tokens: seq<string>, n: nat): (r: seq<Ranked>)
    ensures SortedDesc(r)
  {
    Take(SortDesc(CounterItems(tokens)), n)
  }

  /** Each item of Counter(tokens) is a token with its true count, and every token has its item. */
  lemma CounterItemsExact(tokens: seq<string>)
    ensures forall e :: e in CounterItems(tokens) ==> e.key in tokens && e.weight == multiset(tokens)[e.key]
    ensures forall w :: w in tokens ==> Ranked(w, multiset(tokens)[w]) in CounterItems(tokens)
  {
    var d := FirstOccurrences(tokens);
    var items := CounterItems(tokens);
    forall w | w in tokens ensures Ranked(w, multiset(tokens)[w]) in items {
      var k :| 0 <= k < |d| && d[k] == w;
      assert items[k] == Ranked(w, multiset(tokens)[w]);
    }
  }

  /** most_common(n) lists min(n, #distinct tokens) entries, from the most common to the
      least, each with its true count, and no token left out occurs more often than one listed. */
  lemma MostCommonTop(tokens: seq<string>, n: nat)
    ensures |MostCommon(tokens, n)| == if n <= |FirstOccurrences(tokens)| then n else |FirstOccurrences(tokens)|
    ensures SortedDesc(MostCommon(tokens, n))
    ensures forall e :: e in MostCommon(tokens, n) ==> e.key in tokens && e.weight == multiset(tokens)[e.key]
    ensures forall w, y :: w in tokens && y in MostCommon(tokens, n) && w !in KeysOf(MostCommon(tokens, n)) ==>
              multiset(tokens)[w] <= y.weight
  {
    var items := CounterItems(tokens);
    var r := MostCommon(tokens, n);
    TakeHeaviest(items, n);
    CounterItemsExact(tokens);
    forall e | e in r ensures e in items {
      assert e in multiset(r);
    }
    forall w, y | w in tokens && y in r && w !in KeysOf(r) ensures multiset(tokens)[w] <= y.weight {
      var x := Ranked(w, multiset(tokens)[w]);
      assert x !in r;
      assert x in multiset(items) - multiset(r);
      assert y in multiset(r);
    }
  }

  function KeysOf(s: seq<Ranked>): set<string> {
    set e | e in s :: e.key
  }

  /** answer_g.txt: the homographs sorted by decreasing number of tags; the top ten are
      written first, but the second write replaces them by the last ten. */
  function HomographsReported(items: seq<Ranked>): (r: seq<Ranked>)
    ensures SortedDesc(r)
  {
    TakeLast(SortDesc(items), 10)
  }
}
