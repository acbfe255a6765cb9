/** Words, their counts, and what a list of words by frequency is. */
module WordCounts {
  import opened Sequences
  import opened Sets

  datatype Rec = Rec(word: string, count: nat)

  // ----- the order of words -----

  predicate Less(a: string, b: string) {
    b != "" && (a == "" || a[0] < b[0] || (a[0] == b[0] && Less(a[1..], b[1..])))
  }

  lemma {:induction false} LessTotal(a: string, b: string)
    ensures Less(a, b) || a == b || Less(b, a)
    ensures !(Less(a, b) && Less(b, a)) && !Less(a, a)
    decreases |a|
  {
    if a != "" {
      LessTotal(a[1..], a[1..]);
      if b != "" {
        LessTotal(a[1..], b[1..]);
        assert a == [a[0]] + a[1..] && b == [b[0]] + b[1..];
      }
    }
  }

  lemma {:induction false} LessTransitive(a: string, b: string, c: string)
    requires Less(a, b) && Less(b, c)
    ensures Less(a, c)
  {
    if a != "" && a[0] == b[0] == c[0] {
      LessTransitive(a[1..], b[1..], c[1..]);
    }
  }

  // ----- counting -----

  /** The sum of the counts of `w`. */
  ghost function Weight(recs: seq<Rec>, w: string): nat {
    if recs == [] then 0
    else Weight(recs[..|recs| - 1], w) + if recs[|recs| - 1].word == w then recs[|recs| - 1].count else 0
  }

  lemma WeightPush(recs: seq<Rec>, x: Rec, w: string)
    ensures Weight(recs + [x], w) == Weight(recs, w) + if x.word == w then x.count else 0
    ensures Weight([], w) == 0
  {
    assert (recs + [x])[..|recs|] == recs;
  }

  lemma {:induction false} WeightConcat(a: seq<Rec>, b: seq<Rec>, w: string)
    ensures Weight(a + b, w) == Weight(a, w) + Weight(b, w)
  {
    if b == [] {
      assert a + b == a;
    } else {
      var n := |b| - 1;
      WeightConcat(a, b[..n], w);
      assert (a + b)[..|a + b| - 1] == a + b[..n];
    }
  }

  lemma WeightHead(x: Rec, recs: seq<Rec>, w: string)
    ensures Weight([x] + recs, w) == (if x.word == w then x.count else 0) + Weight(recs, w)
  {
    WeightConcat([x], recs, w);
    WeightPush([], x, w);
    assert [] + [x] == [x];
  }

  ghost predicate Mentions(recs: seq<Rec>, w: string) {
    exists i :: 0 <= i < |recs| && recs[i].word == w
  }

  ghost predicate Unique(recs: seq<Rec>) {
    forall i, j :: 0 <= i < j < |recs| ==> recs[i].word != recs[j].word
  }

  ghost predicate Positive(recs: seq<Rec>) {
    forall i :: 0 <= i < |recs| ==> recs[i].count > 0
  }

  ghost predicate NonIncreasing(recs: seq<Rec>) {
    forall i, j :: 0 <= i < j < |recs| ==> recs[i].count >= recs[j].count
  }

  lemma {:induction false} WeightNone(recs: seq<Rec>, w: string)
    requires !Mentions(recs, w)
    ensures Weight(recs, w) == 0
  {
    if recs != [] {
      var n := |recs| - 1;
      assert recs[n].word != w;
      assert forall i :: 0 <= i < n ==> recs[..n][i] == recs[i];
      WeightNone(recs[..n], w);
    }
  }

  lemma {:induction false} WeightAt(recs: seq<Rec>, i: nat)
    requires Unique(recs) && i < |recs|
    ensures Weight(recs, recs[i].word) == recs[i].count
  {
    var n := |recs| - 1;
    var w := recs[i].word;
    assert forall j :: 0 <= j < n ==> recs[..n][j] == recs[j];
    if i == n {
      WeightNone(recs[..n], w);
    } else {
      WeightAt(recs[..n], i);
    }
  }

  /** Every word of the text once, with the number of its occurrences, the more frequent first. */
  ghost predicate FrequencyList(words: seq<string>, out: seq<Rec>) {
    && Unique(out)
    && (forall w :: w in words <==> Mentions(out, w))
    && (forall i :: 0 <= i < |out| ==> out[i].count == Occurrences(words, out[i].word))
    && NonIncreasing(out)
  }

  lemma ByWeight(words: seq<string>, out: seq<Rec>)
    requires Unique(out) && Positive(out) && NonIncreasing(out)
    requires forall w :: Weight(out, w) == Occurrences(words, w)
    ensures FrequencyList(words, out)
  {
    forall w
      ensures w in words <==> Mentions(out, w)
    {
      OccurrencesMember(words, w);
      if Mentions(out, w) {
        var i: nat :| i < |out| && out[i].word == w;
        WeightAt(out, i);
      } else {
        WeightNone(out, w);
      }
    }
    forall i | 0 <= i < |out|
      ensures out[i].count == Occurrences(words, out[i].word)
    {
      WeightAt(out, i);
    }
  }

  lemma UniqueDistinct(recs: seq<Rec>)
    requires Unique(recs)
    ensures Distinct(recs)
  {
  }

  lemma {:induction false} SameRecords(words: seq<string>, a: seq<Rec>, b: seq<Rec>, x: Rec)
    requires FrequencyList(words, a) && FrequencyList(words, b) && x in a
    ensures x in b
  {
    hide Occurrences;
    assert Mentions(a, x.word);
    var j :| 0 <= j < |b| && b[j].word == x.word;
    assert b[j] == x;
  }

  lemma CountsAgree(words: seq<string>, a: seq<Rec>, b: seq<Rec>, i: nat)
    requires FrequencyList(words, a) && FrequencyList(words, b) && i < |a| && i < |b|
    ensures a[i].count <= b[i].count
  {
    hide Occurrences;
    if a[i].count > b[i].count {
      var top, above := a[..i + 1], b[..i];
      forall x | x in top
        ensures x in above
      {
        SameRecords(words, a, b, x);
        var j :| 0 <= j < |b| && b[j] == x;
        assert j < i;
        assert above[j] == x;
      }
      UniqueDistinct(top);
      UniqueDistinct(above);
      DistinctSize(top);
      DistinctSize(above);
      SubsetSize(Elements(top), Elements(above));
      assert false;
    }
  }

  /** Two lists by frequency of the same text differ only in the order of words that are as frequent. */
  lemma SameUpToTies(words: seq<string>, a: seq<Rec>, b: seq<Rec>)
    requires FrequencyList(words, a) && FrequencyList(words, b)
    ensures forall x :: x in a <==> x in b
    ensures |a| == |b| && forall i :: 0 <= i < |a| ==> a[i].count == b[i].count
  {
    hide FrequencyList;
    forall x
      ensures x in a <==> x in b
    {
      if x in a {
        SameRecords(words, a, b, x);
      }
      if x in b {
        SameRecords(words, b, a, x);
      }
    }
    assert Elements(a) == Elements(b);
    ListDistinct(words, a);
    ListDistinct(words, b);
    DistinctSize(a);
    DistinctSize(b);
    forall i | 0 <= i < |a|
      ensures a[i].count == b[i].count
    {
      CountsAgree(words, a, b, i);
      CountsAgree(words, b, a, i);
    }
  }

  lemma ListDistinct(words: seq<string>, a: seq<Rec>)
    requires FrequencyList(words, a)
    ensures Distinct(a)
  {
    UniqueDistinct(a);
  }
}
