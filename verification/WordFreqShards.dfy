/** Counting words with files for what does not fit in memory, by sharding while counting; and wholly in memory. */
module WordFreqShards {
  import opened Sequences
  import opened WordCounts
  import opened WordFreqSort

  ghost predicate InBucket(recs: seq<Rec>, hash: string -> nat, n: nat, b: nat)
    requires n > 0
  {
    forall i :: 0 <= i < |recs| ==> hash(recs[i].word) % n == b
  }

  class Sharder {
    const hash: string -> nat
    var buckets: seq<seq<Rec>>

    /** Every record is in the bucket of its word. */
    ghost predicate Valid()
      reads this
    {
      buckets != [] && forall b :: 0 <= b < |buckets| ==> InBucket(buckets[b], hash, |buckets|, b)
    }

    constructor (nbuckets: nat, hash: string -> nat)
      requires nbuckets > 0
      ensures Valid() && |buckets| == nbuckets && this.hash == hash
      ensures forall w :: Weight(Flat(buckets), w) == 0
    {
      this.hash := hash;
      buckets := Empty(nbuckets);
      NoneInEmpty(nbuckets);
    }

    method Output(word: string, count: nat)
      requires Valid()
      modifies this
      ensures Valid() && |buckets| == |old(buckets)|
      ensures forall w :: Weight(Flat(buckets), w) == Weight(Flat(old(buckets)), w) + if w == word then count else 0
    {
      hide Flat, Weight;
      var idx := hash(word) % |buckets|;
      BucketPush(buckets, idx, Rec(word, count));
      buckets := buckets[idx := buckets[idx] + [Rec(word, count)]];
    }
  }

  function Empty(n: nat): (b: seq<seq<Rec>>)
    ensures |b| == n && forall i :: 0 <= i < n ==> b[i] == []
  {
    if n == 0 then [] else Empty(n - 1) + [[]]
  }

  lemma {:induction false} NoneInEmpty(n: nat)
    ensures Flat(Empty(n)) == [] && forall w :: Weight(Flat(Empty(n)), w) == 0
  {
    if n > 0 {
      NoneInEmpty(n - 1);
      FlatPush(Empty(n - 1), []);
    }
  }

  lemma BucketPush(buckets: seq<seq<Rec>>, i: nat, r: Rec)
    requires i < |buckets|
    ensures forall w ::
            Weight(Flat(buckets[i := buckets[i] + [r]]), w) ==
            Weight(Flat(buckets), w) + if w == r.word then r.count else 0
  {
    forall w
      ensures Weight(Flat(buckets[i := buckets[i] + [r]]), w) ==
              Weight(Flat(buckets), w) + if w == r.word then r.count else 0
    {
      BucketWeight(buckets, i, r, w);
    }
  }

  lemma {:induction false} BucketWeight(buckets: seq<seq<Rec>>, i: nat, r: Rec, w: string)
    requires i < |buckets|
    ensures Weight(Flat(buckets[i := buckets[i] + [r]]), w) ==
            Weight(Flat(buckets), w) + if w == r.word then r.count else 0
  {
    hide Weight, Flat;
    var n := |buckets| - 1;
    var b' := buckets[i := buckets[i] + [r]];
    assert buckets == buckets[..n] + [buckets[n]];
    FlatPush(buckets[..n], buckets[n]);
    WeightConcat(Flat(buckets[..n]), buckets[n], w);
    if i == n {
      assert b' == buckets[..n] + [buckets[n] + [r]];
      FlatPush(buckets[..n], buckets[n] + [r]);
      WeightConcat(Flat(buckets[..n]), buckets[n] + [r], w);
      WeightPush(buckets[n], r, w);
    } else {
      BucketWeight(buckets[..n], i, r, w);
      assert b' == buckets[..n][i := buckets[i] + [r]] + [buckets[n]];
      FlatPush(buckets[..n][i := buckets[i] + [r]], buckets[n]);
      WeightConcat(Flat(buckets[..n][i := buckets[i] + [r]]), buckets[n], w);
    }
  }

  /** Puts the entries of the map into the buckets, in any order. */
  method Spread(sharder: Sharder, counts: Counts)
    requires sharder.Valid()
    modifies sharder
    ensures sharder.Valid() && |sharder.buckets| == |old(sharder.buckets)|
    ensures forall w :: Weight(Flat(sharder.buckets), w) == Weight(Flat(old(sharder.buckets)), w) + InMap(counts, w)
  {
    hide Flat, Weight;
    var todo := counts.Keys;
    while todo != {}
      invariant todo <= counts.Keys && sharder.Valid() && |sharder.buckets| == |old(sharder.buckets)|
      invariant forall w :: Weight(Flat(sharder.buckets), w) ==
                            Weight(Flat(old(sharder.buckets)), w) + if w in todo then 0 else InMap(counts, w)
      decreases |todo|
    {
      var w :| w in todo;
      sharder.Output(w, counts[w]);
      todo := todo - {w};
    }
  }

  method Shard(files: seq<TextFile>, limit: nat, nbuckets: nat, hash: string -> nat) returns (sharder: Sharder)
    requires nbuckets > 0
    ensures fresh(sharder) && sharder.Valid() && |sharder.buckets| == nbuckets && sharder.hash == hash
    ensures forall w :: Weight(Flat(sharder.buckets), w) == Occurrences(TextOf(files), w)
  {
    hide Flat, Weight, Occurrences, TextOf;
    sharder := new Sharder(nbuckets, hash);
    TextStart();
    for i := 0 to |files|
      invariant fresh(sharder) && sharder.Valid() && |sharder.buckets| == nbuckets
      invariant forall w :: Weight(Flat(sharder.buckets), w) == Occurrences(TextOf(files[..i]), w)
    {
      var pos, more := 0, true;
      ghost var before := TextOf(files[..i]);
      assert before + files[i].words[..0] == before;
      while more
        invariant pos <= |files[i].words| && (!more ==> pos == |files[i].words|)
        invariant fresh(sharder) && sharder.Valid() && |sharder.buckets| == nbuckets
        invariant forall w :: Weight(Flat(sharder.buckets), w) == Occurrences(before + files[i].words[..pos], w)
        decreases |files[i].words| - pos, more
      {
        var counts, next, again := ReadChunk(files[i], pos, limit);
        ChunkOccurrences(before, files[i].words, pos, next, counts);
        Spread(sharder, counts);
        pos, more := next, again;
      }
      assert files[i].words[..pos] == files[i].words;
      TextNext(files, i);
    }
    assert files[..|files|] == files;
  }

  lemma ChunkOccurrences(before: seq<string>, words: seq<string>, pos: nat, next: nat, counts: Counts)
    requires pos <= next <= |words| && Counted(words, pos, next, counts)
    ensures forall w ::
            Occurrences(before + words[..next], w) == Occurrences(before + words[..pos], w) + InMap(counts, w)
  {
    hide Occurrences;
    forall w
      ensures Occurrences(before + words[..next], w) == Occurrences(before + words[..pos], w) + InMap(counts, w)
    {
      OccurrencesConcat(before + words[..pos], words[pos..next], w);
      assert before + words[..next] == before + words[..pos] + words[pos..next];
    }
  }

  /** Adds up the counts of a shard. */
  method ReadShard(recs: seq<Rec>) returns (counts: Counts)
    ensures forall w :: InMap(counts, w) == Weight(recs, w)
    ensures forall w :: w in counts ==> counts[w] > 0 && Mentions(recs, w)
  {
    hide Weight, Mentions;
    counts := map[];
    TextStart();
    for i := 0 to |recs|
      invariant forall w :: InMap(counts, w) == Weight(recs[..i], w)
      invariant forall w :: w in counts ==> counts[w] > 0 && Mentions(recs, w)
    {
      var r := recs[i];
      ShardNext(recs, i);
      ghost var was := counts;
      if r.count > 0 {
        counts := counts[r.word := InMap(counts, r.word) + r.count];
      }
      assert forall w :: InMap(counts, w) == InMap(was, w) + if w == r.word then r.count else 0;
    }
    assert recs[..|recs|] == recs;
  }

  lemma ShardNext(recs: seq<Rec>, i: nat)
    requires i < |recs|
    ensures forall w ::
            Weight(recs[..i + 1], w) == Weight(recs[..i], w) + if w == recs[i].word then recs[i].count else 0
    ensures Mentions(recs, recs[i].word)
  {
    assert recs[..i + 1] == recs[..i] + [recs[i]];
    forall w
      ensures Weight(recs[..i + 1], w) == Weight(recs[..i], w) + if w == recs[i].word then recs[i].count else 0
    {
      WeightPush(recs[..i], recs[i], w);
    }
  }

  /** Every word is in the file of its bucket, with all its counts. */
  ghost predicate Sorted(files: seq<seq<Rec>>, buckets: seq<seq<Rec>>, hash: string -> nat) {
    && |files| <= |buckets|
    && forall b :: 0 <= b < |files| ==> SortedShard(files[b], buckets[b], hash, |buckets|, b)
  }

  ghost predicate SortedShard(f: seq<Rec>, bucket: seq<Rec>, hash: string -> nat, n: nat, b: nat)
    requires n > 0
  {
    && Unique(f) && CountsFall(f) && CountFile(f) && InBucket(f, hash, n, b)
    && forall w :: Weight(f, w) == Weight(bucket, w)
  }

  method SortShards(sharder: Sharder) returns (files: seq<seq<Rec>>)
    requires sharder.Valid()
    ensures |files| == |sharder.buckets| && Sorted(files, sharder.buckets, sharder.hash)
  {
    hide SortedShard, InBucket;
    files := [];
    for i := 0 to |sharder.buckets|
      invariant |files| == i && Sorted(files, sharder.buckets, sharder.hash)
    {
      var counts := ReadShard(sharder.buckets[i]);
      var recs := WordFreqSort.Output(counts);
      ShardSorted(recs, counts, sharder.buckets[i], sharder.hash, |sharder.buckets|, i);
      files := files + [recs];
    }
  }

  lemma ShardSorted(f: seq<Rec>, counts: Counts, bucket: seq<Rec>, hash: string -> nat, n: nat, b: nat)
    requires n > 0 && Lists(f, counts) && CountsFall(f) && InBucket(bucket, hash, n, b)
    requires forall w :: InMap(counts, w) == Weight(bucket, w)
    requires forall w :: w in counts ==> counts[w] > 0 && Mentions(bucket, w)
    ensures SortedShard(f, bucket, hash, n, b)
  {
    hide Weight, Less;
    forall w
      ensures Weight(f, w) == Weight(bucket, w)
    {
      ListsWeight(f, counts, w);
    }
    forall i | 0 <= i < |f|
      ensures hash(f[i].word) % n == b && f[i].count > 0
    {
      assert f[i].word in counts;
      var j :| 0 <= j < |bucket| && bucket[j].word == f[i].word;
    }
  }

  /** No word is in two files, so together they still list every word once, with its weight. */
  lemma {:induction false} ShardsFlat(files: seq<seq<Rec>>, buckets: seq<seq<Rec>>, hash: string -> nat, k: nat)
    requires Sorted(files, buckets, hash) && k <= |files| == |buckets|
    ensures Unique(Flat(files[..k])) && Positive(Flat(files[..k]))
    ensures forall w :: Weight(Flat(files[..k]), w) == Weight(Flat(buckets[..k]), w)
    ensures forall i :: 0 <= i < |Flat(files[..k])| ==> hash(Flat(files[..k])[i].word) % |buckets| < k
  {
    hide Flat, Weight;
    FlatPush([], []);
    if k == 0 {
      assert files[..0] == [] && buckets[..0] == [];
    } else {
      var j := k - 1;
      ShardsFlat(files, buckets, hash, j);
      assert files[..k] == files[..j] + [files[j]];
      assert buckets[..k] == buckets[..j] + [buckets[j]];
      FlatPush(files[..j], files[j]);
      FlatPush(buckets[..j], buckets[j]);
      assert SortedShard(files[j], buckets[j], hash, |buckets|, j);
      forall w
        ensures Weight(Flat(files[..k]), w) == Weight(Flat(buckets[..k]), w)
      {
        WeightConcat(Flat(files[..j]), files[j], w);
        WeightConcat(Flat(buckets[..j]), buckets[j], w);
      }
    }
  }

  /** Sharding gives the list of the words by frequency, whatever the hash function. */
  method ShardWords(files: seq<TextFile>, limit: nat, nbuckets: nat, hash: string -> nat) returns (out: seq<Rec>)
    requires nbuckets > 0
    ensures FrequencyList(TextOf(files), out)
  {
    hide Weight, Occurrences, Unique, Positive, NonIncreasing, CountFile, Flat;
    var sharder := Shard(files, limit, nbuckets, hash);
    var counts := SortShards(sharder);
    ghost var buckets := sharder.buckets;
    ShardsFlat(counts, buckets, hash, nbuckets);
    assert counts[..nbuckets] == counts && buckets[..nbuckets] == buckets;
    out := Merge(counts);
    MergedList(TextOf(files), Flat(counts), out);
  }

  /** The version that keeps everything in memory; the order of words that are as frequent is left open. */
  method CountInMemory(words: seq<string>) returns (out: seq<Rec>)
    ensures FrequencyList(words, out)
  {
    hide Weight, Occurrences, Lists;
    var counts: Counts := map[];
    NoneCounted(words, 0);
    for i := 0 to |words|
      invariant Counted(words, 0, i, counts)
    {
      ghost var before := counts;
      counts := counts[words[i] := InMap(counts, words[i]) + 1];
      CountNext(words, 0, i, before, counts);
    }
    assert words[0..|words|] == words;
    out := ByCount(counts);
    ListsFrequency(words, counts, out);
  }

  /** The entries of a map from the largest count down. */
  method ByCount(counts: Counts) returns (out: seq<Rec>)
    ensures Lists(out, counts) && NonIncreasing(out)
  {
    hide Lists;
    var todo := counts.Keys;
    out := [];
    assert counts - todo == map[];
    NoLists();
    while todo != {}
      invariant todo <= counts.Keys && Lists(out, counts - todo) && NonIncreasing(out)
      invariant forall i, w :: 0 <= i < |out| && w in todo ==> out[i].count >= counts[w]
      decreases |todo|
    {
      ghost var top := SomeTop(counts, todo);
      var w :| w in todo && forall v :: v in todo ==> counts[v] <= counts[w];
      ListsNext(out, counts - todo, w, counts[w]);
      assert (counts - todo)[w := counts[w]] == counts - (todo - {w});
      out := out + [Rec(w, counts[w])];
      todo := todo - {w};
    }
    assert counts - todo == counts;
  }

  lemma ListsFrequency(words: seq<string>, counts: Counts, out: seq<Rec>)
    requires Lists(out, counts) && NonIncreasing(out)
    requires forall w :: InMap(counts, w) == Occurrences(words, w)
    requires forall w :: w in counts ==> counts[w] > 0
    ensures FrequencyList(words, out)
  {
    hide Weight, Occurrences;
    forall w
      ensures Weight(out, w) == Occurrences(words, w)
    {
      ListsWeight(out, counts, w);
    }
    ByWeight(words, out);
  }
}
