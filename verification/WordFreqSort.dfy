/** Counting words with files for what does not fit in memory, by sorting while counting. */
module WordFreqSort {
  import opened Sequences
  import opened WordCounts
  import opened Sets

  /** A text file: its words, and whether there is white space after the last one. */
  datatype TextFile = TextFile(words: seq<string>, spaceAtEnd: bool)

  type Counts = map<string, nat>

  function InMap(m: Counts, w: string): nat {
    if w in m then m[w] else 0
  }

  ghost function TextOf(files: seq<TextFile>): seq<string> {
    if files == [] then [] else TextOf(files[..|files| - 1]) + files[|files| - 1].words
  }

  ghost predicate Words(files: seq<TextFile>) {
    forall f, w :: f in files && w in f.words ==> w != ""
  }

  ghost function Flat(files: seq<seq<Rec>>): seq<Rec> {
    if files == [] then [] else Flat(files[..|files| - 1]) + files[|files| - 1]
  }

  lemma FlatPush(files: seq<seq<Rec>>, f: seq<Rec>)
    ensures Flat(files + [f]) == Flat(files) + f && Flat([]) == []
  {
    assert (files + [f])[..|files|] == files;
  }

  // ----- counting -----

  /** The map counts the words from `i` to `j`. */
  ghost predicate Counted(words: seq<string>, i: nat, j: nat, m: Counts)
    requires i <= j <= |words|
  {
    && (forall w :: InMap(m, w) == Occurrences(words[i..j], w))
    && (forall w :: w in m ==> m[w] > 0 && w in words)
  }

  /** Reads and counts words until the map is too big or the file ends; the next round starts unless the file ended. */
  method ReadChunk(f: TextFile, start: nat, limit: nat) returns (counts: Counts, pos: nat, more: bool)
    requires start <= |f.words|
    ensures start <= pos <= |f.words| && Counted(f.words, start, pos, counts)
    ensures |counts| == |Elements(f.words[start..pos])| && (pos < |f.words| ==> |counts| > limit)
    ensures start < pos ==> |Elements(f.words[start..pos - 1])| <= limit && |counts| <= limit + 1
    ensures more <==> |counts| > limit && (pos < |f.words| || f.spaceAtEnd)
  {
    hide Counted, Elements;
    counts, pos, more := map[], start, false;
    NoneCounted(f.words, start);
    while pos < |f.words|
      invariant start <= pos <= |f.words| && Counted(f.words, start, pos, counts)
      invariant |Elements(f.words[start..pos])| <= limit
      invariant start < pos ==> |Elements(f.words[start..pos - 1])| <= limit
    {
      var word := f.words[pos];
      ghost var before := counts;
      counts := counts[word := (if word in counts then counts[word] else 0) + 1];
      CountedSize(f.words, start, pos, before);
      CountNext(f.words, start, pos, before, counts);
      KeysSize(before, word, counts[word]);
      pos := pos + 1;
      CountedSize(f.words, start, pos, counts);
      if |counts| > limit {
        more := pos < |f.words| || f.spaceAtEnd;
        return;
      }
    }
    CountedSize(f.words, start, pos, counts);
  }

  lemma NoneCounted(words: seq<string>, i: nat)
    requires i <= |words|
    ensures Counted(words, i, i, map[]) && |Elements(words[i..i])| == 0
  {
    assert words[i..i] == [];
  }

  lemma CountNext(words: seq<string>, i: nat, j: nat, m: Counts, m': Counts)
    requires i <= j < |words| && Counted(words, i, j, m)
    requires m' == m[words[j] := InMap(m, words[j]) + 1]
    ensures Counted(words, i, j + 1, m')
  {
    hide Occurrences;
    assert words[i..j + 1] == words[i..j] + [words[j]];
    forall w
      ensures InMap(m', w) == Occurrences(words[i..j + 1], w)
    {
      OccurrencesPush(words[i..j], words[j], w);
    }
  }

  /** The map has an entry for each different word. */
  lemma CountedSize(words: seq<string>, i: nat, j: nat, m: Counts)
    requires i <= j <= |words| && Counted(words, i, j, m)
    ensures |m| == |Elements(words[i..j])|
  {
    hide Occurrences;
    forall w
      ensures w in m <==> w in words[i..j]
    {
      OccurrencesMember(words[i..j], w);
    }
    assert m.Keys == Elements(words[i..j]);
    KeysSize(m, "", 0);
  }

  lemma KeysSize(m: Counts, w: string, n: nat)
    ensures |m| == |m.Keys|
    ensures |m[w := n]| == if w in m then |m| else |m| + 1
  {
    assert m[w := n].Keys == m.Keys + {w};
    SizeOfKeys(m);
    SizeOfKeys(m[w := n]);
  }

  lemma SizeOfKeys(m: Counts)
    ensures |m| == |m.Keys|
  {
  }

  ghost predicate WordsRise(recs: seq<Rec>) {
    forall i, j :: 0 <= i < j < |recs| ==> Less(recs[i].word, recs[j].word)
  }

  /** The records are the entries of the map, each once. */
  ghost predicate Lists(recs: seq<Rec>, m: Counts) {
    && Unique(recs)
    && (forall w :: w in m <==> Mentions(recs, w))
    && (forall i :: 0 <= i < |recs| ==> recs[i].word in m && recs[i].count == m[recs[i].word])
  }

  lemma ListsNext(recs: seq<Rec>, m: Counts, w: string, n: nat)
    requires Lists(recs, m) && w !in m
    ensures Lists(recs + [Rec(w, n)], m[w := n])
  {
    var r := recs + [Rec(w, n)];
    forall v
      ensures v in m[w := n] <==> Mentions(r, v)
    {
      assert Mentions(recs, v) ==> Mentions(r, v) by {
        if i :| 0 <= i < |recs| && recs[i].word == v {
          assert r[i].word == v;
        }
      }
      assert r[|recs|].word == w;
      if Mentions(r, v) && v != w {
        var i :| 0 <= i < |r| && r[i].word == v;
        assert recs[i].word == v;
      }
    }
    forall i, j | 0 <= i < j < |r|
      ensures r[i].word != r[j].word
    {
      assert r[i] == recs[i];
      assert Mentions(recs, recs[i].word);
    }
  }

  lemma ListsWeight(recs: seq<Rec>, m: Counts, w: string)
    requires Lists(recs, m)
    ensures Weight(recs, w) == InMap(m, w)
  {
    if w in m {
      assert Mentions(recs, w);
      var i: nat :| i < |recs| && recs[i].word == w;
      WeightAt(recs, i);
    } else {
      WeightNone(recs, w);
    }
  }

  // ----- writing a map out -----

  lemma {:induction false} SomeFirst(s: set<string>) returns (w: string)
    requires s != {}
    ensures w in s && forall v :: v in s ==> !Less(v, w)
    decreases |s|
  {
    w :| w in s;
    LessTotal(w, w);
    if s - {w} != {} {
      var v := SomeFirst(s - {w});
      LessTotal(v, w);
      if Less(v, w) {
        w := v;
      } else {
        forall u | u in s
          ensures !Less(u, w)
        {
          if u != w && Less(u, w) && v != w {
            LessTotal(u, v);
            LessTransitive(u, w, v);
          }
        }
      }
    }
  }

  /** The entries of an ordered map from the first word to the last. */
  method WriteSegment(counts: Counts) returns (recs: seq<Rec>)
    ensures Lists(recs, counts) && WordsRise(recs) && |recs| == |counts|
  {
    hide Lists, Less;
    var todo := counts.Keys;
    recs := [];
    assert counts - todo == map[];
    NoLists();
    while todo != {}
      invariant todo <= counts.Keys && Lists(recs, counts - todo) && WordsRise(recs) && |recs| + |todo| == |counts|
      invariant forall i, w :: 0 <= i < |recs| && w in todo ==> Less(recs[i].word, w)
      decreases |todo|
    {
      ghost var first := SomeFirst(todo);
      var w :| w in todo && forall v :: v in todo ==> !Less(v, w);
      ListsNext(recs, counts - todo, w, counts[w]);
      assert (counts - todo)[w := counts[w]] == counts - (todo - {w});
      recs := recs + [Rec(w, counts[w])];
      todo := todo - {w};
      forall v | v in todo
        ensures Less(w, v)
      {
        LessTotal(v, w);
      }
    }
    assert counts - todo == counts;
  }

  lemma NoLists()
    ensures Lists([], map[])
  {
  }

  /** How many segments hold no more words than the limit. */
  ghost function Small(segments: seq<seq<Rec>>, limit: nat): nat {
    if segments == [] then 0
    else Small(segments[..|segments| - 1], limit) + if |segments[|segments| - 1]| <= limit then 1 else 0
  }

  lemma SmallPush(segments: seq<seq<Rec>>, recs: seq<Rec>, limit: nat)
    ensures Small(segments + [recs], limit) == Small(segments, limit) + if |recs| <= limit then 1 else 0
  {
    assert (segments + [recs])[..|segments|] == segments;
  }

  /** Every segment but the last one of a file holds a word more than the limit. */
  method Input(files: seq<TextFile>, limit: nat) returns (segments: seq<seq<Rec>>)
    requires Words(files)
    ensures forall w :: Weight(Flat(segments), w) == Occurrences(TextOf(files), w)
    ensures forall s :: s in segments ==> WordsRise(s) && Proper(s) && |s| <= limit + 1
    ensures Small(segments, limit) <= |files|
  {
    segments := [];
    TextStart();
    assert Small([], limit) == 0;
    hide Small, Weight, Occurrences, Flat, TextOf, WordsRise, Proper, Lists;
    for i := 0 to |files|
      invariant forall w :: Weight(Flat(segments), w) == Occurrences(TextOf(files[..i]), w)
      invariant forall s :: s in segments ==> WordsRise(s) && Proper(s) && |s| <= limit + 1
      invariant Small(segments, limit) <= i
    {
      var pos, more := 0, true;
      assert files[i].words[..0] == [];
      ghost var before := TextOf(files[..i]);
      assert before + files[i].words[..0] == before;
      while more
        invariant pos <= |files[i].words| && (!more ==> pos == |files[i].words|)
        invariant forall w :: Weight(Flat(segments), w) == Occurrences(before + files[i].words[..pos], w)
        invariant forall s :: s in segments ==> WordsRise(s) && Proper(s) && |s| <= limit + 1
        invariant Small(segments, limit) <= if more then i else i + 1
        decreases |files[i].words| - pos, more
      {
        var counts, next, again := ReadChunk(files[i], pos, limit);
        var recs := WriteSegment(counts);
        ListsProper(recs, counts);
        ChunkWritten(segments, recs, counts, before, files[i].words, pos, next);
        SmallPush(segments, recs, limit);
        segments := segments + [recs];
        pos, more := next, again;
      }
      assert files[i].words[..pos] == files[i].words;
      TextNext(files, i);
    }
    assert files[..|files|] == files;
  }

  /** Words that are not empty, with counts that are not 0. */
  ghost predicate Proper(recs: seq<Rec>) {
    forall i :: 0 <= i < |recs| ==> recs[i].word != "" && recs[i].count > 0
  }

  lemma ListsProper(recs: seq<Rec>, m: Counts)
    requires Lists(recs, m) && forall w :: w in m ==> w != "" && m[w] > 0
    ensures Proper(recs)
  {
  }

  lemma TextStart()
    ensures TextOf([]) == [] && Flat([]) == [] && (forall w :: Weight([], w) == 0 && Occurrences([], w) == 0)
  {
  }

  lemma TextNext(files: seq<TextFile>, i: nat)
    requires i < |files|
    ensures TextOf(files[..i + 1]) == TextOf(files[..i]) + files[i].words
  {
    assert files[..i + 1][..i] == files[..i];
  }

  lemma ChunkWritten(segments: seq<seq<Rec>>, recs: seq<Rec>, counts: Counts, before: seq<string>, words: seq<string>,
                     pos: nat, next: nat)
    requires pos <= next <= |words| && Lists(recs, counts)
    requires forall w :: Weight(Flat(segments), w) == Occurrences(before + words[..pos], w)
    requires Counted(words, pos, next, counts)
    ensures forall w :: Weight(Flat(segments + [recs]), w) == Occurrences(before + words[..next], w)
  {
    hide Weight, Occurrences, Lists;
    FlatPush(segments, recs);
    forall w
      ensures Weight(Flat(segments + [recs]), w) == Occurrences(before + words[..next], w)
    {
      WeightConcat(Flat(segments), recs, w);
      ListsWeight(recs, counts, w);
      OccurrencesConcat(before + words[..pos], words[pos..next], w);
      assert before + words[..next] == before + words[..pos] + words[pos..next];
    }
  }

  // ----- reading many files at once -----

  /** An open file: the record just read and what is still to be read. */
  datatype Cursor = Cursor(rec: Rec, rest: seq<Rec>)

  function Recs(k: Cursor): seq<Rec> {
    [k.rec] + k.rest
  }

  /** All that the open files still hold. */
  ghost function Rest(keys: seq<Cursor>): seq<Rec> {
    if keys == [] then [] else Rest(keys[..|keys| - 1]) + Recs(keys[|keys| - 1])
  }

  /** The open files after the record of one of them is used up. */
  function Advance(keys: seq<Cursor>, i: nat): seq<Cursor>
    requires i < |keys|
  {
    var rest := keys[i].rest;
    if rest == [] then Without(keys, i) else keys[i := Cursor(rest[0], rest[1..])]
  }

  lemma RestPush(keys: seq<Cursor>, k: Cursor)
    ensures Rest(keys + [k]) == Rest(keys) + Recs(k) && Rest([]) == []
  {
    assert (keys + [k])[..|keys|] == keys;
  }

  lemma {:induction false} RestWithout(keys: seq<Cursor>, i: nat)
    requires i < |keys|
    ensures multiset(Rest(keys)) == multiset(Rest(Without(keys, i))) + multiset(Recs(keys[i]))
  {
    hide Rest, Recs;
    var n := |keys| - 1;
    assert keys == keys[..n] + [keys[n]];
    RestPush(keys[..n], keys[n]);
    if i < n {
      RestWithout(keys[..n], i);
      assert Without(keys, i) == Without(keys[..n], i) + [keys[n]];
      RestPush(Without(keys[..n], i), keys[n]);
    } else {
      assert Without(keys, i) == keys[..n];
    }
  }

  lemma RecsParts(k: Cursor)
    ensures multiset(Recs(k)) == multiset{k.rec} + multiset(k.rest)
    ensures k.rest == [] ==> multiset(k.rest) == multiset{}
  {
  }

  lemma RestAdvance(keys: seq<Cursor>, i: nat)
    requires i < |keys|
    ensures multiset(Rest(keys)) == multiset(Rest(Advance(keys, i))) + multiset{keys[i].rec}
  {
    hide Rest, Recs, Without;
    RestWithout(keys, i);
    var k := keys[i];
    RecsParts(k);
    if k.rest != [] {
      var k' := Cursor(k.rest[0], k.rest[1..]);
      RestWithout(keys[i := k'], i);
      assert Without(keys[i := k'], i) == Without(keys, i);
      OpenRecs(k.rest, k');
    }
  }

  /** Weights do not depend on the order. */
  lemma {:induction false} WeightReordered(a: seq<Rec>, b: seq<Rec>, w: string)
    requires multiset(a) == multiset(b)
    ensures Weight(a, w) == Weight(b, w)
    decreases |a|
  {
    assert |multiset(a)| == |a| && |multiset(b)| == |b|;
    if a == [] {
      assert b == [];
    } else {
      hide Weight;
      var n := |a| - 1;
      assert a[n] in multiset(b);
      var i: nat :| i < |b| && b[i] == a[n];
      assert a == a[..n] + [a[n]];
      WithoutElement(b, i);
      OneLess(multiset(a[..n]), multiset(Without(b, i)), a[n]);
      WeightReordered(a[..n], Without(b, i), w);
      WeightPush(a[..n], a[n], w);
      WeightWithout(b, i, w);
    }
  }

  lemma WeightWithout(b: seq<Rec>, i: nat, w: string)
    requires i < |b|
    ensures Weight(b, w) == Weight(Without(b, i), w) + if b[i].word == w then b[i].count else 0
  {
    hide Weight;
    assert b == b[..i] + ([b[i]] + b[i + 1..]);
    WeightConcat(b[..i], [b[i]] + b[i + 1..], w);
    WeightConcat(b[..i], b[i + 1..], w);
    WeightHead(b[i], b[i + 1..], w);
  }

  lemma WeightAdvance(keys: seq<Cursor>, i: nat, w: string)
    requires i < |keys|
    ensures Weight(Rest(keys), w) ==
            Weight(Rest(Advance(keys, i)), w) + if keys[i].rec.word == w then keys[i].rec.count else 0
  {
    hide Weight, Rest, Advance;
    RestAdvance(keys, i);
    WeightReordered(Rest(keys), Rest(Advance(keys, i)) + [keys[i].rec], w);
    WeightPush(Rest(Advance(keys, i)), keys[i].rec, w);
  }

  /** Opens the files that hold a record. */
  method OpenAll(files: seq<seq<Rec>>) returns (keys: seq<Cursor>)
    ensures Rest(keys) == Flat(files)
    ensures forall k :: k in keys ==> Recs(k) in files
  {
    hide Rest, Flat, Recs;
    keys := [];
    FlatPush([], []);
    RestPush([], Cursor(Rec("", 0), []));
    for i := 0 to |files|
      invariant Rest(keys) == Flat(files[..i])
      invariant forall k :: k in keys ==> Recs(k) in files
    {
      assert files[..i + 1] == files[..i] + [files[i]];
      FlatPush(files[..i], files[i]);
      if files[i] != [] {
        var k := Cursor(files[i][0], files[i][1..]);
        OpenRecs(files[i], k);
        RestPush(keys, k);
        keys := keys + [k];
      }
    }
    assert files[..|files|] == files;
  }

  lemma OpenRecs(f: seq<Rec>, k: Cursor)
    requires f != [] && k == Cursor(f[0], f[1..])
    ensures Recs(k) == f
  {
  }

  ghost predicate CountsFall(recs: seq<Rec>) {
    forall i, j :: 0 <= i < j < |recs| ==>
      recs[i].count > recs[j].count || (recs[i].count == recs[j].count && Less(recs[j].word, recs[i].word))
  }

  predicate Outranks(m: Counts, v: string, w: string)
    requires v in m && w in m
  {
    m[v] > m[w] || (m[v] == m[w] && Less(w, v))
  }

  lemma NotOutranked(m: Counts, u: string, v: string, w: string)
    requires u in m && v in m && w in m && !Outranks(m, u, v) && !Outranks(m, v, w)
    ensures !Outranks(m, u, w)
  {
    hide Less;
    LessTotal(u, v);
    LessTotal(v, w);
    LessTotal(u, w);
    if Less(w, u) && Less(u, v) {
      LessTransitive(w, u, v);
    }
  }

  lemma {:induction false} SomeTop(m: Counts, s: set<string>) returns (w: string)
    requires s != {} && s <= m.Keys
    ensures w in s && forall v :: v in s ==> !Outranks(m, v, w)
    decreases |s|
  {
    hide Outranks;
    var x :| x in s;
    var rest := s - {x};
    TopOfOne(m, x);
    w := x;
    if rest != {} {
      var v := SomeTop(m, rest);
      if Outranks(m, v, x) {
        TopOfTwo(m, v, x);
      }
      w := if Outranks(m, v, x) then v else x;
      forall u | u in s
        ensures !Outranks(m, u, w)
      {
        if u != x && w == x {
          NotOutranked(m, u, v, x);
        }
      }
    } else {
      assert forall v :: v in s ==> v == x || v in rest;
    }
  }

  lemma TopOfOne(m: Counts, w: string)
    requires w in m
    ensures !Outranks(m, w, w)
  {
    LessTotal(w, w);
  }

  lemma TopOfTwo(m: Counts, v: string, w: string)
    requires v in m && w in m && Outranks(m, v, w)
    ensures !Outranks(m, w, v)
  {
    hide Less;
    LessTotal(v, w);
  }

  /** The entries of a map sorted by count and word and written in reverse. */
  method Output(counts: Counts) returns (recs: seq<Rec>)
    ensures Lists(recs, counts) && CountsFall(recs) && |recs| == |counts|
  {
    hide Lists, Less;
    var todo := counts.Keys;
    recs := [];
    assert counts - todo == map[];
    NoLists();
    while todo != {}
      invariant todo <= counts.Keys && Lists(recs, counts - todo) && CountsFall(recs) && |recs| + |todo| == |counts|
      invariant forall i, w :: 0 <= i < |recs| && w in todo ==>
                  recs[i].count > counts[w] || (recs[i].count == counts[w] && Less(w, recs[i].word))
      decreases |todo|
    {
      ghost var top := SomeTop(counts, todo);
      var w :| w in todo && forall v :: v in todo ==> !Outranks(counts, v, w);
      ListsNext(recs, counts - todo, w, counts[w]);
      assert (counts - todo)[w := counts[w]] == counts - (todo - {w});
      recs := recs + [Rec(w, counts[w])];
      todo := todo - {w};
      forall v | v in todo
        ensures counts[w] > counts[v] || (counts[w] == counts[v] && Less(v, w))
      {
        assert !Outranks(counts, v, w);
        LessTotal(v, w);
      }
    }
    assert counts - todo == counts;
  }

  // ----- merging the count files -----

  /** A count file: the more frequent words first, and no count of 0. */
  ghost predicate CountFile(recs: seq<Rec>) {
    NonIncreasing(recs) && Positive(recs)
  }

  ghost predicate CountKeys(keys: seq<Cursor>) {
    forall k :: k in keys ==> CountFile(Recs(k))
  }

  ghost predicate Above(out: seq<Rec>, keys: seq<Cursor>) {
    forall i, j :: 0 <= i < |out| && 0 <= j < |keys| ==> out[i].count >= keys[j].rec.count
  }

  /** Whether a count file gives another record: it stops at a count that is not positive. */
  predicate HasNext(rest: seq<Rec>) {
    rest != [] && rest[0].count > 0
  }

  predicate Greatest(keys: seq<Cursor>, i: nat) {
    i < |keys| && forall j :: 0 <= j < |keys| ==> keys[j].rec.count <= keys[i].rec.count
  }

  lemma {:induction false} SomeGreatest(keys: seq<Cursor>) returns (i: nat)
    requires keys != []
    ensures Greatest(keys, i)
  {
    var n := |keys| - 1;
    i := n;
    if n > 0 {
      var j := SomeGreatest(keys[..n]);
      assert forall m :: 0 <= m < n ==> keys[m] == keys[..n][m];
      i := if keys[n].rec.count >= keys[j].rec.count then n else j;
    }
  }

  lemma NextRecord(k: Cursor)
    requires CountFile(Recs(k))
    ensures k.rec.count > 0 && (HasNext(k.rest) <==> k.rest != [])
    ensures k.rest != [] ==>
              var k' := Cursor(k.rest[0], k.rest[1..]);
              Recs(k') == k.rest && CountFile(Recs(k')) && k'.rec.count <= k.rec.count
  {
    var all := Recs(k);
    assert all[0] == k.rec;
    assert forall i :: 0 <= i < |k.rest| ==> all[i + 1] == k.rest[i];
  }

  /** The greatest of the first records goes to the output, and everything still to come is no greater. */
  lemma MergeStep(out: seq<Rec>, keys: seq<Cursor>, i: nat)
    requires NonIncreasing(out) && CountKeys(keys) && Above(out, keys) && Greatest(keys, i)
    ensures NonIncreasing(out + [keys[i].rec]) && CountKeys(Advance(keys, i))
    ensures Above(out + [keys[i].rec], Advance(keys, i))
    ensures HasNext(keys[i].rest) <==> keys[i].rest != []
  {
    hide Recs, CountFile;
    var k := keys[i];
    assert k in keys;
    NextRecord(k);
    var keys' := Advance(keys, i);
    forall m | m in keys'
      ensures CountFile(Recs(m))
    {
      if k.rest != [] && m == Cursor(k.rest[0], k.rest[1..]) {
      } else {
        assert m in keys;
      }
    }
    forall j | 0 <= j < |keys'|
      ensures keys'[j].rec.count <= k.rec.count
    {
      if k.rest == [] {
        assert keys'[j] == keys[if j < i then j else j + 1];
      } else if j != i {
        assert keys'[j] == keys[j];
      }
    }
  }

  /** Writes out the greatest of the first records, again and again. */
  method Merge(files: seq<seq<Rec>>) returns (out: seq<Rec>)
    requires forall f :: f in files ==> CountFile(f)
    ensures multiset(out) == multiset(Flat(files)) && NonIncreasing(out)
  {
    hide Rest, Flat, CountFile, Recs, Advance;
    var keys := OpenAll(files);
    out := [];
    while keys != []
      invariant multiset(out) + multiset(Rest(keys)) == multiset(Flat(files))
      invariant NonIncreasing(out) && CountKeys(keys) && Above(out, keys)
      decreases |Rest(keys)|
    {
      ghost var top := SomeGreatest(keys);
      var i: nat :| i < |keys| && Greatest(keys, i);
      RestAdvance(keys, i);
      MergeStep(out, keys, i);
      AdvanceSplit(keys, i);
      SizeOfBag(Rest(Advance(keys, i)), Rest(keys), keys[i].rec);
      out := out + [keys[i].rec];
      if HasNext(keys[i].rest) {
        keys := keys[i := Cursor(keys[i].rest[0], keys[i].rest[1..])];
      } else {
        keys := Without(keys, i);
      }
    }
    RestPush([], Cursor(Rec("", 0), []));
  }

  lemma AdvanceSplit(keys: seq<Cursor>, i: nat)
    requires i < |keys|
    ensures var rest := keys[i].rest;
            Advance(keys, i) == if rest == [] then Without(keys, i) else keys[i := Cursor(rest[0], rest[1..])]
  {
  }

  lemma SizeOfBag(a: seq<Rec>, b: seq<Rec>, x: Rec)
    requires multiset(b) == multiset(a) + multiset{x}
    ensures |a| + 1 == |b|
  {
    assert |multiset(a)| == |a| && |multiset(b)| == |b|;
  }

  // ----- combining the segments -----

  ghost predicate Segments(keys: seq<Cursor>, last: string) {
    forall k :: k in keys ==> WordsRise(Recs(k)) && Proper(Recs(k)) && !Less(k.rec.word, last)
  }

  predicate FirstWord(keys: seq<Cursor>, i: nat) {
    i < |keys| && forall j :: 0 <= j < |keys| ==> !Less(keys[j].rec.word, keys[i].rec.word)
  }

  lemma {:induction false} SomeFirstWord(keys: seq<Cursor>) returns (i: nat)
    requires keys != []
    ensures FirstWord(keys, i)
  {
    var n := |keys| - 1;
    i := n;
    LessTotal(keys[n].rec.word, keys[n].rec.word);
    if n > 0 {
      var j := SomeFirstWord(keys[..n]);
      assert forall m :: 0 <= m < n ==> keys[m] == keys[..n][m];
      LessTotal(keys[n].rec.word, keys[j].rec.word);
      if Less(keys[n].rec.word, keys[j].rec.word) {
        forall m | 0 <= m < |keys|
          ensures !Less(keys[m].rec.word, keys[n].rec.word)
        {
          if m < n && Less(keys[m].rec.word, keys[n].rec.word) {
            LessTransitive(keys[m].rec.word, keys[n].rec.word, keys[j].rec.word);
          }
        }
      } else {
        i := j;
      }
    }
  }

  /** The files written so far: whole words, all before `last`, each in one file. */
  ghost predicate Written(files: seq<seq<Rec>>, counts: Counts, last: string) {
    && (forall f :: f in files ==> CountFile(f))
    && Unique(Flat(files)) && Positive(Flat(files))
    && (forall i :: 0 <= i < |Flat(files)| ==> Less(Flat(files)[i].word, last) && Flat(files)[i].word !in counts)
    && (forall w :: w in counts ==> counts[w] > 0 && !Less(last, w))
  }

  ghost predicate Kept(total: seq<Rec>, files: seq<seq<Rec>>, counts: Counts, keys: seq<Cursor>) {
    forall w :: Weight(Flat(files), w) + InMap(counts, w) + Weight(Rest(keys), w) == Weight(total, w)
  }

  lemma SegmentsAdvance(keys: seq<Cursor>, i: nat, last: string)
    requires Segments(keys, last) && FirstWord(keys, i)
    ensures keys[i].rec.word != "" && keys[i].rec.count > 0
    ensures keys[i].rec.word == last || Less(last, keys[i].rec.word)
    ensures Segments(Advance(keys, i), keys[i].rec.word)
  {
    hide Recs, WordsRise, Proper, Less;
    var k := keys[i];
    assert k in keys;
    LessTotal(k.rec.word, last);
    NextSegment(k);
    var keys' := Advance(keys, i);
    forall m | m in keys'
      ensures WordsRise(Recs(m)) && Proper(Recs(m)) && !Less(m.rec.word, k.rec.word)
    {
      if k.rest != [] && m == Cursor(k.rest[0], k.rest[1..]) {
      } else {
        assert m in keys;
        var j :| 0 <= j < |keys| && keys[j] == m;
      }
    }
  }

  lemma NextSegment(k: Cursor)
    requires WordsRise(Recs(k)) && Proper(Recs(k))
    ensures k.rec.word != "" && k.rec.count > 0
    ensures k.rest != [] ==>
              var k' := Cursor(k.rest[0], k.rest[1..]);
              WordsRise(Recs(k')) && Proper(Recs(k')) && !Less(k'.rec.word, k.rec.word)
  {
    hide Less;
    var all := Recs(k);
    assert all[0] == k.rec;
    assert forall i :: 0 <= i < |k.rest| ==> all[i + 1] == k.rest[i];
    if k.rest != [] {
      LessTotal(k.rec.word, k.rest[0].word);
      assert Recs(Cursor(k.rest[0], k.rest[1..])) == k.rest;
    }
  }

  /** A full map is written to a file when the word changes: its words are all before the next. */
  lemma WrittenOut(files: seq<seq<Rec>>, counts: Counts, last: string, recs: seq<Rec>, w: string)
    requires Written(files, counts, last) && Lists(recs, counts) && CountsFall(recs)
    requires Less(last, w)
    ensures Written(files + [recs], map[], w)
  {
    hide Less;
    FlatPush(files, recs);
    var flat, all := Flat(files), Flat(files) + recs;
    forall i | 0 <= i < |all|
      ensures Less(all[i].word, w) && all[i].count > 0
    {
      LessTotal(last, all[i].word);
      if i < |flat| {
        LessTransitive(flat[i].word, last, w);
      } else if all[i].word != last {
        LessTransitive(all[i].word, last, w);
      }
    }
  }

  /** The word changes but the map is kept, or does not change. */
  lemma WrittenMore(files: seq<seq<Rec>>, counts: Counts, last: string, w: string, n: nat)
    requires Written(files, counts, last) && (w == last || Less(last, w)) && n > 0
    ensures Written(files, counts[w := InMap(counts, w) + n], w)
  {
    hide Less, CountFile;
    var flat := Flat(files);
    LessTotal(w, w);
    forall i | 0 <= i < |flat|
      ensures Less(flat[i].word, w) && flat[i].word != w
    {
      if w != last {
        LessTransitive(flat[i].word, last, w);
      }
    }
    forall v | v in counts
      ensures !Less(w, v)
    {
      if w != last && Less(w, v) {
        LessTransitive(last, w, v);
      }
    }
  }

  lemma KeptOut(total: seq<Rec>, files: seq<seq<Rec>>, counts: Counts, keys: seq<Cursor>, recs: seq<Rec>)
    requires Kept(total, files, counts, keys) && Lists(recs, counts)
    ensures Kept(total, files + [recs], map[], keys)
  {
    hide Weight, Rest, Lists;
    FlatPush(files, recs);
    forall w
      ensures Weight(Flat(files + [recs]), w) + InMap(map[], w) + Weight(Rest(keys), w) == Weight(total, w)
    {
      WeightConcat(Flat(files), recs, w);
      ListsWeight(recs, counts, w);
    }
  }

  lemma KeptCount(total: seq<Rec>, files: seq<seq<Rec>>, counts: Counts, keys: seq<Cursor>, i: nat)
    requires Kept(total, files, counts, keys) && i < |keys|
    ensures var r := keys[i].rec;
            Kept(total, files, counts[r.word := InMap(counts, r.word) + r.count], Advance(keys, i))
  {
    hide Weight, Rest, Flat, Advance;
    var r := keys[i].rec;
    var counts' := counts[r.word := InMap(counts, r.word) + r.count];
    forall w
      ensures Weight(Flat(files), w) + InMap(counts', w) + Weight(Rest(Advance(keys, i)), w) == Weight(total, w)
    {
      WeightAdvance(keys, i, w);
    }
  }

  /** The map holds at most one word more than the limit, the last one read among them. */
  ghost predicate Roomy(counts: Counts, last: string, limit: nat) {
    |counts| <= limit + 1 && if counts == map[] then last == "" else last in counts
  }

  lemma RoomyStart(limit: nat)
    ensures Roomy(map[], "", limit)
  {
  }

  lemma RoomyFull(counts: Counts, last: string, limit: nat)
    requires Roomy(counts, last, limit) && |counts| > limit
    ensures |counts| == limit + 1
  {
  }

  lemma RoomySize(counts: Counts, last: string, limit: nat)
    requires Roomy(counts, last, limit) && counts != map[]
    ensures 0 < |counts| <= limit + 1
  {
    assert last in counts;
  }

  lemma RoomyNext(was: Counts, last: string, counts: Counts, word: string, n: nat, limit: nat)
    requires Roomy(was, last, limit) && word != ""
    requires counts == if word != last && |was| > limit then map[] else was
    ensures Roomy(counts[word := n], word, limit)
  {
    KeysSize(counts, word, n);
  }

  /** Merges the segments by word, adding up the counts, and starts a new file when the map is too big at a new word. */
  method Combine(segments: seq<seq<Rec>>, limit: nat) returns (files: seq<seq<Rec>>)
    requires forall s :: s in segments ==> WordsRise(s) && Proper(s)
    ensures forall f :: f in files ==> CountFile(f) && CountsFall(f)
    ensures Unique(Flat(files)) && Positive(Flat(files))
    ensures forall w :: Weight(Flat(files), w) == Weight(Flat(segments), w)
    ensures forall i :: 0 <= i < |files| ==>
              0 < |files[i]| <= limit + 1 && (i < |files| - 1 ==> |files[i]| == limit + 1)
  {
    hide Rest, Recs, Advance, Less, Kept, Written, Segments, Lists, CountsFall, Weight, Roomy;
    ghost var total := Flat(segments);
    var keys := OpenAll(segments);
    var last := "";
    var counts: Counts := map[];
    files := [];
    CombineStart(segments, keys);
    RoomyStart(limit);
    while keys != []
      invariant Kept(total, files, counts, keys)
      invariant Segments(keys, last) && Written(files, counts, last)
      invariant Roomy(counts, last, limit)
      invariant forall f :: f in files ==> |f| == limit + 1 && CountsFall(f)
      decreases |Rest(keys)|
    {
      ghost var first := SomeFirstWord(keys);
      var i: nat :| i < |keys| && FirstWord(keys, i);
      var r := keys[i].rec;
      RestAdvance(keys, i);
      SizeOfBag(Rest(Advance(keys, i)), Rest(keys), r);
      SegmentsAdvance(keys, i, last);
      ghost var before := last;
      ghost var until, was := last, counts;
      if r.word != last {
        last := r.word;
        if |counts| > limit {
          RoomyFull(counts, until, limit);
          var recs := Output(counts);
          WrittenOut(files, counts, until, recs, last);
          KeptOut(total, files, counts, keys, recs);
          files := files + [recs];
          counts := map[];
          until := last;
        }
      }
      WrittenMore(files, counts, until, last, r.count);
      KeptCount(total, files, counts, keys, i);
      RoomyNext(was, before, counts, r.word, InMap(counts, r.word) + r.count, limit);
      counts := counts[r.word := InMap(counts, r.word) + r.count];
      AdvanceSplit(keys, i);
      if keys[i].rest != [] {
        keys := keys[i := Cursor(keys[i].rest[0], keys[i].rest[1..])];
      } else {
        keys := Without(keys, i);
      }
    }
    if counts != map[] {
      var recs := Output(counts);
      LongerLess(last);
      RoomySize(counts, last, limit);
      WrittenOut(files, counts, last, recs, last + ['a']);
      KeptOut(total, files, counts, keys, recs);
      files := files + [recs];
      counts := map[];
    }
    CombineEnd(total, files, keys, counts, last);
  }

  lemma CombineStart(segments: seq<seq<Rec>>, keys: seq<Cursor>)
    requires forall s :: s in segments ==> WordsRise(s) && Proper(s)
    requires Rest(keys) == Flat(segments) && forall k :: k in keys ==> Recs(k) in segments
    ensures Kept(Flat(segments), [], map[], keys) && Segments(keys, "") && Written([], map[], "")
  {
  }

  lemma CombineEnd(total: seq<Rec>, files: seq<seq<Rec>>, keys: seq<Cursor>, counts: Counts, last: string)
    requires Kept(total, files, counts, keys) && keys == [] && counts == map[]
    requires exists w :: Written(files, counts, w)
    ensures forall f :: f in files ==> CountFile(f)
    ensures Unique(Flat(files)) && Positive(Flat(files))
    ensures forall w :: Weight(Flat(files), w) == Weight(total, w)
  {
    forall w
      ensures Weight(Flat(files), w) == Weight(total, w)
    {
      assert Weight(Flat(files), w) + InMap(counts, w) + Weight(Rest(keys), w) == Weight(total, w);
    }
  }

  lemma {:induction false} LongerLess(w: string)
    ensures Less(w, w + ['a'])
  {
    if w != "" {
      LongerLess(w[1..]);
      assert (w + ['a'])[1..] == w[1..] + ['a'];
    }
  }

  // ----- the whole pipeline -----

  lemma MergedList(words: seq<string>, flat: seq<Rec>, out: seq<Rec>)
    requires multiset(out) == multiset(flat) && NonIncreasing(out)
    requires Unique(flat) && Positive(flat)
    requires forall w :: Weight(flat, w) == Occurrences(words, w)
    ensures FrequencyList(words, out)
  {
    hide Weight, Occurrences, NonIncreasing;
    forall i | 0 <= i < |out|
      ensures out[i] in flat
    {
      assert out[i] in multiset(flat);
    }
    forall i, j | 0 <= i < j < |out|
      ensures out[i].word != out[j].word
    {
      TwoPlaces(out, i, j);
      UniqueOnce(flat, out[i]);
      SameWord(flat, out[i], out[j]);
    }
    assert Positive(out);
    forall w
      ensures Weight(out, w) == Occurrences(words, w)
    {
      WeightReordered(out, flat, w);
    }
    ByWeight(words, out);
  }

  lemma SameWord(flat: seq<Rec>, x: Rec, y: Rec)
    requires Unique(flat) && x in flat && y in flat
    ensures x.word == y.word ==> x == y
  {
  }

  lemma {:induction false} UniqueOnce(flat: seq<Rec>, x: Rec)
    requires Unique(flat)
    ensures multiset(flat)[x] <= 1
  {
    if flat != [] {
      var n := |flat| - 1;
      assert flat == flat[..n] + [flat[n]];
      UniqueOnce(flat[..n], x);
      if x == flat[n] {
        assert forall i :: 0 <= i < n ==> flat[..n][i] != x;
        assert x !in flat[..n];
      }
    }
  }

  /** Counting the words of any files with maps of any size gives the list of their words by frequency. */
  method SortWords(files: seq<TextFile>, limit: nat) returns (out: seq<Rec>)
    requires Words(files)
    ensures FrequencyList(TextOf(files), out)
  {
    hide Words, Weight, Occurrences, Unique, Positive, NonIncreasing, CountFile, WordsRise, Proper;
    var segments := Input(files, limit);
    var counts := Combine(segments, limit);
    out := Merge(counts);
    MergedList(TextOf(files), Flat(counts), out);
  }
}
