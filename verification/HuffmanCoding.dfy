/** The Huffman coder, its round trip and its optimality among prefix-free codes. */
module HuffmanCoding {
  import opened Options
  import opened CodeLengths
  import opened PrefixCodes
  import opened Sequences
  import opened HuffmanTree
  import opened HuffmanForest
  import opened Sets

  /** `root` is the cheapest tree whose leaves are the characters of `text` with their frequencies. */
  ghost predicate Built(root: HuffmanNode, text: string) {
    Sound(root) && Tally(Leaves(root), Frequencies(text)) && Optimal(root) && LighterLeft(root)
  }

  lemma NoTally()
    ensures Tally([], map[]) && Freqs([]) == []
  {
  }

  lemma TallyNonEmpty(p: seq<(char, nat)>, m: map<char, nat>)
    requires Tally(p, m) && m != map[]
    ensures p != []
  {
    var c :| c in m;
    assert c in Chars(p);
  }

  lemma PushPair(p: seq<(char, nat)>, leaf: HuffmanNode)
    requires leaf.Node? && IsLeaf(leaf)
    ensures Freqs(p + [(leaf.ch, leaf.freq)]) == Freqs(p) + [leaf.freq]
    ensures Leaves(leaf) == [(leaf.ch, leaf.freq)] && Inner(leaf) == 0 && LighterLeft(leaf)
  {
  }

  lemma {:induction false} EncodedNext(codes: map<char, string>, s: string, c: char)
    ensures Encoded(codes, s + [c]) == Encoded(codes, s) + Lookup(codes, c)
  {
    if s == "" {
      assert s + [c] == [c];
    } else {
      EncodedNext(codes, s[1..], c);
      assert (s + [c])[1..] == s[1..] + [c];
    }
  }

  ghost function Follow(s: string, r: Option<string>): Option<string> {
    if r.Some? then Some(s + r.value) else None
  }

  lemma FollowEmpty(r: Option<string>, s: string)
    ensures Follow("", r) == r && Follow(s, Some("")) == Some(s)
  {
    if r.Some? {
      assert "" + r.value == r.value;
    }
    assert s + "" == s;
  }

  lemma FollowPrepend(s: string, c: char, r: Option<string>)
    ensures Follow(s, Prepend(c, r)) == Follow(s + [c], r)
  {
    if r.Some? {
      assert s + ([c] + r.value) == (s + [c]) + r.value;
    }
  }

  /** The tree that leaves the queue first is not the heavier one. */
  lemma LighterFirst(q: seq<HuffmanNode>, a: nat, b: nat)
    requires SoundAll(q) && LighterAll(q) && a < |q| && b < |q| - 1
    requires Lightest(Roots(q), a)
    ensures LighterAll(JoinAt(q, a, b))
  {
    hide LighterLeft, Sound, Without, Roots;
    var k := if b < a then b else b + 1;
    assert Sound(q[a]) && Sound(q[k]) && Roots(q)[a] <= Roots(q)[k];
    JoinedLighter(q[a], q[k]);
    var rest := Without(Without(q, a), b);
    forall i | 0 <= i < |rest|
      ensures LighterLeft(rest[i])
    {
      var j := if i < b then i else i + 1;
      assert rest[i] == Without(q, a)[j] == q[if j < a then j else j + 1];
    }
  }

  lemma JoinedLighter(t: HuffmanNode, u: HuffmanNode)
    requires Sound(t) && Sound(u) && LighterLeft(t) && LighterLeft(u) && t.freq <= u.freq
    ensures t.Node? && u.Node? && LighterLeft(Joined(t, u))
  {
  }

  class HuffmanCoding {
    var root: HuffmanNode
    var codes: map<char, string>
    var freqMap: map<char, nat>

    constructor ()
      ensures root == Null && codes == map[] && freqMap == map[]
    {
      root, codes, freqMap := Null, map[], map[];
    }

    method BuildFrequencyMap(text: string)
      modifies this`freqMap
      ensures freqMap == Frequencies(text)
    {
      freqMap := map[];
      for i := 0 to |text|
        invariant forall c :: c in freqMap <==> Occurrences(text[..i], c) > 0
        invariant forall c :: c in freqMap ==> freqMap[c] == Occurrences(text[..i], c)
      {
        assert text[..i + 1][..i] == text[..i];
        freqMap := freqMap[text[i] := (if text[i] in freqMap then freqMap[text[i]] else 0) + 1];
      }
      assert text[..|text|] == text;
      forall c
        ensures Occurrences(text, c) > 0 <==> c in text
      {
        OccurrencesMember(text, c);
      }
    }

    /** `rest` is `q` without `t`, a tree of least frequency at `at`. */
    static ghost predicate TakenOut(q: seq<HuffmanNode>, at: nat, t: HuffmanNode, rest: seq<HuffmanNode>) {
      SoundAll(q) && Lightest(Roots(q), at) && t == q[at] && rest == Without(q, at)
    }

    /** The contract of the priority queue: some tree of least frequency is taken out. */
    method Pop(q: seq<HuffmanNode>) returns (t: HuffmanNode, rest: seq<HuffmanNode>)
      requires SoundAll(q) && q != []
      ensures exists at: nat :: TakenOut(q, at, t, rest)
    {
      ghost var w := Roots(q);
      ghost var b := SomeLightest(w);
      assert forall k: nat :: k < |q| ==> q[b].freq <= q[k].freq;
      var a: nat :| a < |q| && forall k: nat :: k < |q| ==> q[a].freq <= q[k].freq;
      t, rest := q[a], Without(q, a);
      assert TakenOut(q, a, t, rest);
    }

    /** The first loop of the building: a leaf for every entry of the map, in any order. */
    method PushLeaves() returns (q: seq<HuffmanNode>, ghost p: seq<(char, nat)>)
      ensures SoundAll(q) && Bag(q) == multiset(p) && Roots(q) == Freqs(p) && Inners(q) == 0
      ensures Tally(p, freqMap) && LighterAll(q)
    {
      hide Roots, Freqs, Bag, Inners, Tally, Leaves, Inner;
      q, p := [], [];
      var todo := freqMap.Keys;
      NoForest();
      NoTally();
      assert freqMap - todo == map[];
      while todo != {}
        invariant todo <= freqMap.Keys
        invariant SoundAll(q) && Bag(q) == multiset(p) && Roots(q) == Freqs(p) && Inners(q) == 0 && LighterAll(q)
        invariant Tally(p, freqMap - todo)
        decreases |todo|
      {
        var c :| c in todo;
        var leaf := Node(c, freqMap[c], Null, Null);
        PushForest(q, leaf);
        PushPair(p, leaf);
        TallyNext(p, freqMap - todo, c, freqMap[c]);
        assert (freqMap - todo)[c := freqMap[c]] == freqMap - (todo - {c});
        q, p := q + [leaf], p + [(c, freqMap[c])];
        todo := todo - {c};
      }
      assert freqMap - todo == freqMap;
    }

    method BuildHuffmanTree() returns (t: HuffmanNode)
      ensures freqMap == map[] ==> t == Null
      ensures freqMap != map[] ==> Sound(t) && Optimal(t) && Tally(Leaves(t), freqMap) && LighterLeft(t)
    {
      hide Roots, Freqs, Bag, Inners, Tally, Optimal, Leaves, Inner, Reduces;
      if freqMap == map[] {
        return Null;
      }
      var q, p := PushLeaves();
      TallyNonEmpty(p, freqMap);
      ghost var w0 := Roots(q);
      ReducesSelf(w0);
      while |q| > 1
        invariant q != [] && SoundAll(q) && Bag(q) == multiset(p) && Reduces(w0, Roots(q), Inners(q)) && LighterAll(q)
        decreases |q|
      {
        q := MergeTwo(q, w0);
      }
      t := q[0];
      assert q == [t];
      OneTree(t);
      TallyReordered(p, Leaves(t), freqMap);
      FreqsReordered(p, Leaves(t));
      LastTree(w0, t);
    }

    /** One round of the loop: the two trees that leave the queue first come back as one. */
    method MergeTwo(q: seq<HuffmanNode>, ghost w0: seq<nat>) returns (q': seq<HuffmanNode>)
      requires SoundAll(q) && |q| > 1 && Reduces(w0, Roots(q), Inners(q)) && LighterAll(q)
      ensures SoundAll(q') && |q'| == |q| - 1 && Bag(q') == Bag(q) && Reduces(w0, Roots(q'), Inners(q'))
      ensures LighterAll(q')
    {
      hide Roots, Bag, Inners, Leaves, Inner, Reduces;
      var left, rest := Pop(q);
      ghost var a: nat :| TakenOut(q, a, left, rest);
      ForestWithout(q, a);
      var right, rest' := Pop(rest);
      ghost var b: nat :| TakenOut(rest, b, right, rest');
      JoinForest(q, a, b);
      ReduceStep(w0, Roots(q), Inners(q), a, b);
      LighterFirst(q, a, b);
      q' := rest' + [Node(MARK, left.freq + right.freq, left, right)];
    }

    method GenerateCodes(node: HuffmanNode, code: string)
      modifies this`codes
      ensures codes == old(codes) + CodeTable(node, code)
    {
      if node.Null? {
        return;
      }
      if node.ch != MARK {
        codes := codes[node.ch := code];
      } else {
        GenerateCodes(node.left, code + "0");
        GenerateCodes(node.right, code + "1");
      }
    }

    /** An empty text leaves the coder as it was. */
    method Build(text: string)
      modifies this
      ensures text == "" ==> root == old(root) && codes == old(codes) && freqMap == old(freqMap)
      ensures text != "" ==> Built(root, text) && codes == CodeTable(root, "") && freqMap == Frequencies(text)
    {
      if text == "" {
        return;
      }
      BuildFrequencyMap(text);
      assert text[0] in freqMap;
      root := BuildHuffmanTree();
      codes := map[];
      GenerateCodes(root, "");
    }

    /** Looking up a character without a code stores the empty code for it. */
    method Encode(text: string) returns (encoded: string)
      modifies this`codes
      ensures encoded == Encoded(old(codes), text)
      ensures forall c :: c in codes <==> c in old(codes) || c in text
      ensures forall c :: c in codes ==> codes[c] == Lookup(old(codes), c)
    {
      encoded := "";
      for i := 0 to |text|
        invariant encoded == Encoded(old(codes), text[..i])
        invariant forall c :: c in codes <==> c in old(codes) || c in text[..i]
        invariant forall c :: c in codes ==> codes[c] == Lookup(old(codes), c)
      {
        EncodedNext(old(codes), text[..i], text[i]);
        assert text[..i + 1] == text[..i] + [text[i]];
        if text[i] !in codes {
          codes := codes[text[i] := ""];
        }
        encoded := encoded + codes[text[i]];
      }
      assert text[..|text|] == text;
    }

    /** `None` stands for following a null pointer. */
    method Decode(encoded: string) returns (decoded: Option<string>)
      ensures root == Null ==> decoded == Some("")
      ensures root != Null ==> decoded == Decoded(root, root, encoded)
    {
      if root.Null? {
        return Some("");
      }
      var text := "";
      var current := root;
      FollowEmpty(Decoded(root, root, encoded), "");
      assert encoded[0..] == encoded;
      for i := 0 to |encoded|
        invariant current.Node?
        invariant Decoded(root, root, encoded) == Follow(text, Decoded(root, current, encoded[i..]))
      {
        assert encoded[i..][1..] == encoded[i + 1..];
        current := if encoded[i] == '0' then current.left else current.right;
        if current.Null? {
          return None;
        }
        if current.ch != MARK {
          FollowPrepend(text, current.ch, Decoded(root, root, encoded[i + 1..]));
          text := text + [current.ch];
          current := root;
        }
      }
      FollowEmpty(Some(""), text);
      return Some(text);
    }
  }

  // ----- what the coder is for -----

  /** The text has two different characters. */
  ghost predicate Mixed(text: string) {
    exists c, d :: c in text && d in text && c != d
  }

  lemma {:induction false} LeafCount(t: HuffmanNode)
    requires Sound(t)
    ensures IsLeaf(t) <==> |Leaves(t)| == 1
  {
  }

  lemma MixedInner(root: HuffmanNode, text: string)
    requires Built(root, text)
    ensures Mixed(text) <==> !IsLeaf(root)
  {
    hide Optimal;
    LeafCount(root);
    var cs := Chars(Leaves(root));
    if c, d :| c in text && d in text && c != d {
      assert c in Frequencies(text) && d in Frequencies(text);
      assert c in cs && d in cs;
    }
    if |cs| > 1 {
      assert cs[0] in cs && cs[1] in cs;
      assert cs[0] in Frequencies(text) && cs[1] in Frequencies(text) && cs[0] != cs[1];
    }
  }

  lemma CodedChars(root: HuffmanNode, text: string, c: char)
    requires Built(root, text)
    ensures c in CodeTable(root, "") <==> c in text && c != MARK
  {
    hide Optimal, CodeTable;
    TableKeys(root, "", c);
    assert c in text <==> c in Frequencies(text);
  }

  /** The characters of `s` that occur in `text`, without the mark. */
  ghost function Codable(s: string, text: string): string {
    if s == "" then "" else (if s[0] in text && s[0] != MARK then [s[0]] else []) + Codable(s[1..], text)
  }

  lemma {:induction false} KeptCodable(root: HuffmanNode, text: string, s: string)
    requires Built(root, text)
    ensures Kept(CodeTable(root, ""), s) == Codable(s, text)
  {
    hide Built, CodeTable;
    if s != "" {
      CodedChars(root, text, s[0]);
      KeptCodable(root, text, s[1..]);
    }
  }

  lemma LeafCodes(root: HuffmanNode)
    requires Sound(root) && IsLeaf(root)
    ensures forall c :: c in CodeTable(root, "") ==> CodeTable(root, "")[c] == ""
  {
  }

  /** Decoding what was encoded, for any `s` and any coder built from `text`. */
  lemma DecodeAfterEncode(root: HuffmanNode, text: string, s: string)
    requires Built(root, text)
    ensures Decoded(root, root, Encoded(CodeTable(root, ""), s)) == Some(if Mixed(text) then Codable(s, text) else "")
  {
    hide Mixed, Tally, Optimal;
    MixedInner(root, text);
    if Mixed(text) {
      DecodeEncoded(root, s);
      KeptCodable(root, text, s);
    } else {
      LeafCodes(root);
      EmptyCodes(CodeTable(root, ""), s);
    }
  }

  /** The round trip is the identity exactly on these texts. */
  lemma RoundTrip(root: HuffmanNode, text: string, s: string)
    requires Built(root, text)
    ensures Decoded(root, root, Encoded(CodeTable(root, ""), s)) == Some(s)
            <==> s == "" || (Mixed(text) && forall c :: c in s ==> c in text && c != '\0')
  {
    DecodeAfterEncode(root, text, s);
    KeptCodable(root, text, s);
    KeptAll(CodeTable(root, ""), s);
    forall c
      ensures c in CodeTable(root, "") <==> c in text && c != MARK
    {
      CodedChars(root, text, c);
    }
  }

  // ----- the length of an encoded text -----

  ghost function Counts(cs: seq<char>, text: string): (w: seq<nat>)
    ensures |w| == |cs| && forall i :: 0 <= i < |cs| ==> w[i] == Occurrences(text, cs[i])
  {
    if cs == [] then [] else [Occurrences(text, cs[0])] + Counts(cs[1..], text)
  }

  /** The codewords of `cs`. */
  ghost function Words(cs: seq<char>, codes: map<char, string>): (ws: seq<string>)
    ensures |ws| == |cs| && forall i :: 0 <= i < |cs| ==> ws[i] == Lookup(codes, cs[i])
  {
    if cs == [] then [] else [Lookup(codes, cs[0])] + Words(cs[1..], codes)
  }

  lemma {:induction false} NoCounts(cs: seq<char>, l: seq<nat>)
    requires |l| == |cs|
    ensures Cost(Counts(cs, ""), l) == 0
  {
    if cs != [] {
      NoCounts(cs[1..], l[1..]);
    }
  }

  lemma CostMore(w: seq<nat>, l: seq<nat>, k: nat)
    requires |w| == |l| && k < |w|
    ensures Cost(w[k := w[k] + 1], l) == Cost(w, l) + l[k]
  {
    hide Cost;
    CostWithout(w, l, k);
    CostWithout(w[k := w[k] + 1], l, k);
    assert Without(w[k := w[k] + 1], k) == Without(w, k);
  }

  /** A text encodes to as many bits as its characters' counts times their code lengths. */
  lemma {:induction false} EncodedLength(cs: seq<char>, text: string, codes: map<char, string>)
    requires Distinct(cs) && forall c :: c in text ==> c in cs
    ensures |Encoded(codes, text)| == Cost(Counts(cs, text), Lengths(Words(cs, codes)))
    decreases |text|
  {
    hide Cost, Encoded, Occurrences, Distinct, Words, Lengths;
    var l := Lengths(Words(cs, codes));
    if text == "" {
      NoCounts(cs, l);
      EncodedNone(codes);
    } else {
      var n := |text| - 1;
      assert text[n] in text;
      var k: nat :| k < |cs| && cs[k] == text[n];
      assert text == text[..n] + [text[n]];
      EncodedLength(cs, text[..n], codes);
      EncodedNext(codes, text[..n], text[n]);
      CountsMore(cs, text, k);
      CostMore(Counts(cs, text[..n]), l, k);
    }
  }

  lemma CountsMore(cs: seq<char>, text: string, k: nat)
    requires Distinct(cs) && k < |cs| && text != "" && cs[k] == text[|text| - 1]
    ensures var w := Counts(cs, text[..|text| - 1]); Counts(cs, text) == w[k := w[k] + 1]
  {
    assert forall i: nat :: i < |cs| && i != k ==> cs[i] != cs[k];
  }

  lemma EncodedNone(codes: map<char, string>)
    ensures Encoded(codes, "") == ""
  {
  }

  /** A character's code is as long as its leaf is deep. */
  lemma {:induction false} CodeDepth(t: HuffmanNode, code: string, i: nat)
    requires Sound(t) && Distinct(Chars(Leaves(t))) && i < |Leaves(t)|
    ensures var c := Leaves(t)[i].0;
            if c == MARK then c !in CodeTable(t, code)
            else c in CodeTable(t, code) && |CodeTable(t, code)[c]| == Depths(t, |code|)[i]
  {
    if !IsLeaf(t) {
      var c := Leaves(t)[i].0;
      var m := |Leaves(t.left)|;
      assert Chars(Leaves(t)) == Chars(Leaves(t.left)) + Chars(Leaves(t.right));
      TableKeys(t.left, code + "0", c);
      TableKeys(t.right, code + "1", c);
      ConcatDistinct(Chars(Leaves(t.left)), Chars(Leaves(t.right)));
      if i < m {
        CodeDepth(t.left, code + "0", i);
        assert Chars(Leaves(t.left))[i] == c;
      } else {
        CodeDepth(t.right, code + "1", i - m);
        assert Chars(Leaves(t.right))[i - m] == c;
      }
    }
  }

  lemma ConcatDistinct(a: seq<char>, b: seq<char>)
    requires Distinct(a + b)
    ensures Distinct(a) && Distinct(b) && forall c :: c in a ==> c !in b
  {
    assert forall i :: 0 <= i < |a| ==> (a + b)[i] == a[i];
    assert forall i :: 0 <= i < |b| ==> (a + b)[|a| + i] == b[i];
  }

  lemma {:induction false} CostMonotone(w: seq<nat>, l: seq<nat>, m: seq<nat>)
    requires |w| == |l| == |m| && forall i :: 0 <= i < |l| ==> l[i] <= m[i]
    ensures Cost(w, l) <= Cost(w, m)
  {
    if w != [] {
      CostMonotone(w[1..], l[1..], m[1..]);
      assert w[0] * l[0] <= w[0] * m[0];
    }
  }

  lemma TallyChars(root: HuffmanNode, text: string)
    requires Built(root, text)
    ensures var cs := Chars(Leaves(root));
            Distinct(cs) && (forall c :: c in text <==> c in cs) && Counts(cs, text) == Freqs(Leaves(root))
  {
    hide Optimal;
    assert forall c :: c in text <==> c in Frequencies(text);
    assert forall i :: 0 <= i < |Leaves(root)| ==> Leaves(root)[i].0 in Frequencies(text);
  }

  lemma WordDepth(root: HuffmanNode, text: string, i: nat)
    requires Built(root, text) && i < |Leaves(root)|
    ensures var n, d := |Lookup(CodeTable(root, ""), Leaves(root)[i].0)|, Depths(root, 0)[i];
            n <= d && (MARK !in text ==> n == d)
  {
    hide Optimal, CodeTable, Leaves, Depths;
    TallyChars(root, text);
    CodeDepth(root, "", i);
    assert Chars(Leaves(root))[i] in Chars(Leaves(root));
  }

  /** The text itself encodes to no more bits than the weighted path length, and to as many when it has no mark. */
  lemma EncodedText(root: HuffmanNode, text: string)
    requires Built(root, text)
    ensures |Encoded(CodeTable(root, ""), text)| <= Inner(root)
    ensures MARK !in text ==> |Encoded(CodeTable(root, ""), text)| == Inner(root)
  {
    hide Optimal, Cost, Encoded, CodeTable, Leaves, Depths, Inner, Freqs, Chars, Counts, Words, Lengths, Tally;
    var cs, codes := Chars(Leaves(root)), CodeTable(root, "");
    TallyChars(root, text);
    EncodedLength(cs, text, codes);
    PathLength(root, 0);
    var l := Lengths(Words(cs, codes));
    forall i | 0 <= i < |cs|
      ensures l[i] <= Depths(root, 0)[i] && (MARK !in text ==> l[i] == Depths(root, 0)[i])
    {
      WordDepth(root, text, i);
    }
    CostMonotone(Freqs(Leaves(root)), l, Depths(root, 0));
    if MARK !in text {
      assert l == Depths(root, 0);
    }
  }

  ghost predicate PrefixFreeBook(book: map<char, string>, text: string) {
    && (forall c :: c in text ==> c in book && Bits(book[c]))
    && (forall c, d :: c in text && d in text && c != d ==> Apart(book[c], book[d]))
  }

  ghost function Longest(l: seq<nat>): (d: nat)
    ensures AllBelow(l, d)
  {
    if l == [] then 0 else var d := Longest(l[1..]);
      assert forall i :: 0 < i < |l| ==> l[i] == l[1..][i - 1];
      if d < l[0] then l[0] else d
  }

  /** Of two characters whose codes differ in the last bit only, the one with 0 is not the more frequent one. */
  lemma ZeroLighter(root: HuffmanNode, text: string, p: string, c: char, d: char)
    requires Built(root, text) && c in CodeTable(root, "") && d in CodeTable(root, "")
    requires CodeTable(root, "")[c] == p + "0" && CodeTable(root, "")[d] == p + "1"
    ensures Occurrences(text, c) <= Occurrences(text, d)
  {
    hide Optimal, CodeTable, Occurrences, LighterLeft;
    TablePath(root, "", c);
    TablePath(root, "", d);
    assert (p + "0")[0..] == p + "0" && (p + "1")[0..] == p + "1";
    var f, g := SiblingLeaves(root, p, c, d);
  }

  /** No prefix-free code, of any lengths, encodes the text it was built from in fewer bits. */
  lemma OptimalCode(root: HuffmanNode, text: string, book: map<char, string>)
    requires Built(root, text) && PrefixFreeBook(book, text)
    ensures |Encoded(CodeTable(root, ""), text)| <= |Encoded(book, text)|
  {
    hide Cost, Encoded, Inner, Tally;
    var cs := Chars(Leaves(root));
    TallyChars(root, text);
    EncodedText(root, text);
    EncodedLength(cs, text, book);
    var ws := Words(cs, book);
    assert forall i :: 0 <= i < |cs| ==> cs[i] in text;
    assert PrefixFree(ws);
    KraftInequality(ws, Longest(Lengths(ws)));
  }

  /** No tree over leaves of the same frequencies has a smaller weighted path length. */
  lemma OptimalTree(root: HuffmanNode, text: string, other: HuffmanNode)
    requires Built(root, text) && Sound(other)
    requires multiset(Freqs(Leaves(other))) == multiset(Freqs(Leaves(root)))
    ensures Cost(Freqs(Leaves(root)), Depths(root, 0)) <= Cost(Freqs(Leaves(other)), Depths(other, 0))
  {
    hide Cost, Inner, Tally, Leaves, Depths, Freqs, Room;
    PathLength(root, 0);
    var d := Height(other);
    TreeRoom(other, 0, d);
    var l := Rearrange(Freqs(Leaves(other)), Depths(other, 0), d, Freqs(Leaves(root)));
    assert Fits(l, d);
  }

  ghost function Ones(n: nat): (l: seq<nat>)
    ensures |l| == n && forall i :: 0 <= i < n ==> l[i] == 1
  {
    if n == 0 then [] else [1] + Ones(n - 1)
  }

  lemma {:induction false} RootFrequency(t: HuffmanNode)
    requires Sound(t)
    ensures Cost(Freqs(Leaves(t)), Ones(|Leaves(t)|)) == t.freq
  {
    hide Freqs, Leaves, Cost;
    FreqsSplit(t);
    if IsLeaf(t) {
      CostOne(t.freq, 1);
      assert Ones(1) == [1];
    } else {
      RootFrequency(t.left);
      RootFrequency(t.right);
      var l, r := |Freqs(Leaves(t.left))|, |Freqs(Leaves(t.right))|;
      CostConcat(Freqs(Leaves(t.left)), Ones(l), Freqs(Leaves(t.right)), Ones(r));
      assert |Freqs(Leaves(t))| == l + r;
      assert Ones(l) + Ones(r) == Ones(l + r);
    }
  }

  lemma {:induction false} OneBitEach(codes: map<char, string>, s: string)
    requires forall c :: c in s ==> Lookup(codes, c) == "0"
    ensures |Encoded(codes, s)| == |s|
  {
    if s != "" {
      OneBitEach(codes, s[1..]);
    }
  }

  /** The root counts every character of the text, so no frequency overflows an `int` that can hold the length. */
  lemma FrequencyBound(root: HuffmanNode, text: string)
    requires Built(root, text)
    ensures Sound(root) && root.freq == |text|
  {
    hide Optimal, Tally, Cost, Counts, Freqs, Leaves, Encoded, Chars, Words, Lengths, Ones, Occurrences;
    var codes := map c | c in text :: "0";
    var cs := Chars(Leaves(root));
    TallyChars(root, text);
    EncodedLength(cs, text, codes);
    OneBitEach(codes, text);
    RootFrequency(root);
    forall i | 0 <= i < |cs|
      ensures Lookup(codes, cs[i]) == "0"
    {
      assert cs[i] in cs;
    }
    OneBitWords(cs, codes);
  }

  lemma OneBitWords(cs: seq<char>, codes: map<char, string>)
    requires forall i :: 0 <= i < |cs| ==> Lookup(codes, cs[i]) == "0"
    ensures Lengths(Words(cs, codes)) == Ones(|cs|)
  {
  }

  /** From an inner node of a tree without the mark every bit string can be decoded. */
  lemma {:induction false} NeverStuck(root: HuffmanNode, cur: HuffmanNode, bits: string)
    requires Sound(root) && !IsLeaf(root) && MARK !in Chars(Leaves(root))
    requires Sound(cur) && !IsLeaf(cur) && MARK !in Chars(Leaves(cur))
    ensures Decoded(root, cur, bits).Some?
    decreases |bits|
  {
    if bits != "" {
      var next := if bits[0] == '0' then cur.left else cur.right;
      assert Chars(Leaves(cur)) == Chars(Leaves(cur.left)) + Chars(Leaves(cur.right));
      assert IsLeaf(next) ==> Chars(Leaves(next))[0] == next.ch;
      if next.ch != MARK {
        NeverStuck(root, root, bits[1..]);
      } else {
        NeverStuck(root, next, bits[1..]);
      }
    }
  }

  /** A leaf that holds the mark is taken for an inner node: the path to it and one more bit lead to a null pointer. */
  lemma {:induction false} StuckAtMark(root: HuffmanNode, t: HuffmanNode) returns (bits: string)
    requires root.Node? && Sound(t) && MARK in Chars(Leaves(t))
    ensures Decoded(root, t, bits) == None
  {
    if IsLeaf(t) {
      bits := "0";
    } else {
      assert Chars(Leaves(t)) == Chars(Leaves(t.left)) + Chars(Leaves(t.right));
      if MARK in Chars(Leaves(t.left)) {
        var rest := StuckAtMark(root, t.left);
        bits := "0" + rest;
        assert bits[1..] == rest;
      } else {
        var rest := StuckAtMark(root, t.right);
        bits := "1" + rest;
        assert bits[1..] == rest;
      }
    }
  }

  lemma StuckAtLeaf(root: HuffmanNode) returns (bits: string)
    requires Sound(root) && IsLeaf(root)
    ensures Decoded(root, root, bits) == None
  {
    bits := "0";
  }

  /** Every bit string can be decoded exactly if the text has two different characters and none of them is the mark. */
  lemma DecodeAny(root: HuffmanNode, text: string)
    requires Built(root, text)
    ensures (forall bits :: Decoded(root, root, bits).Some?) <==> Mixed(text) && '\0' !in text
  {
    hide Mixed, Optimal;
    MixedInner(root, text);
    TallyChars(root, text);
    if Mixed(text) && MARK !in text {
      forall bits
        ensures Decoded(root, root, bits).Some?
      {
        NeverStuck(root, root, bits);
      }
    } else if MARK in text {
      var bits := StuckAtMark(root, root);
    } else {
      var bits := StuckAtLeaf(root);
    }
  }
}
