/** The trees, code tables and decoding runs of Huffman coding. */
module HuffmanTree {
  import opened Options
  import opened CodeLengths
  import opened PrefixCodes

  datatype HuffmanNode = Null | Node(ch: char, freq: nat, left: HuffmanNode, right: HuffmanNode)

  /** The character that marks an inner node. */
  const MARK := '\0'

  predicate IsLeaf(t: HuffmanNode)
    requires t.Node?
  {
    t.left.Null? && t.right.Null?
  }

  /** A node with both children or none, whose frequency is that of the leaves below it. */
  ghost predicate Sound(t: HuffmanNode) {
    t.Node? && (IsLeaf(t) || (t.ch == MARK && Sound(t.left) && Sound(t.right) && t.freq == t.left.freq + t.right.freq))
  }

  ghost function Leaves(t: HuffmanNode): (p: seq<(char, nat)>)
    requires Sound(t)
    ensures |p| > 0
  {
    if IsLeaf(t) then [(t.ch, t.freq)] else Leaves(t.left) + Leaves(t.right)
  }

  /** The depths of the leaves, for a tree whose root is at depth `d`. */
  ghost function Depths(t: HuffmanNode, d: nat): (l: seq<nat>)
    requires Sound(t)
    ensures |l| == |Leaves(t)|
  {
    if IsLeaf(t) then [d] else Depths(t.left, d + 1) + Depths(t.right, d + 1)
  }

  /** The sum of the frequencies of the inner nodes. */
  ghost function Inner(t: HuffmanNode): nat
    requires Sound(t)
  {
    if IsLeaf(t) then 0 else t.freq + Inner(t.left) + Inner(t.right)
  }

  ghost function Freqs(p: seq<(char, nat)>): (w: seq<nat>)
    ensures |w| == |p| && forall i :: 0 <= i < |p| ==> w[i] == p[i].1
  {
    if p == [] then [] else [p[0].1] + Freqs(p[1..])
  }

  ghost function Chars(p: seq<(char, nat)>): (cs: seq<char>)
    ensures |cs| == |p| && forall i :: 0 <= i < |p| ==> cs[i] == p[i].0
  {
    if p == [] then [] else [p[0].0] + Chars(p[1..])
  }

  lemma {:induction false} CostConcat(w: seq<nat>, l: seq<nat>, v: seq<nat>, m: seq<nat>)
    requires |w| == |l| && |v| == |m|
    ensures Cost(w + v, l + m) == Cost(w, l) + Cost(v, m)
  {
    if w == [] {
      assert w + v == v && l + m == m;
    } else {
      CostConcat(w[1..], l[1..], v, m);
      assert (w + v)[1..] == w[1..] + v && (l + m)[1..] == l[1..] + m;
    }
  }

  lemma CostOne(f: nat, d: nat)
    ensures Cost([f], [d]) == f * d
  {
  }

  lemma FreqsSplit(t: HuffmanNode)
    requires Sound(t)
    ensures IsLeaf(t) ==> Freqs(Leaves(t)) == [t.freq]
    ensures !IsLeaf(t) ==> Freqs(Leaves(t)) == Freqs(Leaves(t.left)) + Freqs(Leaves(t.right))
  {
  }

  /** The sum over inner nodes is the weighted path length. */
  lemma {:induction false} PathLength(t: HuffmanNode, d: nat)
    requires Sound(t)
    ensures Cost(Freqs(Leaves(t)), Depths(t, d)) == Inner(t) + t.freq * d
  {
    hide Cost, Freqs, Leaves;
    FreqsSplit(t);
    if IsLeaf(t) {
      CostOne(t.freq, d);
    } else {
      PathLength(t.left, d + 1);
      PathLength(t.right, d + 1);
      CostConcat(Freqs(Leaves(t.left)), Depths(t.left, d + 1), Freqs(Leaves(t.right)), Depths(t.right, d + 1));
      assert t.freq * d + t.freq == t.left.freq * (d + 1) + t.right.freq * (d + 1);
    }
  }

  ghost function Height(t: HuffmanNode): nat
    requires Sound(t)
  {
    if IsLeaf(t) then 0
    else 1 + if Height(t.left) < Height(t.right) then Height(t.right) else Height(t.left)
  }

  lemma {:induction false} RoomConcat(l: seq<nat>, m: seq<nat>, d: nat)
    requires AllBelow(l, d) && AllBelow(m, d)
    ensures AllBelow(l + m, d) && Room(l + m, d) == Room(l, d) + Room(m, d)
  {
    hide Pow2;
    if l == [] {
      assert l + m == m;
    } else {
      RoomConcat(l[1..], m, d);
      assert (l + m)[1..] == l[1..] + m;
    }
  }

  lemma RoomOne(k: nat, d: nat)
    requires k <= d
    ensures AllBelow([k], d) && Room([k], d) == Pow2(d - k)
  {
  }

  /** The leaves of a tree use up all the room: Kraft's inequality is an equality. */
  lemma {:induction false} TreeRoom(t: HuffmanNode, k: nat, d: nat)
    requires Sound(t) && k + Height(t) <= d
    ensures AllBelow(Depths(t, k), d) && Room(Depths(t, k), d) == Pow2(d - k)
  {
    hide Room;
    if IsLeaf(t) {
      RoomOne(k, d);
    } else {
      TreeRoom(t.left, k + 1, d);
      TreeRoom(t.right, k + 1, d);
      RoomConcat(Depths(t.left, k + 1), Depths(t.right, k + 1), d);
    }
  }

  // ----- codes -----

  /** The codes `node` gives its characters when it is reached by `code`. */
  function CodeTable(node: HuffmanNode, code: string): map<char, string> {
    if node.Null? then map[]
    else if node.ch != MARK then map[node.ch := code]
    else CodeTable(node.left, code + "0") + CodeTable(node.right, code + "1")
  }

  function Lookup(codes: map<char, string>, c: char): string {
    if c in codes then codes[c] else ""
  }

  function Encoded(codes: map<char, string>, text: string): string {
    if text == "" then "" else Lookup(codes, text[0]) + Encoded(codes, text[1..])
  }

  /** Following `p` from `t` ends at the leaf of `c`. */
  ghost predicate Leads(t: HuffmanNode, p: string, c: char) {
    t.Node? &&
    if p == "" then t.ch == c && c != MARK
    else t.ch == MARK && Leads(if p[0] == '0' then t.left else t.right, p[1..], c)
  }

  lemma {:induction false} TablePath(t: HuffmanNode, code: string, c: char)
    requires Sound(t) && c in CodeTable(t, code)
    ensures var w := CodeTable(t, code)[c]; code <= w && Bits(w[|code|..]) && Leads(t, w[|code|..], c)
  {
    if t.ch == MARK {
      var w := CodeTable(t, code)[c];
      if c in CodeTable(t.right, code + "1") {
        TablePath(t.right, code + "1", c);
        assert w[|code|..] == "1" + w[|code| + 1..];
      } else {
        TablePath(t.left, code + "0", c);
        assert w[|code|..] == "0" + w[|code| + 1..];
      }
    }
  }

  lemma {:induction false} TableKeys(t: HuffmanNode, code: string, c: char)
    requires Sound(t)
    ensures c in CodeTable(t, code) <==> c != MARK && c in Chars(Leaves(t))
  {
    if IsLeaf(t) {
      assert Chars(Leaves(t)) == [t.ch];
    } else {
      assert Chars(Leaves(t)) == Chars(Leaves(t.left)) + Chars(Leaves(t.right));
      TableKeys(t.left, code + "0", c);
      TableKeys(t.right, code + "1", c);
    }
  }

  /** Two leaves cannot lie on one path. */
  lemma {:induction false} PathsApart(t: HuffmanNode, p: string, q: string, c: char, d: char)
    requires Leads(t, p, c) && Leads(t, q, d) && p <= q
    ensures p == q && c == d
  {
    if p != "" {
      PathsApart(if p[0] == '0' then t.left else t.right, p[1..], q[1..], c, d);
    }
  }

  /** The generated codes: one for every character of the tree but the mark, and no code begins with another. */
  lemma TablePrefixFree(t: HuffmanNode, c: char, d: char)
    requires Sound(t)
    requires c in CodeTable(t, "") && d in CodeTable(t, "") && c != d
    ensures Bits(CodeTable(t, "")[c]) && Apart(CodeTable(t, "")[c], CodeTable(t, "")[d])
  {
    var p, q := CodeTable(t, "")[c], CodeTable(t, "")[d];
    TablePath(t, "", c);
    TablePath(t, "", d);
    assert p[0..] == p && q[0..] == q;
    if p <= q {
      PathsApart(t, p, q, c, d);
    }
    if q <= p {
      PathsApart(t, q, p, d, c);
    }
  }

  /** No left subtree is heavier than the one to its right. */
  ghost predicate LighterLeft(t: HuffmanNode) {
    t.Node? ==>
      && (t.left.Node? && t.right.Node? ==> t.left.freq <= t.right.freq)
      && LighterLeft(t.left) && LighterLeft(t.right)
  }

  /** Of two leaves side by side the one that ends in 0 is not the heavier one. */
  lemma {:induction false} SiblingLeaves(t: HuffmanNode, p: string, c: char, d: char) returns (f: nat, g: nat)
    requires Sound(t) && LighterLeft(t) && Leads(t, p + "0", c) && Leads(t, p + "1", d)
    ensures f <= g && (c, f) in Leaves(t) && (d, g) in Leaves(t)
    decreases |p|
  {
    var x, y := p + "0", p + "1";
    if p == "" {
      assert x[1..] == "" && y[1..] == "";
      f, g := t.left.freq, t.right.freq;
    } else {
      assert x[1..] == p[1..] + "0" && y[1..] == p[1..] + "1";
      f, g := SiblingLeaves(if p[0] == '0' then t.left else t.right, p[1..], c, d);
    }
  }

  // ----- decoding -----

  function Prepend(c: char, r: Option<string>): Option<string> {
    if r.Some? then Some([c] + r.value) else None
  }

  /** What decoding yields from node `cur` on; `None` once it follows a null child. */
  function Decoded(root: HuffmanNode, cur: HuffmanNode, bits: string): Option<string>
    requires root.Node? && cur.Node?
    decreases |bits|
  {
    if bits == "" then Some("")
    else
      var next := if bits[0] == '0' then cur.left else cur.right;
      if next.Null? then None
      else if next.ch != MARK then Prepend(next.ch, Decoded(root, root, bits[1..]))
      else Decoded(root, next, bits[1..])
  }

  /** Every character but 0 counts as 1. */
  function AsBits(s: string): (r: string)
    ensures |r| == |s| && forall i :: 0 <= i < |s| ==> r[i] == if s[i] == '0' then '0' else '1'
  {
    seq(|s|, i requires 0 <= i < |s| => if s[i] == '0' then '0' else '1')
  }

  lemma {:induction false} DecodeAsBits(root: HuffmanNode, cur: HuffmanNode, s: string)
    requires root.Node? && cur.Node?
    ensures Decoded(root, cur, s) == Decoded(root, cur, AsBits(s))
    decreases |s|
  {
    if s != "" {
      var next := if s[0] == '0' then cur.left else cur.right;
      assert AsBits(s)[1..] == AsBits(s[1..]);
      if next.Node? {
        DecodeAsBits(root, if next.ch != MARK then root else next, s[1..]);
      }
    }
  }

  lemma {:induction false} DecodePath(root: HuffmanNode, cur: HuffmanNode, p: string, rest: string, c: char)
    requires root.Node? && Leads(cur, p, c) && p != ""
    ensures Decoded(root, cur, p + rest) == Prepend(c, Decoded(root, root, rest))
    decreases |p|
  {
    var next := if p[0] == '0' then cur.left else cur.right;
    assert (p + rest)[1..] == p[1..] + rest;
    if p[1..] == "" {
      assert p[1..] + rest == rest;
    } else {
      DecodePath(root, next, p[1..], rest, c);
    }
  }

  /** The characters of `s` that have a code. */
  ghost function Kept(codes: map<char, string>, s: string): string {
    if s == "" then "" else (if s[0] in codes then [s[0]] else []) + Kept(codes, s[1..])
  }

  lemma {:induction false} DecodeEncoded(root: HuffmanNode, s: string)
    requires Sound(root) && !IsLeaf(root)
    ensures Decoded(root, root, Encoded(CodeTable(root, ""), s)) == Some(Kept(CodeTable(root, ""), s))
  {
    var codes := CodeTable(root, "");
    if s != "" {
      DecodeEncoded(root, s[1..]);
      if s[0] in codes {
        TablePath(root, "", s[0]);
        assert codes[s[0]][0..] == codes[s[0]];
        DecodePath(root, root, codes[s[0]], Encoded(codes, s[1..]), s[0]);
      } else {
        assert Encoded(codes, s) == Encoded(codes, s[1..]);
        assert Kept(codes, s) == Kept(codes, s[1..]);
      }
    }
  }

  lemma {:induction false} EmptyCodes(codes: map<char, string>, s: string)
    requires forall c :: c in codes ==> codes[c] == ""
    ensures Encoded(codes, s) == ""
  {
    if s != "" {
      EmptyCodes(codes, s[1..]);
    }
  }

  lemma {:induction false} KeptAll(codes: map<char, string>, s: string)
    ensures |Kept(codes, s)| <= |s|
    ensures Kept(codes, s) == s <==> forall c :: c in s ==> c in codes
  {
    if s != "" {
      KeptAll(codes, s[1..]);
      assert s == [s[0]] + s[1..];
      if s[0] in codes {
        assert forall c :: c in s <==> c == s[0] || c in s[1..];
        assert ([s[0]] + Kept(codes, s[1..]))[1..] == Kept(codes, s[1..]);
      } else {
        assert |Kept(codes, s)| < |s|;
      }
    }
  }
}
