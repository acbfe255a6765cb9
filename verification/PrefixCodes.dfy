/** Prefix-free sets of codewords, and Kraft's inequality for them. */
module PrefixCodes {
  import opened CodeLengths
  import opened Sequences

  ghost predicate Bits(c: string) {
    forall i :: 0 <= i < |c| ==> c[i] == '0' || c[i] == '1'
  }

  /** Neither word begins with the other. */
  ghost predicate Apart(c: string, d: string) {
    !(c <= d) && !(d <= c)
  }

  ghost predicate PrefixFree(cs: seq<string>) {
    && (forall i :: 0 <= i < |cs| ==> Bits(cs[i]))
    && (forall i, j :: 0 <= i < j < |cs| ==> Apart(cs[i], cs[j]))
  }

  ghost function Lengths(cs: seq<string>): (l: seq<nat>)
    ensures |l| == |cs| && forall i :: 0 <= i < |l| ==> l[i] == |cs[i]|
  {
    if cs == [] then [] else [|cs[0]|] + Lengths(cs[1..])
  }

  /** What follows the bit `b` in the words that start with it. */
  ghost function Tails(cs: seq<string>, b: char): seq<string> {
    if cs == [] then []
    else if |cs[0]| > 0 && cs[0][0] == b then [cs[0][1..]] + Tails(cs[1..], b)
    else Tails(cs[1..], b)
  }

  lemma {:induction false} TailsMember(cs: seq<string>, b: char, x: string)
    requires x in Tails(cs, b)
    ensures [b] + x in cs
  {
    if |cs[0]| > 0 && cs[0][0] == b {
      assert cs[0] == [b] + cs[0][1..];
      if x != cs[0][1..] {
        TailsMember(cs[1..], b, x);
      }
    } else {
      TailsMember(cs[1..], b, x);
    }
  }

  lemma ApartTail(b: char, x: string, y: string)
    requires Apart([b] + x, [b] + y)
    ensures Apart(x, y)
  {
    assert x <= y ==> [b] + x <= [b] + y;
    assert y <= x ==> [b] + y <= [b] + x;
  }

  lemma {:induction false} TailsPrefixFree(cs: seq<string>, b: char)
    requires PrefixFree(cs)
    ensures PrefixFree(Tails(cs, b))
  {
    if cs != [] {
      var rest := Tails(cs[1..], b);
      TailsPrefixFree(cs[1..], b);
      if |cs[0]| > 0 && cs[0][0] == b {
        var x := cs[0][1..];
        assert cs[0] == [b] + x;
        forall j | 0 <= j < |rest|
          ensures Apart(x, rest[j])
        {
          TailsMember(cs[1..], b, rest[j]);
          ApartTail(b, x, rest[j]);
        }
      }
    }
  }

  lemma TailsStep(cs: seq<string>, b: char)
    requires cs != [] && cs[0] != ""
    ensures cs == [cs[0]] + cs[1..]
    ensures cs[0][0] == b ==> Tails(cs, b) == [cs[0][1..]] + Tails(cs[1..], b)
    ensures cs[0][0] != b ==> Tails(cs, b) == Tails(cs[1..], b)
  {
  }

  lemma TailsNone(b: char)
    ensures Tails([], b) == []
  {
  }

  lemma FirstBit(c: string)
    requires Bits(c) && c != ""
    ensures c[0] == '0' || c[0] == '1'
  {
  }

  lemma RoomNone(cs: seq<string>, d: nat)
    requires cs == []
    ensures AllBelow(Lengths(cs), d) && Room(Lengths(cs), d) == 0
  {
  }

  lemma {:induction false} RoomSplit(cs: seq<string>, d: nat)
    requires PrefixFree(cs) && d > 0 && AllBelow(Lengths(cs), d)
    requires forall i :: 0 <= i < |cs| ==> cs[i] != ""
    ensures AllBelow(Lengths(Tails(cs, '0')), d - 1) && AllBelow(Lengths(Tails(cs, '1')), d - 1)
    ensures Room(Lengths(cs), d) == Room(Lengths(Tails(cs, '0')), d - 1) + Room(Lengths(Tails(cs, '1')), d - 1)
  {
    hide Pow2, Room, Tails, Lengths, Bits, Apart;
    if cs == [] {
      TailsNone('0');
      TailsNone('1');
      RoomNone(cs, d);
      RoomNone([], d - 1);
    } else {
      var rest := cs[1..];
      var x := cs[0][1..];
      assert forall i :: 0 <= i < |rest| ==> Lengths(rest)[i] == Lengths(cs)[i + 1];
      assert |x| == Lengths(cs)[0] - 1;
      TailsStep(cs, '0');
      TailsStep(cs, '1');
      RoomHead(cs[0], rest, d);
      RoomSplit(rest, d);
      FirstBit(cs[0]);
      RoomHead(x, Tails(rest, cs[0][0]), d - 1);
    }
  }

  /** The empty word begins every word. */
  lemma OnlyEmpty(cs: seq<string>, k: nat)
    requires PrefixFree(cs) && k < |cs| && cs[k] == ""
    ensures |cs| == 1
  {
    var i := if k == 0 then 1 else 0;
    assert |cs| > 1 ==> cs[k] <= cs[i] && (Apart(cs[k], cs[i]) || Apart(cs[i], cs[k]));
  }

  /** What the first word takes of the room, against the words with the same first bit. */
  lemma RoomHead(x: string, ts: seq<string>, d: nat)
    requires |x| <= d && AllBelow(Lengths(ts), d)
    ensures AllBelow(Lengths([x] + ts), d) && Room(Lengths([x] + ts), d) == Pow2(d - |x|) + Room(Lengths(ts), d)
  {
    hide Pow2, Room;
    assert Lengths([x] + ts) == [|x|] + Lengths(ts);
    assert Without([|x|] + Lengths(ts), 0) == Lengths(ts);
    RoomWithout([|x|] + Lengths(ts), 0, d);
  }

  /** Kraft's inequality: the words of a prefix-free code do not use up more than all bit strings. */
  lemma {:induction false} KraftInequality(cs: seq<string>, d: nat)
    requires PrefixFree(cs) && AllBelow(Lengths(cs), d)
    ensures Fits(Lengths(cs), d)
    decreases d
  {
    if k: nat :| k < |cs| && cs[k] == "" {
      OnlyEmpty(cs, k);
      assert Lengths(cs)[1..] == [];
    } else if cs != [] {
      assert Lengths(cs)[0] > 0;
      RoomSplit(cs, d);
      TailsPrefixFree(cs, '0');
      TailsPrefixFree(cs, '1');
      KraftInequality(Tails(cs, '0'), d - 1);
      KraftInequality(Tails(cs, '1'), d - 1);
    }
  }
}
