/** The keys under which the service registry keeps its heartbeats, and how a key is read back. */
module RegistryKeys {
  import opened Ints
  import opened Options
  import opened Numerals

  /** One server of one service. */
  datatype Entry = Entry(name: string, ip: string, port: int)

  /** What the clean-up makes of a key: nothing, a crash in the number conversion, or an entry. */
  datatype Parsed = Malformed | Crash | Read(entry: Entry)

  function ToString(n: int): string {
    if n < 0 then "-" + Numeral(10, -n) else Numeral(10, n)
  }

  function KeyOf(e: Entry): string {
    e.name + "|" + e.ip + ":" + ToString(e.port)
  }

  /** The first place of `c` in `s` from `from` on; the length of `s` when there is none. */
  function Find(s: string, c: char, from: nat): (i: nat)
    requires from <= |s|
    ensures from <= i <= |s| && (forall k :: from <= k < i ==> s[k] != c) && (i < |s| ==> s[i] == c)
    decreases |s| - from
  {
    if from == |s| || s[from] == c then from else Find(s, c, from + 1)
  }

  predicate Space(c: char) {
    c == ' ' || '\t' <= c <= '\r'
  }

  function SkipSpace(s: string): string {
    if s != "" && Space(s[0]) then SkipSpace(s[1..]) else s
  }

  function LeadingDigits(s: string): string {
    if s != "" && '0' <= s[0] <= '9' then [s[0]] + LeadingDigits(s[1..]) else ""
  }

  /** The number a string begins with, after spaces and a sign; none when it has no digits or
      does not fit. */
  function Stoi(s: string): Option<int> {
    var t := SkipSpace(s);
    var signed := t != "" && (t[0] == '-' || t[0] == '+');
    var digits := LeadingDigits(if signed then t[1..] else t);
    var size: int := Value(10, digits);
    var n := if signed && t[0] == '-' then -size else size;
    if digits == "" || n < INT_MIN || n > INT_MAX then None else Some(n)
  }

  /** The name ends at the first '|', the address at the first ':' behind it. A missing '|'
      counts as place -1. */
  function Parse(key: string): Parsed {
    var bar := Find(key, '|', 0);
    var colon := Find(key, ':', if bar == |key| then 0 else bar + 1);
    if bar == |key| || colon == |key| then Malformed
    else match Stoi(key[colon + 1..])
      case None => Crash
      case Some(port) => Read(Entry(key[..bar], key[bar + 1..colon], port))
  }

  lemma {:induction false} AllLeading(s: string)
    requires forall i :: 0 <= i < |s| ==> '0' <= s[i] <= '9'
    ensures LeadingDigits(s) == s
  {
    if s != "" {
      AllLeading(s[1..]);
      assert s == [s[0]] + s[1..];
    }
  }

  /** Spaces, a sign or none, digits, and then anything that is not a digit: the number is that of the digits, if it
      fits, and without digits there is none. */
  lemma StoiReads(spaces: string, sign: string, digits: string, rest: string)
    requires sign == "" || sign == "+" || sign == "-"
    requires forall i :: 0 <= i < |spaces| ==> Space(spaces[i])
    requires forall i :: 0 <= i < |digits| ==> '0' <= digits[i] <= '9'
    requires rest != "" ==> !('0' <= rest[0] <= '9')
    requires sign + digits == "" && rest != "" ==> !Space(rest[0]) && rest[0] != '+' && rest[0] != '-'
    ensures var n: int := Value(10, digits); var v := if sign == "-" then -n else n;
            Stoi(spaces + (sign + (digits + rest))) == if digits != "" && InInt(v) then Some(v) else None
  {
    hide Value;
    var number := digits + rest;
    assert number != "" ==> number[0] == if digits != "" then digits[0] else rest[0];
    var tail := sign + number;
    assert sign != "" ==> tail[0] == sign[0] && tail[1..] == number;
    assert sign == "" ==> tail == number;
    SpacesSkipped(spaces, tail);
    DigitsTaken(digits, rest);
    hide SkipSpace, LeadingDigits, Space;
    StoiStep(spaces + tail, tail, number, digits, sign);
  }

  lemma StoiStep(s: string, tail: string, number: string, digits: string, sign: string)
    requires SkipSpace(s) == tail && LeadingDigits(number) == digits
    requires if sign == "" then tail == number && (tail != "" ==> tail[0] != '+' && tail[0] != '-')
             else (sign == "+" || sign == "-") && tail != "" && tail[0] == sign[0] && tail[1..] == number
    ensures var n: int := Value(10, digits); var v := if sign == "-" then -n else n;
            Stoi(s) == if digits != "" && InInt(v) then Some(v) else None
  {
    hide SkipSpace, LeadingDigits, Value;
  }

  lemma {:induction false} SpacesSkipped(spaces: string, tail: string)
    requires (forall i :: 0 <= i < |spaces| ==> Space(spaces[i])) && (tail != "" ==> !Space(tail[0]))
    ensures SkipSpace(spaces + tail) == tail
  {
    if spaces == "" {
      assert spaces + tail == tail;
    } else {
      SpacesSkipped(spaces[1..], tail);
      assert (spaces + tail)[1..] == spaces[1..] + tail;
    }
  }

  lemma {:induction false} DigitsTaken(digits: string, rest: string)
    requires forall i :: 0 <= i < |digits| ==> '0' <= digits[i] <= '9'
    requires rest != "" ==> !('0' <= rest[0] <= '9')
    ensures LeadingDigits(digits + rest) == digits
  {
    if digits == "" {
      assert digits + rest == rest;
    } else {
      DigitsTaken(digits[1..], rest);
      assert (digits + rest)[1..] == digits[1..] + rest && digits == [digits[0]] + digits[1..];
    }
  }

  /** A number printed is read back. */
  lemma StoiBack(n: int)
    requires INT_MIN <= n <= INT_MAX
    ensures Stoi(ToString(n)) == Some(n)
  {
    hide Numeral, Value;
    var s := Numeral(10, if n < 0 then -n else n);
    NumeralValue(10, if n < 0 then -n else n);
    forall i | 0 <= i < |s|
      ensures '0' <= s[i] <= '9'
    {
      assert FromHex(s[i]) < 10;
    }
    AllLeading(s);
    if n < 0 {
      assert ("-" + s)[1..] == s;
    }
  }

  ghost predicate Clean(e: Entry) {
    '|' !in e.name && ':' !in e.ip
  }

  lemma KeyPlaces(e: Entry)
    ensures var key, bar, colon := KeyOf(e), |e.name|, |e.name| + 1 + |e.ip|;
            && colon < |key| && key[bar] == '|' && key[colon] == ':'
            && key[..bar] == e.name && key[bar + 1..colon] == e.ip && key[colon + 1..] == ToString(e.port)
            && (forall k :: 0 <= k < bar ==> key[k] == e.name[k])
            && (forall k :: bar < k < colon ==> key[k] == e.ip[k - bar - 1])
  {
    hide ToString;
  }

  /** A key is read back as the entry it was made for exactly when the service name holds no
      '|' and the address no ':'. */
  lemma ParseBack(e: Entry)
    requires INT_MIN <= e.port <= INT_MAX
    ensures Parse(KeyOf(e)) == Read(e) <==> Clean(e)
  {
    hide ToString, KeyOf, Stoi;
    KeyPlaces(e);
    StoiBack(e.port);
    var key := KeyOf(e);
    var bar := Find(key, '|', 0);
    if Clean(e) {
      assert bar == |e.name|;
      assert Find(key, ':', bar + 1) == |e.name| + 1 + |e.ip|;
    } else if '|' in e.name {
      var k :| 0 <= k < |e.name| && e.name[k] == '|';
      assert bar <= k < |key| && |key[..bar]| == bar;
    } else {
      assert bar == |e.name|;
      var k :| 0 <= k < |e.ip| && e.ip[k] == ':';
      assert key[bar + 1 + k] == ':';
      assert Find(key, ':', bar + 1) <= bar + 1 + k;
    }
  }

  /** An address cut at its first ':' leaves the rest of it to the number conversion. */
  lemma ColonParse(e: Entry, k: nat)
    requires '|' !in e.name && k < |e.ip| && e.ip[k] == ':' && ':' !in e.ip[..k]
    ensures Parse(KeyOf(e)) ==
            match Stoi(e.ip[k + 1..] + ":" + ToString(e.port))
            case None => Crash
            case Some(port) => Read(Entry(e.name, e.ip[..k], port))
  {
    hide ToString, KeyOf, Stoi;
    KeyPlaces(e);
    var key, bar := KeyOf(e), |e.name|;
    assert Find(key, '|', 0) == bar;
    forall i | bar < i < bar + 1 + k
      ensures key[i] != ':'
    {
      assert e.ip[..k][i - bar - 1] == key[i];
    }
    assert key[bar + 1 + k] == ':';
    assert Find(key, ':', bar + 1) == bar + 1 + k;
    assert key[bar + 1..bar + 1 + k] == e.ip[..k];
    assert key[bar + 2 + k..] == e.ip[k + 1..] + ":" + ToString(e.port);
  }

  lemma {:induction false} LeadingStops(d: string, rest: string)
    requires (forall i :: 0 <= i < |d| ==> '0' <= d[i] <= '9') && rest != "" && !('0' <= rest[0] <= '9')
    ensures LeadingDigits(d + rest) == d
  {
    if d == "" {
      assert d + rest == rest;
    } else {
      LeadingStops(d[1..], rest);
      assert (d + rest)[1..] == d[1..] + rest;
    }
  }

  /** Of two addresses of version 6 of the Internet Protocol one cannot be read back, and one is read as another. */
  lemma SixthVersion(name: string, port: int)
    requires '|' !in name
    ensures Parse(KeyOf(Entry(name, "::1", port))) == Crash
    ensures Parse(KeyOf(Entry(name, "2001:12::1", port))) == Read(Entry(name, "2001", 12))
  {
    hide KeyOf, Parse, ToString;
    var a, b := "::1", "2001:12::1";
    ColonParse(Entry(name, a, port), 0);
    assert (a[1..] + ":" + ToString(port))[0] == ':';
    assert b[..4] == "2001";
    ColonParse(Entry(name, b, port), 4);
    var rest := "::1" + ":" + ToString(port);
    assert b[5..] + ":" + ToString(port) == "12" + rest;
    LeadingStops("12", rest);
    Twelve();
    assert SkipSpace("12" + rest) == "12" + rest;
  }

  lemma Twelve()
    ensures Value(10, "12") == 12
  {
    assert "12"[..1] == "1" && "1"[..0] == "";
    assert Value(10, "1") == 1;
  }

  /** Clean entries have different keys. */
  lemma KeysApart(e: Entry, f: Entry)
    requires Clean(e) && Clean(f) && INT_MIN <= e.port <= INT_MAX && INT_MIN <= f.port <= INT_MAX
    ensures KeyOf(e) == KeyOf(f) ==> e == f
  {
    hide KeyOf, Parse;
    ParseBack(e);
    ParseBack(f);
  }
}
