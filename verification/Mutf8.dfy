/**
 `StringConstant::DecodeMutf8`: Modified UTF-8 (section 4.4.7 of the Java Virtual Machine
 Specification, SE 8) to UTF-16.  LOG(FATAL) on malformed input is modelled as `None`.
 */
module Mutf8 {
  import opened Integers
  import opened Wrappers

  type char16 = x: int | 0 <= x < 0x10000

  // ---------- Encoding (section 4.4.7) ----------

  function EncodeOne(c: char16): (bs: seq<byte>)
    ensures 1 <= |bs| <= 3
  {
    if 1 <= c <= 0x7F then [c]
    else if c <= 0x7FF then [0xC0 + c / 0x40, 0x80 + c % 0x40]
    else [0xE0 + c / 0x1000, 0x80 + c / 0x40 % 0x40, 0x80 + c % 0x40]
  }

  function Encode(s: seq<char16>): seq<byte> {
    if s == [] then [] else EncodeOne(s[0]) + Encode(s[1..])
  }

  // ---------- Decoding ----------

  /** A continuation byte: 10xxxxxx. */
  predicate Tail(b: byte) {
    b / 0x40 == 2
  }

  /** The length of the group that a byte starts, 0 if no group may start with it. */
  function GroupLength(b: byte): nat {
    var t := b / 0x10;
    if t <= 7 then 1 else if t == 12 || t == 13 then 2 else if t == 14 then 3 else 0
  }

  /** The payload bits of a two-byte group, 110xxxxx 10xxxxxx. */
  function Join2(a: int, b: int): int {
    a % 0x20 * 0x40 + b % 0x40
  }

  /** The payload bits of a three-byte group, 1110xxxx 10xxxxxx 10xxxxxx. */
  function Join3(a: int, b: int, c: int): int {
    a % 0x10 * 0x1000 + b % 0x40 * 0x40 + c % 0x40
  }

  /** The character of the first group of the input, if it is well formed. */
  function DecodeOne(bs: seq<byte>): Option<char16>
    requires bs != []
  {
    var n := GroupLength(bs[0]);
    if n == 0 || n > |bs| then None
    else if n == 1 then Some(bs[0])
    else if n == 2 then
      if Tail(bs[1]) then Some(Join2(bs[0], bs[1])) else None
    else
      if Tail(bs[1]) && Tail(bs[2]) then Some(Join3(bs[0], bs[1], bs[2])) else None
  }

  /** The general loop, from the start. */
  function Decode(bs: seq<byte>): Option<seq<char16>> {
    if bs == [] then Some([])
    else
      var c := DecodeOne(bs);
      if c.None? then None
      else
        var rest := Decode(bs[GroupLength(bs[0])..]);
        if rest.None? then None else Some([c.value] + rest.value)
  }

  /** One round of the general loop: the switch on the leading byte. */
  method DecodeGroup(bs: seq<byte>, count: nat) returns (r: Option<char16>, n: nat)
    requires count < |bs|
    ensures r == DecodeOne(bs[count..])
    ensures r.Some? ==> n == GroupLength(bs[count])
  {
    var c := bs[count];
    var t := c / 0x10;
    if t <= 7 {
      return Some(c), 1;
    } else if t == 12 || t == 13 {
      n := 2;
      if count + n > |bs| {
        return None, n;
      }
      var char2 := bs[count + n - 1];
      if !Tail(char2) {
        return None, n;
      }
      r := Some(Join2(c, char2));
    } else if t == 14 {
      n := 3;
      if count + n > |bs| {
        return None, n;
      }
      var char2, char3 := bs[count + n - 2], bs[count + n - 1];
      if !Tail(char2) || !Tail(char3) {
        return None, n;
      }
      r := Some(Join3(c, char2, char3));
    } else {
      return None, 0;
    }
  }

  /** What remains to be decoded from `count`, after what is already in `out`. */
  function From(bs: seq<byte>, count: nat, out: seq<char16>): Option<seq<char16>>
    requires count <= |bs|
  {
    var rest := Decode(bs[count..]);
    if rest.None? then None else Some(out + rest.value)
  }

  lemma Ends(bs: seq<byte>, out: seq<char16>)
    ensures From(bs, 0, []) == Decode(bs)
    ensures From(bs, |bs|, out) == Some(out)
  {
    assert bs[0..] == bs && out + [] == out;
    assert Decode(bs).Some? ==> [] + Decode(bs).value == Decode(bs).value;
  }

  /** One round of either loop. */
  lemma Advance(bs: seq<byte>, count: nat, out: seq<char16>)
    requires count < |bs|
    ensures var c, n := DecodeOne(bs[count..]), GroupLength(bs[count]);
            if c.None? then From(bs, count, out) == None
            else count < count + n <= |bs| && From(bs, count, out) == From(bs, count + n, out + [c.value])
  {
    var here := bs[count..];
    var n := GroupLength(bs[count]);
    if DecodeOne(here).Some? {
      assert here[n..] == bs[count + n..];
      var rest := Decode(here[n..]);
      if rest.Some? {
        assert out + ([DecodeOne(here).value] + rest.value) == out + [DecodeOne(here).value] + rest.value;
      }
    }
  }

  lemma AsciiGroup(bs: seq<byte>, count: nat)
    requires count < |bs| && bs[count] <= 127
    ensures DecodeOne(bs[count..]) == Some(bs[count]) && GroupLength(bs[count]) == 1
  {
  }

  /** `DecodeMutf8`: a fast loop over leading ASCII, then the general loop. */
  method DecodeMutf8(bs: seq<byte>) returns (r: Option<seq<char16>>)
    ensures r == Decode(bs)
  {
    var out: seq<char16> := [];
    var count := 0;
    Ends(bs, out);
    while count < |bs|
      invariant count <= |bs| && From(bs, count, out) == Decode(bs)
    {
      var c := bs[count];
      if c > 127 {
        break;
      }
      Advance(bs, count, out);
      AsciiGroup(bs, count);
      count := count + 1;
      out := out + [c];
    }
    while count < |bs|
      invariant count <= |bs| && From(bs, count, out) == Decode(bs)
      decreases |bs| - count
    {
      Advance(bs, count, out);
      var c, n := DecodeGroup(bs, count);
      if c.None? {
        return None;
      }
      count := count + n;
      out := out + [c.value];
    }
    Ends(bs, out);
    r := Some(out);
  }

  // ---------- What is accepted, and what it means ----------

  /** The groups of section 4.4.7 by their payload bits, whether or not they are the shortest for their value. */
  datatype Bits = One(x: nat) | Two(x: nat, y: nat) | Three(x: nat, y: nat, z: nat)

  type Group = g: Bits |
    match g
    case One(x) => x < 0x80
    case Two(x, y) => x < 0x20 && y < 0x40
    case Three(x, y, z) => x < 0x10 && y < 0x40 && z < 0x40
    witness One(0)

  ghost function GroupBytes(g: Group): (bs: seq<byte>)
    ensures bs != []
  {
    match g
    case One(x) => [x]
    case Two(x, y) => [0xC0 + x, 0x80 + y]
    case Three(x, y, z) => [0xE0 + x, 0x80 + y, 0x80 + z]
  }

  ghost function GroupValue(g: Group): char16 {
    match g
    case One(x) => x
    case Two(x, y) => 0x40 * x + y
    case Three(x, y, z) => 0x1000 * x + 0x40 * y + z
  }

  ghost function Concat(gs: seq<Group>): seq<byte> {
    if gs == [] then [] else GroupBytes(gs[0]) + Concat(gs[1..])
  }

  ghost function Values(gs: seq<Group>): seq<char16> {
    if gs == [] then [] else [GroupValue(gs[0])] + Values(gs[1..])
  }

  lemma TailBits(b: byte)
    requires Tail(b)
    ensures 0x80 <= b < 0xC0
  {
  }

  lemma TwoValue(x: nat, y: nat)
    requires x < 0x20 && y < 0x40
    ensures GroupLength(0xC0 + x) == 2 && Tail(0x80 + y) && Join2(0xC0 + x, 0x80 + y) == 0x40 * x + y
  {
  }

  lemma ThreeValue(x: nat, y: nat, z: nat)
    requires x < 0x10 && y < 0x40 && z < 0x40
    ensures GroupLength(0xE0 + x) == 3 && Tail(0x80 + y) && Tail(0x80 + z)
    ensures Join3(0xE0 + x, 0x80 + y, 0x80 + z) == 0x1000 * x + 0x40 * y + z
  {
    assert (0xE0 + x) % 0x10 == x;
    assert (0x80 + y) % 0x40 == y && (0x80 + z) % 0x40 == z;
  }

  lemma GroupDecodes(g: Group, rest: seq<byte>)
    ensures DecodeOne(GroupBytes(g) + rest) == Some(GroupValue(g)) && GroupLength(GroupBytes(g)[0]) == |GroupBytes(g)|
  {
    match g
    case One(x) =>
    case Two(x, y) =>
      TwoValue(x, y);
      DecodeTwo(0xC0 + x, 0x80 + y, rest);
    case Three(x, y, z) =>
      ThreeValue(x, y, z);
      DecodeThree(0xE0 + x, 0x80 + y, 0x80 + z, rest);
  }

  lemma DecodedGroup(bs: seq<byte>) returns (g: Group)
    requires bs != [] && DecodeOne(bs).Some?
    ensures GroupBytes(g) == bs[..GroupLength(bs[0])] && GroupValue(g) == DecodeOne(bs).value
  {
    var n := GroupLength(bs[0]);
    if n == 1 {
      g := One(bs[0]);
    } else if n == 2 {
      assert bs[..2] == [bs[0], bs[1]];
      TailBits(bs[1]);
      TwoValue(bs[0] - 0xC0, bs[1] - 0x80);
      g := Two(bs[0] - 0xC0, bs[1] - 0x80);
    } else {
      assert bs[..3] == [bs[0], bs[1], bs[2]];
      TailBits(bs[1]);
      TailBits(bs[2]);
      ThreeValue(bs[0] - 0xE0, bs[1] - 0x80, bs[2] - 0x80);
      g := Three(bs[0] - 0xE0, bs[1] - 0x80, bs[2] - 0x80);
    }
  }

  /** Every sequence of groups is accepted, with the values of its groups. */
  lemma {:induction false} GroupsDecode(gs: seq<Group>)
    ensures Decode(Concat(gs)) == Some(Values(gs))
  {
    if gs != [] {
      var first, rest := GroupBytes(gs[0]), Concat(gs[1..]);
      GroupDecodes(gs[0], rest);
      assert (first + rest)[|first|..] == rest && (first + rest)[0] == first[0];
      GroupsDecode(gs[1..]);
    }
  }

  /** And nothing else is. */
  lemma {:induction false} DecodedGroups(bs: seq<byte>) returns (gs: seq<Group>)
    requires Decode(bs).Some?
    ensures Concat(gs) == bs && Values(gs) == Decode(bs).value
    decreases |bs|
  {
    gs := [];
    if bs != [] {
      var g := DecodedGroup(bs);
      var n := GroupLength(bs[0]);
      var more := DecodedGroups(bs[n..]);
      gs := [g] + more;
      ConsGroup(g, more, bs, n);
    }
  }

  lemma ConsGroup(g: Group, more: seq<Group>, bs: seq<byte>, n: nat)
    requires n <= |bs| && GroupBytes(g) == bs[..n] && Concat(more) == bs[n..]
    ensures Concat([g] + more) == bs
    ensures Values([g] + more) == [GroupValue(g)] + Values(more)
  {
    assert ([g] + more)[1..] == more;
    assert bs == bs[..n] + bs[n..];
  }

  // ---------- Round trips ----------

  lemma TwoBytesJoin(c: char16)
    requires c <= 0x7FF
    ensures var a, b := 0xC0 + c / 0x40, 0x80 + c % 0x40; GroupLength(a) == 2 && Tail(b) && Join2(a, b) == c
  {
  }

  lemma ThreeBytesJoin(c: char16)
    ensures var a, b, d := 0xE0 + c / 0x1000, 0x80 + c / 0x40 % 0x40, 0x80 + c % 0x40;
            GroupLength(a) == 3 && Tail(b) && Tail(d) && Join3(a, b, d) == c
  {
    assert c / 0x40 == c / 0x1000 * 0x40 + c / 0x40 % 0x40;
  }

  lemma DecodeTwo(a: byte, b: byte, rest: seq<byte>)
    requires GroupLength(a) == 2 && Tail(b)
    ensures DecodeOne([a, b] + rest) == Some(Join2(a, b))
  {
    var bs := [a, b] + rest;
    assert bs[0] == a && bs[1] == b;
  }

  lemma DecodeThree(a: byte, b: byte, d: byte, rest: seq<byte>)
    requires GroupLength(a) == 3 && Tail(b) && Tail(d)
    ensures DecodeOne([a, b, d] + rest) == Some(Join3(a, b, d))
  {
    var bs := [a, b, d] + rest;
    assert bs[0] == a && bs[1] == b && bs[2] == d;
  }

  lemma EncodeOneDecodes(c: char16, rest: seq<byte>)
    ensures DecodeOne(EncodeOne(c) + rest) == Some(c)
    ensures GroupLength(EncodeOne(c)[0]) == |EncodeOne(c)|
  {
    var bs := EncodeOne(c);
    if |bs| == 2 {
      TwoBytesJoin(c);
      DecodeTwo(bs[0], bs[1], rest);
      assert bs == [bs[0], bs[1]];
    } else if |bs| == 3 {
      ThreeBytesJoin(c);
      DecodeThree(bs[0], bs[1], bs[2], rest);
      assert bs == [bs[0], bs[1], bs[2]];
    }
  }

  /** Decoding undoes encoding, for every UTF-16 sequence (zero and lone surrogates included). */
  lemma {:induction false} RoundTrip(s: seq<char16>)
    ensures Decode(Encode(s)) == Some(s)
  {
    if s != [] {
      var first, rest := EncodeOne(s[0]), Encode(s[1..]);
      EncodeOneDecodes(s[0], rest);
      assert (first + rest)[|first|..] == rest;
      RoundTrip(s[1..]);
      assert (first + rest)[0] == first[0];
      assert [s[0]] + s[1..] == s;
    }
  }

  /** No group is longer than it need be, and zero is not a plain byte. */
  predicate CanonicalOne(bs: seq<byte>)
    requires bs != []
  {
    match GroupLength(bs[0])
    case 1 => bs[0] != 0
    case 2 => |bs| >= 2 && (Join2(bs[0], bs[1]) == 0 || Join2(bs[0], bs[1]) >= 0x80)
    case _ => |bs| >= 3 && Join3(bs[0], bs[1], bs[2]) >= 0x800
  }

  predicate Canonical(bs: seq<byte>) {
    bs == [] || (CanonicalOne(bs) && var n := GroupLength(bs[0]); 0 < n <= |bs| && Canonical(bs[n..]))
  }

  lemma TwoByteForm(a: byte, b: byte)
    requires GroupLength(a) == 2 && Tail(b)
    ensures var c := Join2(a, b); 0 <= c < 0x800 && a == 0xC0 + c / 0x40 && b == 0x80 + c % 0x40
  {
  }

  lemma ThreeByteForm(a: byte, b: byte, d: byte)
    requires GroupLength(a) == 3 && Tail(b) && Tail(d)
    ensures var c := Join3(a, b, d);
            0 <= c < 0x10000 && a == 0xE0 + c / 0x1000 && b == 0x80 + c / 0x40 % 0x40 && d == 0x80 + c % 0x40
  {
    var x, y, z := a - 0xE0, b - 0x80, d - 0x80;
    assert 0 <= x < 0x10 && 0 <= y < 0x40 && 0 <= z < 0x40;
    ThreeValue(x, y, z);
    Digits(x, y, z);
  }

  lemma Digits(x: nat, y: nat, z: nat)
    requires x < 0x10 && y < 0x40 && z < 0x40
    ensures var c := 0x1000 * x + 0x40 * y + z;
            c < 0x10000 && c / 0x1000 == x && c / 0x40 % 0x40 == y && c % 0x40 == z
  {
    var c := 0x1000 * x + 0x40 * y + z;
    assert c / 0x40 == 0x40 * x + y;
  }

  lemma TwoEncode(a: byte, b: byte)
    requires GroupLength(a) == 2 && Tail(b)
    ensures 0 <= Join2(a, b) < 0x10000
    ensures EncodeOne(Join2(a, b)) == [a, b] <==> Join2(a, b) == 0 || Join2(a, b) >= 0x80
  {
    TwoByteForm(a, b);
    var c := Join2(a, b);
    assert 1 <= c < 0x80 ==> |EncodeOne(c)| == 1;
  }

  lemma ThreeEncode(a: byte, b: byte, d: byte)
    requires GroupLength(a) == 3 && Tail(b) && Tail(d)
    ensures 0 <= Join3(a, b, d) < 0x10000
    ensures EncodeOne(Join3(a, b, d)) == [a, b, d] <==> Join3(a, b, d) >= 0x800
  {
    ThreeByteForm(a, b, d);
    var c := Join3(a, b, d);
    assert c < 0x800 ==> |EncodeOne(c)| <= 2;
  }

  lemma DecodeOneEncodes(bs: seq<byte>)
    requires bs != [] && DecodeOne(bs).Some?
    ensures EncodeOne(DecodeOne(bs).value) == bs[..GroupLength(bs[0])] <==> CanonicalOne(bs)
  {
    var n := GroupLength(bs[0]);
    if n == 1 {
      assert bs[..1] == [bs[0]];
    } else if n == 2 {
      assert bs[..2] == [bs[0], bs[1]];
      TwoEncode(bs[0], bs[1]);
    } else {
      assert bs[..3] == [bs[0], bs[1], bs[2]];
      ThreeEncode(bs[0], bs[1], bs[2]);
    }
  }

  lemma SameCut(first: seq<byte>, rest: seq<byte>, bs: seq<byte>, n: nat)
    requires first != [] && bs != [] && n <= |bs|
    requires first[0] == bs[0] ==> |first| == n
    ensures first + rest == bs <==> first == bs[..n] && rest == bs[n..]
  {
    assert bs[..n] + bs[n..] == bs;
    if first + rest == bs {
      assert bs[0] == first[0];
      assert (first + rest)[..n] == first && (first + rest)[n..] == rest;
    }
  }

  /** Encoding undoes decoding exactly on canonical input: the decoder also accepts overlong forms and plain zero bytes. */
  lemma {:induction false} RoundTripBack(bs: seq<byte>)
    requires Decode(bs).Some?
    ensures Encode(Decode(bs).value) == bs <==> Canonical(bs)
    decreases |bs|
  {
    if bs != [] {
      var n, c := GroupLength(bs[0]), DecodeOne(bs).value;
      DecodeOneEncodes(bs);
      RoundTripBack(bs[n..]);
      var rest := Decode(bs[n..]).value;
      assert ([c] + rest)[1..] == rest;
      assert Encode(Decode(bs).value) == EncodeOne(c) + Encode(rest);
      EncodeOneDecodes(c, []);
      SameCut(EncodeOne(c), Encode(rest), bs, n);
    }
  }

  /** An overlong 'A' is accepted, and does not come back. */
  lemma OverlongExample()
    ensures Decode([0xC1, 0x81]) == Some([0x41]) && Encode([0x41]) == [0x41] && !Canonical([0xC1, 0x81])
  {
    var bs: seq<byte> := [0xC1, 0x81];
    assert DecodeOne(bs) == Some(0x41) && bs[2..] == [];
    var s: seq<char16>, rest: seq<char16> := [0x41], [];
    assert s + rest == s;
    assert Decode(bs) == Some([DecodeOne(bs).value] + rest);
    assert s[1..] == [] && Encode(s) == EncodeOne(0x41) + [];
  }

  /** A plain zero byte is accepted, and comes back as two bytes. */
  lemma PlainZeroExample()
    ensures Decode([0]) == Some([0]) && Encode([0]) == [0xC0, 0x80] && !Canonical([0])
  {
    var bs: seq<byte> := [0];
    assert DecodeOne(bs) == Some(0) && bs[1..] == [];
    var s: seq<char16>, rest: seq<char16> := [0], [];
    assert s + rest == s;
    assert Decode(bs) == Some([DecodeOne(bs).value] + rest);
    assert s[1..] == [] && Encode(s) == EncodeOne(0) + [];
  }
}
