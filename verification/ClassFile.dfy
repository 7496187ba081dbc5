/**
 Reading the constant pool of a class file: `ParseUnsignedInt`, `ParseBytes`, the per-tag
 `ParseConstantInfo` and `ClassFile::ParseConstantPool` (sections 4.1 and 4.4 of the Java Virtual
 Machine Specification, SE 8).  A read past the end of the data, which the program does not
 check for, is `Overrun`; a tag it does not know (LOG(FATAL)) is `BadTag`.
 */
module ClassFile {
  import opened Integers
  import opened Wrappers

  datatype Result<+T> = Ok(value: T, pos: nat) | Overrun | BadTag(tag: byte)

  // ---------- Big-endian numbers ----------

  function Pow256(n: nat): (r: nat)
    ensures r > 0
  {
    if n == 0 then 1 else 0x100 * Pow256(n - 1)
  }

  function BigEndian(bs: seq<byte>): nat {
    if bs == [] then 0 else BigEndian(bs[..|bs| - 1]) * 0x100 + bs[|bs| - 1]
  }

  function Bytes(n: nat, v: nat): (bs: seq<byte>)
    ensures |bs| == n
  {
    if n == 0 then [] else Bytes(n - 1, v / 0x100) + [v % 0x100]
  }

  lemma {:induction false} BigEndianOfBytes(n: nat, v: nat)
    requires v < Pow256(n)
    ensures BigEndian(Bytes(n, v)) == v
  {
    if n > 0 {
      BigEndianOfBytes(n - 1, v / 0x100);
      assert Bytes(n, v)[..n - 1] == Bytes(n - 1, v / 0x100);
    }
  }

  lemma {:induction false} BytesOfBigEndian(bs: seq<byte>)
    ensures BigEndian(bs) < Pow256(|bs|)
    ensures Bytes(|bs|, BigEndian(bs)) == bs
  {
    if bs != [] {
      BytesOfBigEndian(bs[..|bs| - 1]);
    }
  }

  lemma SmallPowers()
    ensures Pow256(1) == 0x100 && Pow256(2) == 0x1_0000 && Pow256(4) == 0x1_0000_0000
  {
    assert Pow256(3) == 0x100_0000;
  }

  /** `ParseUnsignedInt` for a type of `size` bytes; the shifted bytes do not overlap, so `|=` adds them. */
  method ParseUnsignedInt(data: seq<byte>, pos: nat, size: nat) returns (r: Result<nat>)
    ensures r == if pos + size <= |data| then Ok(BigEndian(data[pos..pos + size]), pos + size) else Overrun
  {
    var t := 0;
    ghost var bs := if pos + size <= |data| then data[pos..pos + size] else [];
    var i := 0;
    while i < size
      invariant i <= size
      invariant i > 0 ==> pos + i <= |data|
      invariant pos + size <= |data| ==> t == BigEndian(bs[..i]) * Pow256(size - i)
    {
      if pos + i >= |data| {
        return Overrun;
      }
      if pos + size <= |data| {
        assert bs[..i + 1][..i] == bs[..i] && bs[i] == data[pos + i];
        WeightStep(BigEndian(bs[..i]), data[pos + i], size - i);
      }
      t := t + data[pos + i] * Pow256(size - 1 - i);
      i := i + 1;
    }
    if pos + size > |data| {
      return Overrun;
    }
    assert bs[..size] == bs;
    r := Ok(t, pos + size);
  }

  lemma WeightStep(high: nat, b: byte, k: nat)
    requires k > 0
    ensures high * Pow256(k) + b * Pow256(k - 1) == (high * 0x100 + b) * Pow256(k - 1)
  {
  }

  /** `ParseBytes`. */
  method ParseBytes(data: seq<byte>, pos: nat, length: nat) returns (r: Result<seq<byte>>)
    ensures r == if pos + length <= |data| then Ok(data[pos..pos + length], pos + length) else Overrun
  {
    var tmp: seq<byte> := [];
    for i := 0 to length
      invariant i > 0 ==> pos + i <= |data|
      invariant pos + i <= |data| ==> tmp == data[pos..pos + i]
    {
      if pos + i >= |data| {
        return Overrun;
      }
      tmp := tmp + [data[pos + i]];
    }
    if pos + length > |data| {
      return Overrun;
    }
    r := Ok(tmp, pos + length);
  }

  // ---------- Entries ----------

  /** The kinds whose fields are one index, and those whose fields are two. */
  datatype IndexKind = Class | String | MethodType | Module | Package
  datatype PairKind = FieldRef | MethodRef | InterfaceMethodRef | NameAndType | Dynamic | InvokeDynamic

  /** A parsed entry.  The value of the 8-byte kinds is not part of this model. */
  datatype Info =
    | Utf8(bytes: seq<byte>)
    | Integer(value: int32)
    | Float(bits: u4)
    | Long
    | Double
    | MethodHandle(reference: byte, to: u2)
    | Index(one: IndexKind, index: u2)
    | Pair(two: PairKind, first: u2, second: u2)

  predicate Wide(info: Info) {
    info.Long? || info.Double?
  }

  function IndexTag(kind: IndexKind): byte {
    match kind
    case Class => 7
    case String => 8
    case MethodType => 16
    case Module => 19
    case Package => 20
  }

  function PairTag(kind: PairKind): byte {
    match kind
    case FieldRef => 9
    case MethodRef => 10
    case InterfaceMethodRef => 11
    case NameAndType => 12
    case Dynamic => 17
    case InvokeDynamic => 18
  }

  function Tag(info: Info): byte {
    match info
    case Utf8(_) => 1
    case Integer(_) => 3
    case Float(_) => 4
    case Long => 5
    case Double => 6
    case MethodHandle(_, _) => 15
    case Index(kind, _) => IndexTag(kind)
    case Pair(kind, _, _) => PairTag(kind)
  }

  /** `CreateConstantInfo`, for the kinds with one index and with two. */
  function IndexKindOf(tag: byte): (k: Option<IndexKind>)
    ensures forall kind :: IndexTag(kind) == tag <==> k == Some(kind)
  {
    match tag
    case 7 => Some(Class)
    case 8 => Some(String)
    case 16 => Some(MethodType)
    case 19 => Some(Module)
    case 20 => Some(Package)
    case _ => None
  }

  function PairKindOf(tag: byte): (k: Option<PairKind>)
    ensures forall kind :: PairTag(kind) == tag <==> k == Some(kind)
  {
    match tag
    case 9 => Some(FieldRef)
    case 10 => Some(MethodRef)
    case 11 => Some(InterfaceMethodRef)
    case 12 => Some(NameAndType)
    case 17 => Some(Dynamic)
    case 18 => Some(InvokeDynamic)
    case _ => None
  }

  /** An entry as a class file holds it: `raw` is the 8 bytes of a long or double, empty for the other kinds. */
  datatype Entry = Entry(info: Info, raw: seq<byte>)

  predicate WellFormed(e: Entry) {
    && (e.info.Utf8? ==> |e.info.bytes| < 0x1_0000)
    && |e.raw| == if Wide(e.info) then 8 else 0
  }

  type FileEntry = e: Entry | WellFormed(e) witness Entry(Utf8([]), [])

  /** The bytes after the tag (section 4.4 of the Java Virtual Machine Specification). */
  function Fields(e: FileEntry): seq<byte> {
    match e.info
    case Utf8(bytes) => Bytes(2, |bytes|) + bytes
    case Integer(v) => Bytes(4, Unsigned32(v))
    case Float(bits) => Bytes(4, bits)
    case Long => e.raw
    case Double => e.raw
    case MethodHandle(k, a) => Bytes(1, k) + Bytes(2, a)
    case Index(_, a) => Bytes(2, a)
    case Pair(_, a, b) => Bytes(2, a) + Bytes(2, b)
  }

  function EncodeEntry(e: FileEntry): seq<byte> {
    [Tag(e.info)] + Fields(e)
  }

  // ---------- Reading at a position ----------

  /** `bs` stands in the data at `pos`. */
  predicate At(data: seq<byte>, pos: nat, bs: seq<byte>) {
    pos + |bs| <= |data| && data[pos..pos + |bs|] == bs
  }

  lemma AtSplit(data: seq<byte>, pos: nat, a: seq<byte>, b: seq<byte>)
    ensures At(data, pos, a + b) <==> At(data, pos, a) && At(data, pos + |a|, b)
  {
    if pos + |a| + |b| <= |data| {
      var whole := data[pos..pos + |a| + |b|];
      assert whole[..|a|] == data[pos..pos + |a|] && whole[|a|..] == data[pos + |a|..pos + |a| + |b|];
      assert whole == whole[..|a|] + whole[|a|..];
      assert (a + b)[..|a|] == a && (a + b)[|a|..] == b;
    }
  }

  function ReadU1(data: seq<byte>, pos: nat): Result<byte> {
    if pos < |data| then Ok(data[pos], pos + 1) else Overrun
  }

  lemma Fits(bs: seq<byte>)
    ensures |bs| == 2 ==> BigEndian(bs) < 0x1_0000
    ensures |bs| == 4 ==> BigEndian(bs) < 0x1_0000_0000
  {
    BytesOfBigEndian(bs);
    SmallPowers();
  }

  function ReadU2(data: seq<byte>, pos: nat): Result<u2> {
    if pos + 2 <= |data| then Fits(data[pos..pos + 2]); Ok(BigEndian(data[pos..pos + 2]), pos + 2) else Overrun
  }

  function ReadU4(data: seq<byte>, pos: nat): Result<u4> {
    if pos + 4 <= |data| then Fits(data[pos..pos + 4]); Ok(BigEndian(data[pos..pos + 4]), pos + 4) else Overrun
  }

  datatype Two = Two(a: u2, b: u2)

  function ReadPair(data: seq<byte>, pos: nat): Result<Two> {
    var a, b := ReadU2(data, pos), ReadU2(data, pos + 2);
    if a.Ok? && b.Ok? then Ok(Two(a.value, b.value), pos + 4) else Overrun
  }

  function ReadText(data: seq<byte>, pos: nat): (r: Result<seq<byte>>)
    ensures r.Ok? ==> |r.value| < 0x1_0000 && r.pos == pos + 2 + |r.value| <= |data|
  {
    var n := ReadU2(data, pos);
    if n.Ok? && n.pos + n.value <= |data| then Ok(data[n.pos..n.pos + n.value], n.pos + n.value) else Overrun
  }

  /** What follows the tag, by kind. */
  function ParseBody(tag: byte, data: seq<byte>, pos: nat): (r: Result<Info>)
    ensures r.Ok? ==> pos < r.pos <= |data| && Tag(r.value) == tag
  {
    match tag
    case 1 => var t := ReadText(data, pos); if t.Ok? then Ok(Utf8(t.value), t.pos) else Overrun
    case 3 => var v := ReadU4(data, pos); if v.Ok? then Ok(Integer(Signed32(v.value)), v.pos) else Overrun
    case 4 => var v := ReadU4(data, pos); if v.Ok? then Ok(Float(v.value), v.pos) else Overrun
    case 5 => if pos + 8 <= |data| then Ok(Long, pos + 8) else Overrun
    case 6 => if pos + 8 <= |data| then Ok(Double, pos + 8) else Overrun
    case 15 =>
      var k, a := ReadU1(data, pos), ReadU2(data, pos + 1);
      if k.Ok? && a.Ok? then Ok(MethodHandle(k.value, a.value), a.pos) else Overrun
    case _ =>
      var one, two := IndexKindOf(tag), PairKindOf(tag);
      if one.Some? then
        var a := ReadU2(data, pos); if a.Ok? then Ok(Index(one.value, a.value), a.pos) else Overrun
      else if two.Some? then
        var p := ReadPair(data, pos); if p.Ok? then Ok(Pair(two.value, p.value.a, p.value.b), p.pos) else Overrun
      else BadTag(tag)
  }

  function ParseInfo(data: seq<byte>, pos: nat): (r: Result<Info>)
    ensures r.Ok? ==> pos + 1 < r.pos <= |data|
  {
    if pos < |data| then ParseBody(data[pos], data, pos + 1) else Overrun
  }

  // ---------- Each entry: the parse is exact ----------

  lemma U2At(data: seq<byte>, pos: nat, v: u2)
    ensures ReadU2(data, pos) == Ok(v, pos + 2) <==> At(data, pos, Bytes(2, v))
  {
    SmallPowers();
    BigEndianOfBytes(2, v);
    if pos + 2 <= |data| {
      BytesOfBigEndian(data[pos..pos + 2]);
    }
  }

  lemma U4At(data: seq<byte>, pos: nat, v: u4)
    ensures ReadU4(data, pos) == Ok(v, pos + 4) <==> At(data, pos, Bytes(4, v))
  {
    SmallPowers();
    BigEndianOfBytes(4, v);
    if pos + 4 <= |data| {
      BytesOfBigEndian(data[pos..pos + 4]);
    }
  }

  lemma PairAt(data: seq<byte>, pos: nat, a: u2, b: u2)
    ensures ReadPair(data, pos) == Ok(Two(a, b), pos + 4) <==> At(data, pos, Bytes(2, a) + Bytes(2, b))
  {
    AtSplit(data, pos, Bytes(2, a), Bytes(2, b));
    U2At(data, pos, a);
    U2At(data, pos + 2, b);
  }

  lemma LengthThenText(data: seq<byte>, pos: nat, text: seq<byte>)
    requires |text| < 0x1_0000
    ensures ReadText(data, pos) == Ok(text, pos + 2 + |text|) <==>
            ReadU2(data, pos) == Ok(|text|, pos + 2) && At(data, pos + 2, text)
  {
  }

  lemma TextAt(data: seq<byte>, pos: nat, text: seq<byte>)
    requires |text| < 0x1_0000
    ensures ReadText(data, pos) == Ok(text, pos + 2 + |text|) <==> At(data, pos, Bytes(2, |text|) + text)
  {
    AtSplit(data, pos, Bytes(2, |text|), text);
    U2At(data, pos, |text|);
    LengthThenText(data, pos, text);
  }

  lemma HandleAt(data: seq<byte>, pos: nat, k: byte, a: u2)
    ensures ParseBody(15, data, pos) == Ok(MethodHandle(k, a), pos + 3) <==> At(data, pos, Bytes(1, k) + Bytes(2, a))
  {
    AtSplit(data, pos, Bytes(1, k), Bytes(2, a));
    U2At(data, pos + 1, a);
    assert Bytes(1, k) == [k] by { assert Bytes(0, k / 0x100) == []; }
    assert pos < |data| ==> data[pos..pos + 1] == [data[pos]];
  }

  lemma IndexAt(data: seq<byte>, pos: nat, kind: IndexKind, a: u2)
    ensures ParseBody(IndexTag(kind), data, pos) == Ok(Index(kind, a), pos + 2) <==> At(data, pos, Bytes(2, a))
  {
    U2At(data, pos, a);
    assert IndexKindOf(IndexTag(kind)) == Some(kind);
  }

  lemma PairInfoAt(data: seq<byte>, pos: nat, kind: PairKind, a: u2, b: u2)
    ensures ParseBody(PairTag(kind), data, pos) == Ok(Pair(kind, a, b), pos + 4) <==> At(data, pos, Bytes(2, a) + Bytes(2, b))
  {
    PairAt(data, pos, a, b);
    assert PairKindOf(PairTag(kind)) == Some(kind);
  }

  /** An entry with no 8-byte value is parsed from exactly its own encoding. */
  lemma NarrowBody(data: seq<byte>, pos: nat, e: FileEntry)
    requires !Wide(e.info)
    ensures ParseBody(Tag(e.info), data, pos) == Ok(e.info, pos + |Fields(e)|) <==> At(data, pos, Fields(e))
  {
    match e.info
    case Utf8(text) => TextAt(data, pos, text);
    case Integer(v) => U4At(data, pos, Unsigned32(v));
    case Float(bits) => U4At(data, pos, bits);
    case MethodHandle(k, a) => HandleAt(data, pos, k, a);
    case Index(kind, a) => IndexAt(data, pos, kind, a);
    case Pair(kind, a, b) => PairInfoAt(data, pos, kind, a, b);
  }

  /** The parser does not invent text longer than a length field can say, and ends where the fields end. */
  lemma ParsedShape(data: seq<byte>, pos: nat, tag: byte)
    requires ParseBody(tag, data, pos).Ok?
    ensures var r := ParseBody(tag, data, pos);
            (!Wide(r.value) ==> WellFormed(Entry(r.value, [])) && r.pos == pos + |Fields(Entry(r.value, []))|)
  {
  }

  /** An encoded entry parses back, whatever follows it. */
  lemma EntryRoundTrip(data: seq<byte>, pos: nat, e: FileEntry)
    requires At(data, pos, EncodeEntry(e))
    ensures ParseInfo(data, pos) == Ok(e.info, pos + |EncodeEntry(e)|)
  {
    AtSplit(data, pos, [Tag(e.info)], Fields(e));
    assert data[pos] == data[pos..pos + 1][0];
    if !Wide(e.info) {
      NarrowBody(data, pos + 1, e);
    }
  }

  /** The entry that a successful parse read. */
  function EntryRead(data: seq<byte>, pos: nat): (e: FileEntry)
    requires ParseInfo(data, pos).Ok?
    ensures e.info == ParseInfo(data, pos).value
  {
    var r := ParseInfo(data, pos);
    ParsedShape(data, pos + 1, data[pos]);
    if Wide(r.value) then Entry(r.value, data[pos + 1..r.pos]) else Entry(r.value, [])
  }

  /** Conversely, the bytes consumed are an encoding of the entry returned. */
  lemma EntryReadBack(data: seq<byte>, pos: nat)
    requires ParseInfo(data, pos).Ok?
    ensures var e := EntryRead(data, pos);
            At(data, pos, EncodeEntry(e)) && ParseInfo(data, pos).pos == pos + |EncodeEntry(e)|
  {
    var e := EntryRead(data, pos);
    AtSplit(data, pos, [Tag(e.info)], Fields(e));
    assert data[pos..pos + 1] == [data[pos]];
    ParsedShape(data, pos + 1, data[pos]);
    if !Wide(e.info) {
      NarrowBody(data, pos + 1, e);
    }
  }

  /** The tags of section 4.4, table 4.4-A, and of no other kind. */
  ghost const TAGS: map<byte, string> := map[
    1 := "Utf8", 3 := "Integer", 4 := "Float", 5 := "Long", 6 := "Double", 7 := "Class", 8 := "String",
    9 := "Fieldref", 10 := "Methodref", 11 := "InterfaceMethodref", 12 := "NameAndType", 15 := "MethodHandle",
    16 := "MethodType", 17 := "Dynamic", 18 := "InvokeDynamic", 19 := "Module", 20 := "Package"]

  /** The name that the standard gives a kind of entry. */
  ghost function KindName(info: Info): string {
    match info
    case Utf8(_) => "Utf8"
    case Integer(_) => "Integer"
    case Float(_) => "Float"
    case Long => "Long"
    case Double => "Double"
    case MethodHandle(_, _) => "MethodHandle"
    case Index(kind, _) => (match kind
                            case Class => "Class"
                            case String => "String"
                            case MethodType => "MethodType"
                            case Module => "Module"
                            case Package => "Package")
    case Pair(kind, _, _) => (match kind
                              case FieldRef => "Fieldref"
                              case MethodRef => "Methodref"
                              case InterfaceMethodRef => "InterfaceMethodref"
                              case NameAndType => "NameAndType"
                              case Dynamic => "Dynamic"
                              case InvokeDynamic => "InvokeDynamic")
  }

  lemma NamedTag(info: Info)
    ensures Tag(info) in TAGS && TAGS[Tag(info)] == KindName(info)
  {
  }

  lemma KnownTag(tag: byte, data: seq<byte>, pos: nat)
    ensures ParseBody(tag, data, pos).BadTag? <==> tag !in TAGS
    ensures ParseBody(tag, data, pos).BadTag? ==> ParseBody(tag, data, pos).tag == tag
  {
  }

  /** What a parse at `pos` gives: a kind the tag stands for, `BadTag` exactly for a tag that stands for none, and else an overrun. */
  lemma TagDecides(data: seq<byte>, pos: nat)
    ensures var r := ParseInfo(data, pos);
            && (r.Ok? ==> data[pos] in TAGS && TAGS[data[pos]] == KindName(r.value))
            && (r.BadTag? <==> pos < |data| && data[pos] !in TAGS)
            && (r.BadTag? ==> r.tag == data[pos])
            && (r.Ok? <==> exists e: FileEntry :: At(data, pos, EncodeEntry(e)))
  {
    if pos < |data| {
      KnownTag(data[pos], data, pos + 1);
    }
    if ParseInfo(data, pos).Ok? {
      EntryReadBack(data, pos);
      NamedTag(ParseInfo(data, pos).value);
    }
    if e: FileEntry :| At(data, pos, EncodeEntry(e)) {
      EntryRoundTrip(data, pos, e);
    }
  }

  /** `ParseConstantInfo`: the tag, then the fields of the kind it names. */
  method ParseConstantInfo(data: seq<byte>, start: nat) returns (r: Result<Info>)
    ensures r == ParseInfo(data, start)
  {
    var tag := ParseU1(data, start);
    if !tag.Ok? {
      return Overrun;
    }
    var pos := tag.pos;
    match tag.value {
      case 1 =>
        var n := ParseU2(data, pos);
        if !n.Ok? { return Overrun; }
        var t := ParseBytes(data, n.pos, n.value);
        r := if t.Ok? then Ok(Utf8(t.value), t.pos) else Overrun;
      case 3 => var v := ParseU4(data, pos); r := if v.Ok? then Ok(Integer(Signed32(v.value)), v.pos) else Overrun;
      case 4 => var v := ParseU4(data, pos); r := if v.Ok? then Ok(Float(v.value), v.pos) else Overrun;
      case 5 => var v := ParseUnsignedInt(data, pos, 8); r := if v.Ok? then Ok(Long, v.pos) else Overrun;
      case 6 => var v := ParseUnsignedInt(data, pos, 8); r := if v.Ok? then Ok(Double, v.pos) else Overrun;
      case 15 =>
        var k := ParseU1(data, pos);
        if !k.Ok? { return Overrun; }
        var a := ParseU2(data, k.pos);
        r := if a.Ok? then Ok(MethodHandle(k.value, a.value), a.pos) else Overrun;
      case _ =>
        var one, two := IndexKindOf(tag.value), PairKindOf(tag.value);
        if one.Some? {
          var a := ParseU2(data, pos);
          r := if a.Ok? then Ok(Index(one.value, a.value), a.pos) else Overrun;
        } else if two.Some? {
          var p := ParsePair(data, pos);
          r := if p.Ok? then Ok(Pair(two.value, p.value.a, p.value.b), p.pos) else Overrun;
        } else {
          r := BadTag(tag.value);
        }
    }
  }

  method ParseU1(data: seq<byte>, pos: nat) returns (r: Result<byte>)
    ensures r == ReadU1(data, pos)
  {
    var t := ParseUnsignedInt(data, pos, 1);
    if t.Ok? {
      assert data[pos..pos + 1] == [data[pos]] && [data[pos]][..0] == [];
      assert BigEndian([data[pos]]) == data[pos];
      return Ok(t.value, t.pos);
    }
    r := Overrun;
  }

  method ParseU2(data: seq<byte>, pos: nat) returns (r: Result<u2>)
    ensures r == ReadU2(data, pos)
  {
    var t := ParseUnsignedInt(data, pos, 2);
    if t.Ok? {
      Fits(data[pos..pos + 2]);
      return Ok(t.value, t.pos);
    }
    r := Overrun;
  }

  method ParseU4(data: seq<byte>, pos: nat) returns (r: Result<u4>)
    ensures r == ReadU4(data, pos)
  {
    var t := ParseUnsignedInt(data, pos, 4);
    if t.Ok? {
      Fits(data[pos..pos + 4]);
      return Ok(t.value, t.pos);
    }
    r := Overrun;
  }

  method ParsePair(data: seq<byte>, pos: nat) returns (r: Result<Two>)
    ensures r == ReadPair(data, pos)
  {
    var a := ParseU2(data, pos);
    if !a.Ok? {
      return Overrun;
    }
    var b := ParseU2(data, a.pos);
    r := if b.Ok? then Ok(Two(a.value, b.value), b.pos) else Overrun;
  }

  // ---------- The pool ----------

  /** A class file's pool: the count it declares, and the entries put so far (null as `None`). */
  datatype PoolView = PoolView(count: u2, infos: seq<Option<Info>>)

  class ConstantPool {
    const count: u2
    var infos: seq<Option<Info>>

    function View(): PoolView reads this {
      PoolView(count, infos)
    }

    constructor (count: u2)
      ensures View() == PoolView(count, [])
    {
      this.count := count;
      infos := [];
    }

    method PutConstantInfo(info: Option<Info>)
      modifies this
      ensures infos == old(infos) + [info]
    {
      infos := infos + [info];
    }
  }

  function Slot(info: Info): seq<Option<Info>> {
    if Wide(info) then [Some(info), None] else [Some(info)]
  }

  /** The 16-bit index after an entry. */
  function Next(i: u2, info: Info): u2 {
    (i + |Slot(info)|) % 0x1_0000
  }

  /** The loop of `ParseConstantPool`, with its 16-bit index. */
  function ParseEntries(data: seq<byte>, pos: nat, i: u2, count: u2): Result<seq<Option<Info>>>
    decreases |data| - pos
  {
    if i >= count then Ok([], pos)
    else
      var r := ParseInfo(data, pos);
      if r.Overrun? then Overrun
      else if r.BadTag? then BadTag(r.tag)
      else
        var rest := ParseEntries(data, r.pos, Next(i, r.value), count);
        if rest.Ok? then Ok(Slot(r.value) + rest.value, rest.pos) else rest
  }

  function ParsePool(data: seq<byte>, pos: nat): Result<PoolView> {
    var count := ReadU2(data, pos);
    if !count.Ok? then Overrun
    else
      match ParseEntries(data, count.pos, 1, count.value)
      case Overrun => Overrun
      case BadTag(t) => BadTag(t)
      case Ok(infos, p) => Ok(PoolView(count.value, [None] + infos), p)
  }

  /** What the rest of the loop makes of a result, after `done` is already in the pool. */
  function After(done: seq<Option<Info>>, rest: Result<seq<Option<Info>>>): Result<seq<Option<Info>>> {
    if rest.Ok? then Ok(done + rest.value, rest.pos) else rest
  }

  lemma OneEntry(data: seq<byte>, pos: nat, i: u2, count: u2, done: seq<Option<Info>>)
    requires i < count
    ensures var r := ParseInfo(data, pos);
            After(done, ParseEntries(data, pos, i, count)) ==
            if r.Ok? then After(done + Slot(r.value), ParseEntries(data, r.pos, Next(i, r.value), count))
            else if r.BadTag? then BadTag(r.tag) else Overrun
  {
    var r := ParseInfo(data, pos);
    if r.Ok? {
      var rest := ParseEntries(data, r.pos, Next(i, r.value), count);
      if rest.Ok? {
        assert done + (Slot(r.value) + rest.value) == done + Slot(r.value) + rest.value;
      }
    }
  }

  /** The body of the loop, once an entry is parsed. */
  method PutEntry(pool: ConstantPool, index: u2, info: Info) returns (i: u2)
    modifies pool
    ensures pool.infos == old(pool.infos) + Slot(info)
    ensures i == Next(index, info)
  {
    i := index;
    pool.PutConstantInfo(Some(info));
    if info.Double? || info.Long? {
      i := (i + 1) % 0x1_0000;
      pool.PutConstantInfo(None);
    }
    i := (i + 1) % 0x1_0000;
  }

  /** `ClassFile::ParseConstantPool`. */
  method ParseConstantPool(data: seq<byte>, start: nat) returns (r: Result<ConstantPool>)
    ensures r.Ok? ==> fresh(r.value)
    ensures match ParsePool(data, start)
            case Ok(view, p) => r.Ok? && r.pos == p && r.value.View() == view
            case Overrun => r == Overrun
            case BadTag(t) => r == BadTag(t)
  {
    var count := ParseU2(data, start);
    if !count.Ok? {
      return Overrun;
    }
    var pos := count.pos;
    var pool := new ConstantPool(count.value);
    pool.PutConstantInfo(None);
    assert pool.infos == [None];
    var i: u2 := 1;
    ghost var whole := After([None], ParseEntries(data, pos, 1, count.value));
    while i < pool.count
      invariant fresh(pool) && pool.count == count.value
      invariant whole == After(pool.infos, ParseEntries(data, pos, i, pool.count))
      decreases |data| - pos
    {
      OneEntry(data, pos, i, pool.count, pool.infos);
      var info := ParseConstantInfo(data, pos);
      if info.Overrun? {
        return Overrun;
      } else if info.BadTag? {
        return BadTag(info.tag);
      }
      pos := info.pos;
      i := PutEntry(pool, i, info.value);
    }
    assert pool.infos + [] == pool.infos;
    r := Ok(pool, pos);
  }

  // ---------- Round trip ----------

  function Layout(entries: seq<FileEntry>): seq<Option<Info>> {
    if entries == [] then [] else Slot(entries[0].info) + Layout(entries[1..])
  }

  function EncodeEntries(entries: seq<FileEntry>): seq<byte> {
    if entries == [] then [] else EncodeEntry(entries[0]) + EncodeEntries(entries[1..])
  }

  /** A constant pool as a class file holds it: a count one larger than the indexes used, then the entries. */
  function EncodePool(entries: seq<FileEntry>): seq<byte> {
    Bytes(2, 1 + |Layout(entries)|) + EncodeEntries(entries)
  }

  /** `whole` stands at `pos` exactly when its two parts stand there one behind the other. */
  predicate Splits(data: seq<byte>, pos: nat, whole: seq<byte>, first: seq<byte>, rest: seq<byte>) {
    && |whole| == |first| + |rest|
    && (At(data, pos, whole) <==> At(data, pos, first) && At(data, pos + |first|, rest))
  }

  lemma TwoParts(data: seq<byte>, pos: nat, whole: seq<byte>, first: seq<byte>, rest: seq<byte>)
    requires whole == first + rest
    ensures Splits(data, pos, whole, first, rest)
  {
    AtSplit(data, pos, first, rest);
  }

  lemma EncodeCons(entries: seq<FileEntry>)
    requires entries != []
    ensures EncodeEntries(entries) == EncodeEntry(entries[0]) + EncodeEntries(entries[1..])
  {
  }

  lemma FirstAndRest(data: seq<byte>, pos: nat, entries: seq<FileEntry>)
    requires entries != []
    ensures Splits(data, pos, EncodeEntries(entries), EncodeEntry(entries[0]), EncodeEntries(entries[1..]))
  {
    EncodeCons(entries);
    TwoParts(data, pos, EncodeEntries(entries), EncodeEntry(entries[0]), EncodeEntries(entries[1..]));
  }

  lemma FirstEntry(data: seq<byte>, pos: nat, entries: seq<FileEntry>)
    requires entries != [] && At(data, pos, EncodeEntries(entries))
    ensures ReadsFirst(data, pos, EncodeEntries(entries), entries[0], EncodeEntries(entries[1..]))
  {
    FirstAndRest(data, pos, entries);
    FirstRead(data, pos, EncodeEntries(entries), entries[0], EncodeEntries(entries[1..]));
  }

  /** The parse at `pos` reads `e`, and `rest`, the remainder of `whole`, follows. */
  predicate ReadsFirst(data: seq<byte>, pos: nat, whole: seq<byte>, e: FileEntry, rest: seq<byte>) {
    var r := ParseInfo(data, pos);
    r.Ok? && r.value == e.info && At(data, r.pos, rest) && pos + |whole| == r.pos + |rest|
  }

  lemma FirstRead(data: seq<byte>, pos: nat, whole: seq<byte>, e: FileEntry, rest: seq<byte>)
    requires At(data, pos, whole) && Splits(data, pos, whole, EncodeEntry(e), rest)
    ensures ReadsFirst(data, pos, whole, e, rest)
  {
    EntryRoundTrip(data, pos, e);
  }

  lemma {:induction false} EntriesRoundTrip(data: seq<byte>, pos: nat, entries: seq<FileEntry>, i: u2, count: u2)
    requires At(data, pos, EncodeEntries(entries))
    requires i > 0 && count == i + |Layout(entries)|
    ensures ParseEntries(data, pos, i, count) == Ok(Layout(entries), pos + |EncodeEntries(entries)|)
    decreases |entries|
  {
    if entries != [] {
      FirstEntry(data, pos, entries);
      var r := ParseInfo(data, pos);
      assert Layout(entries) == Slot(r.value) + Layout(entries[1..]);
      EntriesRoundTrip(data, r.pos, entries[1..], i + |Slot(r.value)|, count);
      EntriesStep(data, pos, i, count, r);
    }
  }

  /** One round of the loop, when the index does not wrap. */
  lemma EntriesStep(data: seq<byte>, pos: nat, i: u2, count: u2, r: Result<Info>)
    requires i < count && r == ParseInfo(data, pos) && r.Ok? && i + |Slot(r.value)| < 0x1_0000
    ensures var rest := ParseEntries(data, r.pos, i + |Slot(r.value)|, count);
            ParseEntries(data, pos, i, count) == if rest.Ok? then Ok(Slot(r.value) + rest.value, rest.pos) else rest
  {
    assert Next(i, r.value) == i + |Slot(r.value)|;
  }

  /** The entries that a successful run of the loop read. */
  function EntriesRead(data: seq<byte>, pos: nat, i: u2, count: u2): (entries: seq<FileEntry>)
    requires ParseEntries(data, pos, i, count).Ok?
    decreases |data| - pos
  {
    if i >= count then []
    else
      var r := ParseInfo(data, pos);
      [EntryRead(data, pos)] + EntriesRead(data, r.pos, Next(i, r.value), count)
  }

  lemma LayoutCons(e: FileEntry, rest: seq<FileEntry>)
    ensures Layout([e] + rest) == Slot(e.info) + Layout(rest)
  {
    assert ([e] + rest)[0] == e && ([e] + rest)[1..] == rest;
  }

  lemma EncodingCons(data: seq<byte>, pos: nat, e: FileEntry, rest: seq<FileEntry>, p: nat)
    requires At(data, pos, EncodeEntry(e)) && p == pos + |EncodeEntry(e)| && At(data, p, EncodeEntries(rest))
    ensures At(data, pos, EncodeEntries([e] + rest))
    ensures pos + |EncodeEntries([e] + rest)| == p + |EncodeEntries(rest)|
  {
    assert ([e] + rest)[0] == e && ([e] + rest)[1..] == rest;
    FirstAndRest(data, pos, [e] + rest);
  }

  lemma PrependRead(data: seq<byte>, pos: nat, rest: seq<FileEntry>)
    requires ParseInfo(data, pos).Ok?
    requires At(data, ParseInfo(data, pos).pos, EncodeEntries(rest))
    ensures var r, entries := ParseInfo(data, pos), [EntryRead(data, pos)] + rest;
            && Layout(entries) == Slot(r.value) + Layout(rest) && At(data, pos, EncodeEntries(entries))
            && pos + |EncodeEntries(entries)| == r.pos + |EncodeEntries(rest)|
  {
    EntryReadBack(data, pos);
    LayoutCons(EntryRead(data, pos), rest);
    EncodingCons(data, pos, EntryRead(data, pos), rest, ParseInfo(data, pos).pos);
  }

  lemma {:induction false} EntriesReadBack(data: seq<byte>, pos: nat, i: u2, count: u2)
    requires ParseEntries(data, pos, i, count).Ok? && pos <= |data|
    ensures var r, entries := ParseEntries(data, pos, i, count), EntriesRead(data, pos, i, count);
            r.value == Layout(entries) && At(data, pos, EncodeEntries(entries)) && r.pos == pos + |EncodeEntries(entries)|
    decreases |data| - pos
  {
    if i < count {
      var r := ParseInfo(data, pos);
      var next := Next(i, r.value);
      EntriesReadBack(data, r.pos, next, count);
      PrependRead(data, pos, EntriesRead(data, r.pos, next, count));
    }
  }

  /** The pool that `entries` make, with nothing at index 0. */
  function PoolOf(entries: seq<FileEntry>): PoolView
    requires |Layout(entries)| < 0xFFFF
  {
    PoolView(1 + |Layout(entries)|, [None] + Layout(entries))
  }

  /** Every pool of at most 65535 indexes parses back, whatever stands before and after it, and exactly its bytes are consumed. */
  lemma PoolRoundTrip(data: seq<byte>, pos: nat, entries: seq<FileEntry>)
    requires |Layout(entries)| < 0xFFFF
    requires At(data, pos, EncodePool(entries))
    ensures ParsePool(data, pos) == Ok(PoolOf(entries), pos + |EncodePool(entries)|)
  {
    var count := 1 + |Layout(entries)|;
    AtSplit(data, pos, Bytes(2, count), EncodeEntries(entries));
    U2At(data, pos, count);
    EntriesRoundTrip(data, pos + 2, entries, 1, count);
  }

  /** The pool has one entry for each index below its count. */
  predicate FillsItsCount(view: PoolView) {
    |view.infos| == view.count
  }

  /** A parsed pool that fills its count was encoded in exactly the bytes consumed. */
  lemma PoolReadBack(data: seq<byte>, pos: nat) returns (entries: seq<FileEntry>)
    requires ParsePool(data, pos).Ok? && FillsItsCount(ParsePool(data, pos).value)
    ensures var r := ParsePool(data, pos);
            && |Layout(entries)| < 0xFFFF && r.value == PoolOf(entries)
            && At(data, pos, EncodePool(entries)) && r.pos == pos + |EncodePool(entries)|
  {
    var count := ReadU2(data, pos).value;
    entries := EntriesRead(data, pos + 2, 1, count);
    EntriesReadBack(data, pos + 2, 1, count);
    U2At(data, pos, count);
    AtSplit(data, pos, Bytes(2, count), EncodeEntries(entries));
  }

  /** The last index the count admits holds a long or double, which leaves no index for its second half. */
  predicate EndsWide(view: PoolView) {
    view.count > 1 && view.count <= |view.infos| && view.infos[view.count - 1].Some? && Wide(view.infos[view.count - 1].value)
  }

  /** From an index on, entries fill up to the count, unless they overshoot by a wide one at the end. */
  predicate Fills(infos: seq<Option<Info>>, n: nat) {
    && |infos| >= n
    && (|infos| == n <==> !(n > 0 && infos[n - 1].Some? && Wide(infos[n - 1].value)))
  }

  predicate FillsFrom(data: seq<byte>, pos: nat, i: u2, count: u2) {
    var r := ParseEntries(data, pos, i, count);
    r.Ok? && i <= count ==> Fills(r.value, count - i)
  }

  lemma {:induction false} EntriesFill(data: seq<byte>, pos: nat, i: u2, count: u2)
    requires 1 <= i <= count
    ensures FillsFrom(data, pos, i, count)
    decreases |data| - pos
  {
    if i < count && ParseEntries(data, pos, i, count).Ok? {
      var r := ParseInfo(data, pos);
      if i + |Slot(r.value)| <= count {
        EntriesFill(data, r.pos, i + |Slot(r.value)|, count);
        FillsEarlier(data, pos, i, count, r);
      } else {
        FillsAtEnd(data, pos, i, count, r);
      }
    }
  }

  lemma FillsEarlier(data: seq<byte>, pos: nat, i: u2, count: u2, r: Result<Info>)
    requires r == ParseInfo(data, pos) && r.Ok? && i + |Slot(r.value)| <= count
    requires FillsFrom(data, r.pos, i + |Slot(r.value)|, count)
    ensures FillsFrom(data, pos, i, count)
  {
    EntriesStep(data, pos, i, count, r);
    var rest := ParseEntries(data, r.pos, i + |Slot(r.value)|, count);
    if rest.Ok? {
      FillStep(r.value, rest.value, count - i);
    }
  }

  lemma FillsAtEnd(data: seq<byte>, pos: nat, i: u2, count: u2, r: Result<Info>)
    requires r == ParseInfo(data, pos) && i < count && ParseEntries(data, pos, i, count).Ok?
    requires r.Ok? && i + |Slot(r.value)| > count
    ensures FillsFrom(data, pos, i, count)
  {
    EntriesHead(data, pos, i, count, r);
    Overshoot(ParseEntries(data, pos, i, count).value, r.value);
  }

  lemma EntriesHead(data: seq<byte>, pos: nat, i: u2, count: u2, r: Result<Info>)
    requires i < count && ParseEntries(data, pos, i, count).Ok? && r == ParseInfo(data, pos)
    ensures var infos := ParseEntries(data, pos, i, count).value;
            r.Ok? && |infos| >= |Slot(r.value)| && infos[..|Slot(r.value)|] == Slot(r.value)
  {
  }

  lemma Overshoot(infos: seq<Option<Info>>, info: Info)
    requires Wide(info) && |infos| >= 2 && infos[..2] == Slot(info)
    ensures Fills(infos, 1)
  {
    assert infos[0] == infos[..2][0];
  }

  /** With one entry more in front. */
  lemma FillStep(info: Info, rest: seq<Option<Info>>, n: nat)
    requires n >= |Slot(info)| && Fills(rest, n - |Slot(info)|)
    ensures Fills(Slot(info) + rest, n)
  {
    var infos := Slot(info) + rest;
    assert n > |Slot(info)| ==> infos[n - 1] == rest[n - 1 - |Slot(info)|];
  }

  /**
   The parser accepts a pool whose entries overshoot the declared count, in exactly one way.
   Every other parsed pool fills its count, and so was properly encoded.
   */
  lemma FillsUnlessEndsWide(data: seq<byte>, pos: nat)
    requires ParsePool(data, pos).Ok? && ParsePool(data, pos).value.count > 0
    ensures var view := ParsePool(data, pos).value;
            |view.infos| >= view.count && (FillsItsCount(view) <==> !EndsWide(view))
  {
    var view := ParsePool(data, pos).value;
    EntriesFill(data, pos + 2, 1, view.count);
    assert view.count > 1 ==> view.infos[view.count - 1] == view.infos[1..][view.count - 2];
  }
}
