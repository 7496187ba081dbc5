/**
 The runtime constant pool: the constructor's walk over a parsed pool, skipping the second
 index of each long and double by bumping its own loop index, and the name lookups it makes.
 */
module RuntimePool {
  import opened ClassFile
  import opened Integers
  import opened Wrappers

  datatype Names = Names(name: seq<byte>, descriptor: seq<byte>)

  datatype Constant =
    | IntegerConstant(value: int32)
    | FloatConstant(bits: u4)
    | LongConstant
    | DoubleConstant
    | StringConstant(text: seq<byte>)
    | ClassRefConstant(name: seq<byte>)
    | MemberRefConstant(kind: PairKind, owner: seq<byte>, member: Names)

  // ---------- Lookups in the parsed pool; `None` where the program aborts or dereferences null ----------

  /** `GetConstantInfo`. */
  function GetConstantInfo(pool: PoolView, index: int): Option<Info> {
    if 1 <= index < pool.count && index < |pool.infos| then pool.infos[index] else None
  }

  function GetUtf8(pool: PoolView, index: u2): Option<seq<byte>> {
    var info := GetConstantInfo(pool, index);
    if info.Some? && info.value.Utf8? then Some(info.value.bytes) else None
  }

  function GetClassName(pool: PoolView, index: u2): Option<seq<byte>> {
    var info := GetConstantInfo(pool, index);
    if info.Some? && info.value.Index? && info.value.one == Class then GetUtf8(pool, info.value.index) else None
  }

  function GetNameAndType(pool: PoolView, index: u2): Option<Names> {
    var info := GetConstantInfo(pool, index);
    if info.Some? && info.value.Pair? && info.value.two == NameAndType then
      var name, descriptor := GetUtf8(pool, info.value.first), GetUtf8(pool, info.value.second);
      if name.Some? && descriptor.Some? then Some(Names(name.value, descriptor.value)) else None
    else None
  }

  /** What the switch makes of an entry: nothing if a lookup fails, and possibly a null constant. */
  function Make(pool: PoolView, info: Info): Option<Option<Constant>> {
    match info
    case Integer(v) => Some(Some(IntegerConstant(v)))
    case Float(bits) => Some(Some(FloatConstant(bits)))
    case Long => Some(Some(LongConstant))
    case Double => Some(Some(DoubleConstant))
    case Index(String, n) =>
      var text := GetUtf8(pool, n);
      if text.Some? then Some(Some(StringConstant(text.value))) else None
    case Index(Class, n) =>
      var name := GetUtf8(pool, n);
      if name.Some? then Some(Some(ClassRefConstant(name.value))) else None
    case Pair(kind, c, nt) =>
      if kind == FieldRef || kind == MethodRef || kind == InterfaceMethodRef then
        var owner, member := GetClassName(pool, c), GetNameAndType(pool, nt);
        if owner.Some? && member.Some? then Some(Some(MemberRefConstant(kind, owner.value, member.value))) else None
      else Some(None)
    case _ => Some(None)
  }

  // ---------- The walk ----------

  /** How the walk ends: with its constants, or at the index where it goes wrong. */
  datatype Outcome =
    | Built(constants: seq<Option<Constant>>)
    | NullEntry(at: int)
    | BadLink(at: int)
    | PastEnd(at: int)

  function Nulls(n: nat): (cs: seq<Option<Constant>>)
    ensures |cs| == n && forall k :: 0 <= k < n ==> cs[k] == None
  {
    seq(n, _ => None)
  }

  function Walk(pool: PoolView, i: nat, constants: seq<Option<Constant>>): Outcome
    requires |constants| == pool.count
    decreases pool.count - i
  {
    if i >= pool.count then Built(constants)
    else
      var info := GetConstantInfo(pool, i);
      if info.None? then NullEntry(i)
      else
        var c := Make(pool, info.value);
        if c.None? then BadLink(i)
        else if !Wide(info.value) then Walk(pool, i + 1, constants[i := c.value])
        else if i + 1 < pool.count then Walk(pool, i + 2, constants[i := c.value][i + 1 := None])
        else PastEnd(i)
  }

  /** The constructor of the runtime pool. */
  method Build(cf: ConstantPool) returns (r: Outcome)
    ensures r == Walk(cf.View(), 1, Nulls(cf.count))
  {
    ghost var pool := cf.View();
    var constants: seq<Option<Constant>> := seq(cf.count, _ => None);
    var i := 1;
    assert constants == Nulls(cf.count);
    while i < cf.count
      invariant 1 <= i && |constants| == cf.count && cf.View() == pool
      invariant i < cf.count ==> Walk(pool, i, constants) == Walk(pool, 1, Nulls(cf.count))
      invariant i >= cf.count ==> Built(constants) == Walk(pool, 1, Nulls(cf.count))
    {
      var info := GetConstantInfo(cf.View(), i);
      if info.None? {
        return NullEntry(i);
      }
      var c := Make(cf.View(), info.value);
      if c.None? {
        return BadLink(i);
      }
      ghost var before := constants;
      constants := constants[i := c.value];
      if info.value.Long? || info.value.Double? {
        i := i + 1;
        if i >= |constants| {
          return PastEnd(i - 1);
        }
        constants := constants[i := None];
      }
      i := i + 1;
    }
    r := Built(constants);
  }

  // ---------- When the walk succeeds ----------

  predicate IsUtf8(pool: PoolView, index: u2) {
    1 <= index < pool.count && index < |pool.infos| && pool.infos[index].Some? && pool.infos[index].value.Utf8?
  }

  predicate IsClass(pool: PoolView, index: u2) {
    && 1 <= index < pool.count && index < |pool.infos|
    && exists n: u2 :: pool.infos[index] == Some(Index(Class, n)) && IsUtf8(pool, n)
  }

  predicate IsNameAndType(pool: PoolView, index: u2) {
    && 1 <= index < pool.count && index < |pool.infos|
    && exists n: u2, d: u2 :: pool.infos[index] == Some(Pair(NameAndType, n, d)) && IsUtf8(pool, n) && IsUtf8(pool, d)
  }

  /** The indexes an entry uses at run time name entries of the kinds section 4.4 of the Java Virtual Machine Specification asks for. */
  predicate Linked(pool: PoolView, info: Info) {
    && (info.Index? && (info.one == Class || info.one == String) ==> IsUtf8(pool, info.index))
    && (info.Pair? && (info.two == FieldRef || info.two == MethodRef || info.two == InterfaceMethodRef) ==>
          IsClass(pool, info.first) && IsNameAndType(pool, info.second))
  }

  lemma MakeExactlyWhenLinked(pool: PoolView, info: Info)
    ensures Make(pool, info).Some? <==> Linked(pool, info)
  {
  }

  predicate AllLinked(pool: PoolView, from: nat) {
    forall k :: from <= k < pool.count && k < |pool.infos| && pool.infos[k].Some? ==> Linked(pool, pool.infos[k].value)
  }

  // ---------- What each constant holds, in terms of the file's entries ----------

  predicate HasUtf8(pool: PoolView, index: u2, text: seq<byte>) {
    1 <= index < pool.count && index < |pool.infos| && pool.infos[index] == Some(Utf8(text))
  }

  ghost predicate HasClass(pool: PoolView, index: u2, name: seq<byte>) {
    && 1 <= index < pool.count && index < |pool.infos|
    && exists n: u2 :: pool.infos[index] == Some(Index(Class, n)) && HasUtf8(pool, n, name)
  }

  ghost predicate HasNames(pool: PoolView, index: u2, names: Names) {
    && 1 <= index < pool.count && index < |pool.infos|
    && exists n: u2, d: u2 :: pool.infos[index] == Some(Pair(NameAndType, n, d))
                              && HasUtf8(pool, n, names.name) && HasUtf8(pool, d, names.descriptor)
  }

  /**
   The constant of an entry (section 4.4 of the Java Virtual Machine Specification): its value, the text
   that it names, or the class, name and descriptor that a reference names.  There is none for index 0,
   behind a long or double, and for the kinds that are not kept.
   */
  ghost predicate IsConstantOf(pool: PoolView, entry: Option<Info>, c: Option<Constant>) {
    match entry
    case Some(Integer(v)) => c == Some(IntegerConstant(v))
    case Some(Float(bits)) => c == Some(FloatConstant(bits))
    case Some(Long) => c == Some(LongConstant)
    case Some(Double) => c == Some(DoubleConstant)
    case Some(Index(String, n)) => c.Some? && c.value.StringConstant? && HasUtf8(pool, n, c.value.text)
    case Some(Index(Class, n)) => c.Some? && c.value.ClassRefConstant? && HasUtf8(pool, n, c.value.name)
    case Some(Pair(kind, a, b)) =>
      if kind == FieldRef || kind == MethodRef || kind == InterfaceMethodRef then
        && c.Some? && c.value.MemberRefConstant? && c.value.kind == kind
        && HasClass(pool, a, c.value.owner) && HasNames(pool, b, c.value.member)
      else c == None
    case _ => c == None
  }

  lemma MakeIsConstantOf(pool: PoolView, info: Info)
    requires Make(pool, info).Some?
    ensures IsConstantOf(pool, Some(info), Make(pool, info).value)
  {
  }

  /** There is only one constant of an entry. */
  lemma OneConstantOf(pool: PoolView, entry: Option<Info>, c: Option<Constant>, d: Option<Constant>)
    requires IsConstantOf(pool, entry, c) && IsConstantOf(pool, entry, d)
    ensures c == d
  {
  }

  /** The pool a parse leaves behind: entries at their indexes from 1, covering at least the declared count. */
  predicate LaidOut(pool: PoolView, entries: seq<FileEntry>) {
    pool.infos == [None] + Layout(entries) && 1 <= pool.count <= |pool.infos|
  }

  /** The constants below `i` are in place. */
  ghost predicate DoneBelow(pool: PoolView, i: nat, constants: seq<Option<Constant>>) {
    && i <= pool.count == |constants| <= |pool.infos|
    && (forall k :: 0 <= k < i && pool.infos[k].Some? ==> Linked(pool, pool.infos[k].value))
    && (forall k :: 0 <= k < i ==> IsConstantOf(pool, pool.infos[k], constants[k]))
  }

  /**
   The walk from `i` never meets a null entry.  It goes past the end only at a long or double on the last
   index, and it builds the pool exactly when there is none and every index it follows is good.
   What it builds has each entry's constant at the entry's own index.
   */
  ghost predicate EndsWell(pool: PoolView, i: nat, r: Outcome) {
    && !r.NullEntry?
    && (r.PastEnd? ==> EndsWide(pool) && r.at == pool.count - 1)
    && (r.BadLink? ==> i <= r.at < pool.count <= |pool.infos| && pool.infos[r.at].Some? && !Linked(pool, pool.infos[r.at].value))
    && (r.Built? <==> AllLinked(pool, i) && !EndsWide(pool))
    && (r.Built? ==> |r.constants| == pool.count)
    && (r.Built? && pool.count > 0 ==> DoneBelow(pool, pool.count, r.constants))
  }

  lemma FirstSlot(pool: PoolView, entries: seq<FileEntry>, i: nat)
    requires i < |pool.infos| && pool.infos[i..] == Layout(entries)
    ensures entries != [] && pool.infos[i] == Some(entries[0].info)
    ensures var n := |Slot(entries[0].info)|;
            i + n <= |pool.infos| && pool.infos[i + n..] == Layout(entries[1..])
    ensures Wide(entries[0].info) ==> pool.infos[i + 1] == None
  {
    var info, rest := entries[0].info, pool.infos[i..];
    assert rest[0] == Some(info) && rest[|Slot(info)|..] == Layout(entries[1..]);
    assert Wide(info) ==> rest[1] == None;
    assert pool.infos[i + |Slot(info)|..] == rest[|Slot(info)|..];
  }

  lemma OneStep(pool: PoolView, i: nat, info: Info, constants: seq<Option<Constant>>) returns (next: seq<Option<Constant>>)
    requires DoneBelow(pool, i, constants) && 0 < i < pool.count
    requires pool.infos[i] == Some(info) && Linked(pool, info)
    requires Wide(info) ==> i + 2 <= pool.count && pool.infos[i + 1] == None
    ensures DoneBelow(pool, i + |Slot(info)|, next)
    ensures Walk(pool, i, constants) == Walk(pool, i + |Slot(info)|, next)
  {
    MakeExactlyWhenLinked(pool, info);
    MakeIsConstantOf(pool, info);
    next := constants[i := Make(pool, info).value];
    if Wide(info) {
      next := next[i + 1 := None];
    }
  }

  lemma AllLinkedStep(pool: PoolView, i: nat, n: nat)
    requires n == 1 || n == 2
    requires i + n <= |pool.infos| && pool.infos[i].Some? && Linked(pool, pool.infos[i].value)
    requires n == 2 ==> pool.infos[i + 1] == None
    ensures AllLinked(pool, i) <==> AllLinked(pool, i + n)
  {
  }

  lemma {:induction false} WalkFrom(pool: PoolView, entries: seq<FileEntry>, i: nat, constants: seq<Option<Constant>>)
    requires DoneBelow(pool, i, constants) && i > 0
    requires pool.infos[i..] == Layout(entries)
    requires i == pool.count ==> !EndsWide(pool)
    ensures EndsWell(pool, i, Walk(pool, i, constants))
    decreases |entries|
  {
    if i < pool.count {
      FirstSlot(pool, entries, i);
      var info := entries[0].info;
      var n := |Slot(info)|;
      if Linked(pool, info) && i + n <= pool.count {
        var next := OneStep(pool, i, info, constants);
        WalkFrom(pool, entries[1..], i + n, next);
        EndsWellEarlier(pool, i, n, Walk(pool, i + n, next));
      } else {
        WalkStops(pool, i, info, constants);
      }
    }
  }

  /** Where the walk ends at this entry. */
  lemma WalkStops(pool: PoolView, i: nat, info: Info, constants: seq<Option<Constant>>)
    requires |constants| == pool.count <= |pool.infos| && 0 < i < pool.count && pool.infos[i] == Some(info)
    requires !Linked(pool, info) || i + |Slot(info)| > pool.count
    ensures EndsWell(pool, i, Walk(pool, i, constants))
  {
    MakeExactlyWhenLinked(pool, info);
  }

  lemma EndsWellEarlier(pool: PoolView, i: nat, n: nat, r: Outcome)
    requires n == 1 || n == 2
    requires i + n <= |pool.infos| && pool.infos[i].Some? && Linked(pool, pool.infos[i].value)
    requires n == 2 ==> pool.infos[i + 1] == None
    requires EndsWell(pool, i + n, r)
    ensures EndsWell(pool, i, r)
  {
    AllLinkedStep(pool, i, n);
  }

  /** The whole walk over a pool that holds its entries at their indexes. */
  lemma WalkExact(pool: PoolView, entries: seq<FileEntry>)
    requires LaidOut(pool, entries)
    ensures EndsWell(pool, 1, Walk(pool, 1, Nulls(pool.count)))
  {
    assert pool.infos[1..] == Layout(entries);
    WalkFrom(pool, entries, 1, Nulls(pool.count));
  }

  /** The same of any bytes that parse: only a last index that is wide, or a bad link, stops the walk. */
  lemma ParsedPoolIsWalked(data: seq<byte>, pos: nat)
    requires ParsePool(data, pos).Ok?
    ensures var pool := ParsePool(data, pos).value;
            EndsWell(pool, 1, Walk(pool, 1, Nulls(pool.count)))
  {
    var pool := ParsePool(data, pos).value;
    if pool.count > 0 {
      EntriesReadBack(data, pos + 2, 1, pool.count);
      FillsUnlessEndsWide(data, pos);
      WalkExact(pool, EntriesRead(data, pos + 2, 1, pool.count));
    }
  }

  /** From file to runtime pool: any properly encoded, properly linked pool is read and built, entry by entry. */
  lemma EncodedPoolIsBuilt(data: seq<byte>, pos: nat, entries: seq<FileEntry>)
    requires |Layout(entries)| < 0xFFFF && At(data, pos, EncodePool(entries))
    requires AllLinked(PoolOf(entries), 1)
    ensures ParsePool(data, pos) == Ok(PoolOf(entries), pos + |EncodePool(entries)|)
    ensures var pool := PoolOf(entries);
            var r := Walk(pool, 1, Nulls(pool.count));
            r.Built? && DoneBelow(pool, pool.count, r.constants)
  {
    PoolRoundTrip(data, pos, entries);
    FillsUnlessEndsWide(data, pos);
    WalkExact(PoolOf(entries), entries);
  }

  /** Two indexes declared and a long at the last: the bytes parse, and the walk then writes past its constants. */
  lemma WideAtTheEnd() returns (data: seq<byte>)
    ensures ParsePool(data, 0) == Ok(PoolView(2, [None, Some(Long), None]), 11)
    ensures Walk(PoolView(2, [None, Some(Long), None]), 1, Nulls(2)) == PastEnd(1)
  {
    data := [0, 2, 5, 0, 0, 0, 0, 0, 0, 0, 7];
    assert Bytes(2, 2) == [0, 2] by { assert Bytes(1, 0) == [0]; }
    assert data[0..2] == Bytes(2, 2);
    U2At(data, 0, 2);
    assert ParseInfo(data, 2) == Ok(Long, 11);
    assert ParseEntries(data, 11, 3, 2) == Ok([], 11);
    assert Next(1, Long) == 3 && Slot(Long) + [] == [Some(Long), None];
    assert ParseEntries(data, 2, 1, 2) == Ok([Some(Long), None], 11);
    assert [None] + [Some(Long), None] == [None, Some(Long), None];
  }
}
