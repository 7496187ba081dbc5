/**
 Preparing a class: slots for the instance fields of a class and all its superclasses, slots for
 its static fields, and the values of its static final fields.  Slot counters are 32 bits wide
 and the static slot array takes a 16-bit count and 16-bit indexes.
 */
module ClassLayout {
  import opened Integers
  import opened S = Slots
  import opened Wrappers

  datatype FieldInfo = FieldInfo(name: string, descriptor: string, isStatic: bool, isFinal: bool, constIndex: u2)

  /** `descriptor[0]`, which is the terminator of an empty string. */
  function Head(descriptor: string): char {
    if descriptor == "" then '\0' else descriptor[0]
  }

  predicate IsLongOrDouble(f: FieldInfo) {
    f.descriptor == "J" || f.descriptor == "D" || Head(f.descriptor) == '[' || Head(f.descriptor) == 'L'
  }

  function Width(f: FieldInfo): nat {
    if IsLongOrDouble(f) then 2 else 1
  }

  /** The types of section 4.3.2 of the Java Virtual Machine Specification, and how a descriptor spells them. */
  datatype FieldType = Primitive(letter: char) | Object(className: string) | ArrayOf(component: FieldType)

  ghost function Spelling(t: FieldType): string {
    match t
    case Primitive(letter) => [letter]
    case Object(className) => "L" + className + ";"
    case ArrayOf(component) => "[" + Spelling(component)
  }

  ghost predicate IsType(t: FieldType) {
    match t
    case Primitive(letter) => letter in "BCDFIJSZ"
    case Object(_) => true
    case ArrayOf(component) => IsType(component)
  }

  /** Two slots for a long, a double and every reference, one for the rest. */
  lemma WidthOfType(f: FieldInfo, t: FieldType)
    requires IsType(t) && f.descriptor == Spelling(t)
    ensures Width(f) == if t.Primitive? && t.letter != 'J' && t.letter != 'D' then 1 else 2
  {
    assert t.Primitive? ==> f.descriptor[0] == t.letter && |f.descriptor| == 1;
  }

  // ---------- Tiling ----------

  /** The slots each field takes in its area: those of the other kind take none. */
  function Widths(fs: seq<FieldInfo>, isStatic: bool): (ws: seq<nat>)
    ensures |ws| == |fs|
    ensures forall k :: 0 <= k < |fs| ==> ws[k] == if fs[k].isStatic == isStatic then Width(fs[k]) else 0
  {
    seq(|fs|, k requires 0 <= k < |fs| => if fs[k].isStatic == isStatic then Width(fs[k]) else 0)
  }

  function Start(ws: seq<nat>, k: nat): nat
    requires k <= |ws|
  {
    if k == 0 then 0 else Start(ws, k - 1) + ws[k - 1]
  }

  function Sum(ws: seq<nat>): nat {
    Start(ws, |ws|)
  }

  predicate Owns(ws: seq<nat>, k: nat, s: nat) {
    k < |ws| && Start(ws, k) <= s < Start(ws, k) + ws[k]
  }

  lemma {:induction false} StartGrows(ws: seq<nat>, j: nat, k: nat)
    requires j <= k <= |ws|
    ensures Start(ws, j) <= Start(ws, k)
    decreases k - j
  {
    if j < k {
      StartGrows(ws, j, k - 1);
    }
  }

  lemma {:induction false} SomeOwner(ws: seq<nat>, n: nat, s: nat) returns (k: nat)
    requires n <= |ws| && s < Start(ws, n)
    ensures Owns(ws, k, s)
  {
    if s >= Start(ws, n - 1) {
      k := n - 1;
    } else {
      k := SomeOwner(ws, n - 1, s);
    }
  }

  lemma OneOwner(ws: seq<nat>, j: nat, k: nat, s: nat)
    requires Owns(ws, j, s) && Owns(ws, k, s)
    ensures j == k
  {
    if j < k {
      StartGrows(ws, j + 1, k);
    } else if k < j {
      StartGrows(ws, k + 1, j);
    }
  }

  ghost predicate Owned(ws: seq<nat>, s: nat) {
    exists k: nat :: Owns(ws, k, s)
  }

  /** The fields tile their area: each slot below the count, and no other, belongs to exactly one of them. */
  lemma Tiles(ws: seq<nat>)
    ensures forall s: nat :: Owned(ws, s) <==> s < Sum(ws)
    ensures forall j: nat, k: nat, s: nat :: Owns(ws, j, s) && Owns(ws, k, s) ==> j == k
  {
    forall s: nat
      ensures Owned(ws, s) <==> s < Sum(ws)
    {
      if s < Sum(ws) {
        var k := SomeOwner(ws, |ws|, s);
      }
      forall k: nat | Owns(ws, k, s)
        ensures s < Sum(ws)
      {
        StartGrows(ws, k + 1, |ws|);
      }
    }
    forall j: nat, k: nat, s: nat | Owns(ws, j, s) && Owns(ws, k, s)
      ensures j == k
    {
      OneOwner(ws, j, k, s);
    }
  }

  lemma {:induction false} StartOfAppend(a: seq<nat>, b: seq<nat>, k: nat)
    requires k <= |b|
    ensures Start(a + b, |a| + k) == Sum(a) + Start(b, k)
  {
    if k == 0 {
      SamePrefix(a + b, a, |a|);
    } else {
      StartOfAppend(a, b, k - 1);
    }
  }

  lemma {:induction false} SamePrefix(a: seq<nat>, b: seq<nat>, k: nat)
    requires k <= |a| && k <= |b| && a[..k] == b[..k]
    ensures Start(a, k) == Start(b, k)
  {
    if k > 0 {
      assert a[..k][k - 1] == a[k - 1] && b[..k][k - 1] == b[k - 1];
      assert a[..k - 1] == a[..k][..k - 1] && b[..k - 1] == b[..k][..k - 1];
      SamePrefix(a, b, k - 1);
    }
  }

  lemma {:induction false} StartBound(ws: seq<nat>, k: nat)
    requires k <= |ws| && forall j :: 0 <= j < |ws| ==> ws[j] <= 2
    ensures Start(ws, k) <= 2 * k
  {
    if k > 0 {
      StartBound(ws, k - 1);
    }
  }

  // ---------- Instance fields of a whole hierarchy ----------

  /** A 32-bit counter, and where it stands after `n` increments. */
  function Inc(c: u4): u4 {
    if c == 0xFFFF_FFFF then 0 else c + 1
  }

  function Wrap(n: nat): u4 {
    if n == 0 then 0 else Inc(Wrap(n - 1))
  }

  lemma {:induction false} WrapSmall(n: nat)
    requires n < 0x1_0000_0000
    ensures Wrap(n) == n
  {
    if n > 0 {
      WrapSmall(n - 1);
    }
  }

  /** Instance layout of a hierarchy, given by the fields of its classes from the root down: where the counter puts a field. */
  function SlotOf(lineage: seq<FieldInfo>, k: nat): u4
    requires k <= |lineage|
  {
    Wrap(Start(Widths(lineage, false), k))
  }

  function InstanceSlots(lineage: seq<FieldInfo>): nat {
    Sum(Widths(lineage, false))
  }

  /** Slot `s` belongs to instance field `k`, where the (wrapping) counter put it. */
  predicate Holds(lineage: seq<FieldInfo>, k: nat, s: nat) {
    k < |lineage| && !lineage[k].isStatic && SlotOf(lineage, k) <= s < SlotOf(lineage, k) + Width(lineage[k])
  }

  ghost predicate Held(lineage: seq<FieldInfo>, s: nat) {
    exists k: nat :: Holds(lineage, k, s)
  }

  ghost predicate Disjoint(lineage: seq<FieldInfo>) {
    forall j: nat, k: nat, s: nat :: Holds(lineage, j, s) && Holds(lineage, k, s) ==> j == k
  }

  /** The fields hold exactly the slots below the stored count. */
  ghost predicate Covered(lineage: seq<FieldInfo>) {
    forall s: nat :: Held(lineage, s) <==> s < Wrap(InstanceSlots(lineage))
  }

  lemma HoldsOwns(lineage: seq<FieldInfo>, k: nat, s: nat)
    requires InstanceSlots(lineage) < 0x1_0000_0000
    ensures Holds(lineage, k, s) <==> Owns(Widths(lineage, false), k, s)
  {
    var ws := Widths(lineage, false);
    if k < |lineage| {
      StartGrows(ws, k + 1, |ws|);
      WrapSmall(Start(ws, k));
    }
  }

  /**
   Exactly as long as the 32-bit counter can count them, the instance fields of a class and of
   all its superclasses are disjoint and tile the slots below the count.
   */
  lemma InstanceFieldsTile(lineage: seq<FieldInfo>)
    ensures InstanceSlots(lineage) < 0x1_0000_0000 <==> Disjoint(lineage) && Covered(lineage)
  {
    var ws, total := Widths(lineage, false), InstanceSlots(lineage);
    Tiles(ws);
    if total < 0x1_0000_0000 {
      WrapSmall(total);
      forall k: nat, s: nat
        ensures Holds(lineage, k, s) <==> Owns(ws, k, s)
      {
        HoldsOwns(lineage, k, s);
      }
      forall s: nat
        ensures Held(lineage, s) <==> s < Wrap(total)
      {
        assert Held(lineage, s) <==> Owned(ws, s);
      }
    } else {
      var k := SomeOwner(ws, |ws|, Wrap(total));
      WrapSmall(Start(ws, k));
      assert Holds(lineage, k, Wrap(total));
      assert Held(lineage, Wrap(total));
    }
  }

  lemma WidthsAppend(a: seq<FieldInfo>, b: seq<FieldInfo>, isStatic: bool)
    ensures Widths(a + b, isStatic) == Widths(a, isStatic) + Widths(b, isStatic)
  {
  }

  lemma StartInPrefix(a: seq<nat>, b: seq<nat>, j: nat)
    requires j <= |a|
    ensures Start(a + b, j) == Start(a, j)
  {
    assert (a + b)[..j] == a[..j];
    SamePrefix(a + b, a, j);
  }

  /** Where the counter stands after `k` fields, starting from a superclass's count. */
  function Counter(before: nat, ws: seq<nat>, k: nat): u4
    requires k <= |ws|
  {
    Wrap(before + Start(ws, k))
  }

  lemma CounterStep(before: nat, ws: seq<nat>, k: nat)
    requires k < |ws|
    ensures var c, next := Counter(before, ws, k), Counter(before, ws, k + 1);
            && (ws[k] == 0 ==> next == c)
            && (ws[k] == 1 ==> next == Inc(c))
            && (ws[k] == 2 ==> next == Inc(Inc(c)))
  {
    var n := before + Start(ws, k);
    assert Wrap(n + 1) == Inc(Wrap(n));
    assert Wrap(n + 2) == Inc(Wrap(n + 1));
  }

  /** A subclass leaves its superclass's fields where they are, and its own come after them. */
  lemma SubclassKeeps(parent: seq<FieldInfo>, own: seq<FieldInfo>, j: nat)
    requires j <= |parent|
    ensures SlotOf(parent + own, j) == SlotOf(parent, j)
  {
    WidthsAppend(parent, own, false);
    StartInPrefix(Widths(parent, false), Widths(own, false), j);
  }

  lemma SubclassAppends(parent: seq<FieldInfo>, own: seq<FieldInfo>, k: nat)
    requires k <= |own|
    ensures SlotOf(parent + own, |parent| + k) == Counter(InstanceSlots(parent), Widths(own, false), k)
  {
    WidthsAppend(parent, own, false);
    AppendedCounter(Widths(parent, false), Widths(own, false), k);
  }

  lemma AppendedCounter(a: seq<nat>, b: seq<nat>, k: nat)
    requires k <= |b|
    ensures Wrap(Start(a + b, |a| + k)) == Counter(Sum(a), b, k)
  {
    StartOfAppend(a, b, k);
  }

  // ---------- Values of static final fields ----------

  /** The runtime constants, as far as they matter here; floating-point ones are given by their bits. */
  datatype Constant =
    | Null
    | IntegerConstant(number: int32)
    | FloatConstant(bits: u4)
    | LongConstant(long: int64)
    | DoubleConstant(wide: u8)
    | StringConstant(text: string)
    | OtherConstant

  /** The runtime pool, and the addresses of the strings that `NewJString` makes. */
  datatype Env = Env(constants: seq<Constant>, newString: string -> int64)

  /** What `InitStaticFinalVar` writes. */
  datatype Value =
    | Nothing
    | Int(number: int32)
    | Float(bits: u4)
    | Long(long: int64)
    | Double(wide: u8)
    | Ref(address: int64)

  /** The program's slashed spelling of the string descriptor, which no class file uses. */
  const STRING := "L/java/lang/String;"

  /** The value for a field; none when the constant is missing or of another kind, where the program goes astray. */
  function ValueOf(f: FieldInfo, env: Env): Option<Value> {
    if f.constIndex >= |env.constants| then None
    else
      var c := env.constants[f.constIndex];
      match Head(f.descriptor)
      case 'Z' | 'B' | 'C' | 'S' | 'I' =>
        if f.name == "$assertionsDisabled" then Some(Nothing)
        else if c.Null? then Some(Int(0))
        else if c.IntegerConstant? then Some(Int(c.number)) else None
      case 'F' =>
        if c.Null? then Some(Float(0)) else if c.FloatConstant? then Some(Float(c.bits)) else None
      case 'J' =>
        if c.Null? then Some(Long(0)) else if c.LongConstant? then Some(Long(c.long)) else None
      case 'D' =>
        if c.Null? then Some(Double(0)) else if c.DoubleConstant? then Some(Double(c.wide)) else None
      case _ =>
        if f.descriptor != STRING then Some(Nothing)
        else if c.StringConstant? then Some(Ref(env.newString(c.text))) else None
  }

  /** The slots that the value of a field occupies, whatever the value. */
  function WrittenWidth(f: FieldInfo): nat {
    match Head(f.descriptor)
    case 'Z' | 'B' | 'C' | 'S' | 'I' => if f.name == "$assertionsDisabled" then 0 else 1
    case 'F' => 1
    case 'J' | 'D' => 2
    case _ => if f.descriptor == STRING then 2 else 0
  }

  function Words(v: Value): (ws: seq<int32>)
    ensures |ws| <= 2
  {
    match v
    case Nothing => []
    case Int(i) => [i]
    case Float(bits) => [Signed32(bits)]
    case Long(l) => [Low(l), High(l)]
    case Double(bits) => [Low(Signed64(bits)), High(Signed64(bits))]
    case Ref(a) => [Low(a), High(a)]
  }

  lemma WordsWidth(f: FieldInfo, env: Env)
    requires ValueOf(f, env).Some?
    ensures |Words(ValueOf(f, env).value)| == WrittenWidth(f)
  {
  }

  /** Writing at a slot id, which is cut to the 16 bits of an index. */
  function Put(slots: seq<int32>, slot: nat, words: seq<int32>): Result<seq<int32>>
    requires |words| <= 2
  {
    var index: u2 := slot % 0x1_0000;
    if words == [] then Done(slots)
    else if |words| == 1 then PutWord(slots, index, words[0])
    else if |slots| == 0 then Stray
    else if index >= |slots| - 1 then Fatal
    else Done(slots[index := words[0]][index + 1 := words[1]])
  }

  /** A write succeeds and changes nothing outside `width` slots from the slot id. */
  predicate WritesOwn(before: seq<int32>, r: Result<seq<int32>>, slot: nat, width: nat) {
    r.Done? && |r.value| == |before| &&
    forall s :: 0 <= s < |before| && !(slot <= s < slot + width) ==> r.value[s] == before[s]
  }

  /** The guard: the words fit in the field's own slots, and those are in the array. */
  predicate Fits(words: nat, slot: nat, width: nat, count: nat) {
    words == 0 || (words <= width && slot + words <= count)
  }

  lemma FittingWrite(slot: nat, width: nat, words: seq<int32>, before: seq<int32>)
    requires |words| <= 2 && |before| < 0x1_0000 && Fits(|words|, slot, width, |before|)
    ensures WritesOwn(before, Put(before, slot, words), slot, width)
  {
  }

  lemma StrayingWrite(slot: nat, width: nat, words: seq<int32>, before: seq<int32>)
    requires |words| <= 2 && |before| < 0x1_0000 && !Fits(|words|, slot, width, |before|)
    requires width > 0 && forall s :: 0 <= s < |before| ==> before[s] !in words
    ensures !WritesOwn(before, Put(before, slot, words), slot, width)
  {
    var index := slot % 0x1_0000;
    var r := Put(before, slot, words);
    if r.Done? {
      assert r.value[index] == words[0] != before[index];
      assert |words| == 2 ==> r.value[index + 1] == words[1] != before[index + 1];
    }
  }

  /** A field's initialisation keeps to the field's own slots, whatever they held before, exactly under the guard. */
  lemma WritesOwnExactly(slot: nat, width: nat, words: seq<int32>, count: u2)
    requires |words| <= 2 && width > 0
    ensures Fits(|words|, slot, width, count) <==>
            forall before: seq<int32> :: |before| == count ==> WritesOwn(before, Put(before, slot, words), slot, width)
  {
    if Fits(|words|, slot, width, count) {
      forall before: seq<int32> | |before| == count
        ensures WritesOwn(before, Put(before, slot, words), slot, width)
      {
        FittingWrite(slot, width, words, before);
      }
    } else {
      var mark := Unlike(words);
      var before := seq(count, _ => mark);
      StrayingWrite(slot, width, words, before);
    }
  }

  /** A number that is none of at most two. */
  function Unlike(words: seq<int32>): (mark: int32)
    requires |words| <= 2
    ensures mark !in words
  {
    if 0 !in words then 0 else if 1 !in words then 1 else 2
  }

  // ---------- All static final fields of a class ----------

  predicate IsInitialised(f: FieldInfo) {
    f.isStatic && f.isFinal
  }

  /** The slot id of static field `k`. */
  function StaticSlot(fs: seq<FieldInfo>, k: nat): nat
    requires k <= |fs|
  {
    Start(Widths(fs, true), k)
  }

  function StaticSlots(fs: seq<FieldInfo>): nat {
    StaticSlot(fs, |fs|)
  }

  /** The loop of `AllocAndInitStaticVars` from field `k` on. */
  function InitFrom(fs: seq<FieldInfo>, env: Env, k: nat, slots: seq<int32>): Result<seq<int32>>
    requires k <= |fs|
    decreases |fs| - k
  {
    if k == |fs| then Done(slots)
    else
      var r := InitField(fs, env, k, slots);
      if r.Done? then InitFrom(fs, env, k + 1, r.value) else r
  }

  /** The part of field `k`. */
  function InitField(fs: seq<FieldInfo>, env: Env, k: nat, slots: seq<int32>): Result<seq<int32>>
    requires k < |fs|
  {
    if IsInitialised(fs[k]) then InitOne(slots, fs[k], StaticSlot(fs, k), env) else Done(slots)
  }

  /** What `InitStaticFinalVar` does to the slots. */
  function InitOne(before: seq<int32>, f: FieldInfo, slot: nat, env: Env): Result<seq<int32>> {
    var v := ValueOf(f, env);
    if v.None? then Stray else Put(before, slot, Words(v.value))
  }

  /** Every static final field has a constant of its own kind, or none. */
  predicate Typed(fs: seq<FieldInfo>, env: Env) {
    forall k :: 0 <= k < |fs| && IsInitialised(fs[k]) ==> ValueOf(fs[k], env).Some?
  }

  predicate AllFit(fs: seq<FieldInfo>, count: nat) {
    forall k :: 0 <= k < |fs| && IsInitialised(fs[k]) ==> Fits(WrittenWidth(fs[k]), StaticSlot(fs, k), Width(fs[k]), count)
  }

  /** The words a field should hold after static initialisation. */
  function WordsOf(f: FieldInfo, env: Env): (ws: seq<int32>)
    requires IsInitialised(f) ==> ValueOf(f, env).Some?
    ensures |ws| <= 2
  {
    if IsInitialised(f) then Words(ValueOf(f, env).value) else []
  }

  function Padded(words: seq<int32>, n: nat): (s: seq<int32>)
    ensures |s| == n && forall i :: 0 <= i < n ==> s[i] == if i < |words| then words[i] else 0
  {
    seq(n, i requires i >= 0 => if i < |words| then words[i] else 0)
  }

  /** A field's words, padded with zeros to the slots it takes. */
  function Cell(fs: seq<FieldInfo>, env: Env, k: nat): (s: seq<int32>)
    requires k < |fs| && Typed(fs, env)
    ensures |s| == Widths(fs, true)[k]
  {
    Padded(WordsOf(fs[k], env), Widths(fs, true)[k])
  }

  /** The static area as it should be: the fields' cells side by side. */
  function Image(fs: seq<FieldInfo>, env: Env, k: nat): (s: seq<int32>)
    requires k <= |fs| && Typed(fs, env)
    ensures |s| == StaticSlot(fs, k)
  {
    if k == 0 then [] else Image(fs, env, k - 1) + Cell(fs, env, k - 1)
  }

  lemma PutExtends(image: seq<int32>, words: seq<int32>, width: nat, count: u2)
    requires |words| <= 2 && Fits(|words|, |image|, width, count)
    ensures Put(Padded(image, count), |image|, words) == Done(Padded(image + Padded(words, width), count))
  {
    var before, after := Padded(image, count), Padded(image + Padded(words, width), count);
    var r := Put(before, |image|, words);
    assert r.Done?;
    assert r.value == after;
  }

  lemma PutNothing(image: seq<int32>, width: nat, count: u2)
    ensures Padded(image + Padded([], width), count) == Padded(image, count)
  {
  }

  lemma InitStep(fs: seq<FieldInfo>, env: Env, k: nat, count: u2)
    requires k < |fs| && Typed(fs, env) && AllFit(fs, count)
    ensures InitField(fs, env, k, Padded(Image(fs, env, k), count)) == Done(Padded(Image(fs, env, k + 1), count))
  {
    var f, image := fs[k], Image(fs, env, k);
    if IsInitialised(f) {
      WordsWidth(f, env);
      PutExtends(image, WordsOf(f, env), Width(f), count);
    } else {
      PutNothing(image, Widths(fs, true)[k], count);
    }
  }

  lemma {:induction false} InitFromExact(fs: seq<FieldInfo>, env: Env, k: nat, count: u2)
    requires k <= |fs| && Typed(fs, env) && AllFit(fs, count)
    ensures InitFrom(fs, env, k, Padded(Image(fs, env, k), count)) == Done(Padded(Image(fs, env, |fs|), count))
    decreases |fs| - k
  {
    if k < |fs| {
      InitStep(fs, env, k, count);
      InitFromExact(fs, env, k + 1, count);
    }
  }

  /** Under the guard, static initialisation leaves the whole array as it should be. */
  lemma InitExact(fs: seq<FieldInfo>, env: Env, count: u2)
    requires Typed(fs, env) && AllFit(fs, count)
    ensures InitFrom(fs, env, 0, Zeros(count)) == Done(Padded(Image(fs, env, |fs|), count))
  {
    assert Padded([], count) == Zeros(count);
    InitFromExact(fs, env, 0, count);
  }

  /** `part` stands in `s` at `at`. */
  predicate HasAt(s: seq<int32>, at: nat, part: seq<int32>) {
    at + |part| <= |s| && s[at..at + |part|] == part
  }

  lemma HasAtKept(a: seq<int32>, b: seq<int32>, at: nat, part: seq<int32>)
    requires HasAt(a, at, part)
    ensures HasAt(a + b, at, part)
  {
    assert (a + b)[at..at + |part|] == a[at..at + |part|];
  }

  lemma HasAtEnd(a: seq<int32>, b: seq<int32>)
    ensures HasAt(a + b, |a|, b)
  {
  }

  /** The image of the first `n` fields has field `k`'s cell at the field's slot. */
  predicate HasCell(fs: seq<FieldInfo>, env: Env, k: nat, n: nat)
    requires k < n <= |fs| && Typed(fs, env)
  {
    HasAt(Image(fs, env, n), StaticSlot(fs, k), Cell(fs, env, k))
  }

  lemma CellKept(fs: seq<FieldInfo>, env: Env, k: nat, n: nat)
    requires k + 1 < n <= |fs| && Typed(fs, env) && HasCell(fs, env, k, n - 1)
    ensures HasCell(fs, env, k, n)
  {
    HasAtKept(Image(fs, env, n - 1), Cell(fs, env, n - 1), StaticSlot(fs, k), Cell(fs, env, k));
  }

  lemma CellAdded(fs: seq<FieldInfo>, env: Env, k: nat, n: nat)
    requires k + 1 == n <= |fs| && Typed(fs, env)
    ensures HasCell(fs, env, k, n)
  {
    HasAtEnd(Image(fs, env, k), Cell(fs, env, k));
  }

  lemma {:induction false} ImageCell(fs: seq<FieldInfo>, env: Env, k: nat, n: nat)
    requires k < n <= |fs| && Typed(fs, env)
    ensures HasCell(fs, env, k, n)
    decreases n - k
  {
    if k + 1 < n {
      ImageCell(fs, env, k, n - 1);
      CellKept(fs, env, k, n);
    } else {
      CellAdded(fs, env, k, n);
    }
  }

  /** What reading a field's slots gives, for each kind of value. */
  predicate Reads(slots: seq<int32>, index: u2, v: Value) {
    match v
    case Nothing => true
    case Int(i) => WordAt(slots, index) == Done(i)
    case Float(bits) => WordAt(slots, index) == Done(Signed32(bits))
    case Long(l) => LongAt(slots, index) == Done(l)
    case Double(bits) => LongAt(slots, index) == Done(Signed64(bits))
    case Ref(a) => LongAt(slots, index) == Done(a)
  }

  lemma WordsRead(slots: seq<int32>, index: u2, v: Value)
    requires HasAt(slots, index, Words(v))
    ensures Reads(slots, index, v)
  {
    var ws := slots[index..index + |Words(v)|];
    assert |Words(v)| > 0 ==> slots[index] == ws[0];
    assert |Words(v)| > 1 ==> slots[index + 1] == ws[1];
    match v
    case Long(l) => JoinSplit(l);
    case Double(bits) => JoinSplit(Signed64(bits));
    case Ref(a) => JoinSplit(a);
    case _ =>
  }

  /** The words of a cell of the image, cut to the array. */
  lemma WordsInImage(image: seq<int32>, at: nat, words: seq<int32>, width: nat, count: nat)
    requires HasAt(image, at, Padded(words, width)) && |words| <= width && at + |words| <= count
    ensures HasAt(Padded(image, count), at, words)
  {
    var slots, cell := Padded(image, count), image[at..at + width];
    forall i | 0 <= i < |words| ensures slots[at + i] == words[i] {
      assert cell[i] == image[at + i];
    }
    assert slots[at..at + |words|] == words;
  }

  lemma ZeroInImage(image: seq<int32>, at: nat, width: nat, s: nat, count: nat)
    requires HasAt(image, at, Padded([], width)) && at <= s < at + width && s < count
    ensures Padded(image, count)[s] == 0
  {
    assert image[at..at + width][s - at] == image[s];
  }

  lemma FieldReadsValue(fs: seq<FieldInfo>, env: Env, count: u2, k: nat)
    requires Typed(fs, env) && AllFit(fs, count)
    requires k < |fs| && IsInitialised(fs[k]) && WrittenWidth(fs[k]) > 0
    ensures var r, v := InitFrom(fs, env, 0, Zeros(count)), ValueOf(fs[k], env).value;
            r.Done? && StaticSlot(fs, k) < 0x1_0000 && Reads(r.value, StaticSlot(fs, k), v)
  {
    InitExact(fs, env, count);
    ImageCell(fs, env, k, |fs|);
    WordsWidth(fs[k], env);
    var v, at, image := ValueOf(fs[k], env).value, StaticSlot(fs, k), Image(fs, env, |fs|);
    WordsInImage(image, at, Words(v), Width(fs[k]), count);
    WordsRead(Padded(image, count), at, v);
  }

  /** A field of the kinds that are kept as an int, except the one that the compiler adds. */
  predicate IsIntField(f: FieldInfo) {
    Head(f.descriptor) in "ZBCSI" && f.name != "$assertionsDisabled"
  }

  /** The field names a constant of its own kind, or a null entry where that stands for zero. */
  predicate HasOwnConstant(f: FieldInfo, constants: seq<Constant>) {
    && f.constIndex < |constants|
    && var c := constants[f.constIndex];
       && (IsIntField(f) ==> c.IntegerConstant? || c.Null?)
       && (Head(f.descriptor) == 'F' ==> c.FloatConstant? || c.Null?)
       && (Head(f.descriptor) == 'J' ==> c.LongConstant? || c.Null?)
       && (Head(f.descriptor) == 'D' ==> c.DoubleConstant? || c.Null?)
       && (f.descriptor == STRING ==> c.StringConstant?)
  }

  /** Initialisation meets a value for every static final field exactly if each names a constant of its own kind. */
  lemma TypedExactly(fs: seq<FieldInfo>, env: Env)
    ensures Typed(fs, env) <==> forall k :: 0 <= k < |fs| && IsInitialised(fs[k]) ==> HasOwnConstant(fs[k], env.constants)
  {
    forall k | 0 <= k < |fs|
      ensures ValueOf(fs[k], env).Some? <==> HasOwnConstant(fs[k], env.constants)
    {
      OwnConstant(fs[k], env);
    }
  }

  lemma OwnConstant(f: FieldInfo, env: Env)
    ensures ValueOf(f, env).Some? <==> HasOwnConstant(f, env.constants)
  {
    assert Head(STRING) == 'L';
  }

  /** Without such a constant no run of the initialisation completes. */
  lemma {:induction false} CompletesTyped(fs: seq<FieldInfo>, env: Env, k: nat, slots: seq<int32>, j: nat)
    requires k <= j < |fs| && InitFrom(fs, env, k, slots).Done? && IsInitialised(fs[j])
    ensures HasOwnConstant(fs[j], env.constants)
    decreases |fs| - k
  {
    if k < j {
      CompletesTyped(fs, env, k + 1, InitField(fs, env, k, slots).value, j);
    } else {
      OwnConstant(fs[j], env);
    }
  }

  predicate ReadsWord(slots: seq<int32>, s: nat, v: int32) {
    s < 0x1_0000 && WordAt(slots, s) == Done(v)
  }

  predicate ReadsLong(slots: seq<int32>, s: nat, v: int64) {
    s < 0x1_0000 && LongAt(slots, s) == Done(v)
  }

  /** Slot `s` reads the constant that the field names, by the kind of the field. */
  predicate HoldsConstant(f: FieldInfo, env: Env, slots: seq<int32>, s: nat) {
    && f.constIndex < |env.constants|
    && var c := env.constants[f.constIndex];
       && (IsIntField(f) ==>
             (c.IntegerConstant? ==> ReadsWord(slots, s, c.number)) && (c.Null? ==> ReadsWord(slots, s, 0)))
       && (Head(f.descriptor) == 'F' ==>
             (c.FloatConstant? ==> ReadsWord(slots, s, Signed32(c.bits))) && (c.Null? ==> ReadsWord(slots, s, 0)))
       && (Head(f.descriptor) == 'J' ==>
             (c.LongConstant? ==> ReadsLong(slots, s, c.long)) && (c.Null? ==> ReadsLong(slots, s, 0)))
       && (Head(f.descriptor) == 'D' ==>
             (c.DoubleConstant? ==> ReadsLong(slots, s, Signed64(c.wide))) && (c.Null? ==> ReadsLong(slots, s, 0)))
       && (f.descriptor == STRING && c.StringConstant? ==> ReadsLong(slots, s, env.newString(c.text)))
  }

  /** All static final fields name constants of their own kinds, and their values fit their slots and the array. */
  ghost predicate WellPrepared(fs: seq<FieldInfo>, env: Env, count: nat) {
    AllFit(fs, count) && forall k :: 0 <= k < |fs| && IsInitialised(fs[k]) ==> HasOwnConstant(fs[k], env.constants)
  }

  /** Under the guard static initialisation completes, and every static final field then reads the constant it names. */
  lemma StaticFinalsReadBack(fs: seq<FieldInfo>, env: Env, count: u2)
    requires WellPrepared(fs, env, count)
    ensures var r := InitFrom(fs, env, 0, Zeros(count));
            && r.Done?
            && forall k :: 0 <= k < |fs| && IsInitialised(fs[k]) ==> HoldsConstant(fs[k], env, r.value, StaticSlot(fs, k))
  {
    TypedExactly(fs, env);
    InitExact(fs, env, count);
    var slots := InitFrom(fs, env, 0, Zeros(count)).value;
    forall k | 0 <= k < |fs| && IsInitialised(fs[k])
      ensures HoldsConstant(fs[k], env, slots, StaticSlot(fs, k))
    {
      if WrittenWidth(fs[k]) > 0 {
        FieldReadsValue(fs, env, count, k);
        ValueIsConstant(fs[k], env, slots, StaticSlot(fs, k));
      }
    }
  }

  lemma ValueIsConstant(f: FieldInfo, env: Env, slots: seq<int32>, s: u2)
    requires HasOwnConstant(f, env.constants) && ValueOf(f, env).Some? && Reads(slots, s, ValueOf(f, env).value)
    ensures HoldsConstant(f, env, slots, s)
  {
    assert Head(STRING) == 'L';
  }

  /** Under the guard every other static field still reads zero in each of its slots. */
  lemma OtherStaticsReadZero(fs: seq<FieldInfo>, env: Env, count: u2, k: nat, s: nat)
    requires Typed(fs, env) && AllFit(fs, count) && s < count
    requires Owns(Widths(fs, true), k, s) && !(IsInitialised(fs[k]) && WrittenWidth(fs[k]) > 0)
    ensures var r := InitFrom(fs, env, 0, Zeros(count)); r.Done? && |r.value| == count && r.value[s] == 0
  {
    InitExact(fs, env, count);
    ImageCell(fs, env, k, |fs|);
    if IsInitialised(fs[k]) {
      WordsWidth(fs[k], env);
    }
    assert WordsOf(fs[k], env) == [];
    ZeroInImage(Image(fs, env, |fs|), StaticSlot(fs, k), Width(fs[k]), s, count);
  }

  /** The initialisation of field `k` changes no slot of another field. */
  ghost predicate KeepsToItself(fs: seq<FieldInfo>, env: Env, k: nat, count: u2)
    requires k < |fs| && Typed(fs, env)
  {
    forall before: seq<int32> :: |before| == count ==>
      WritesOwn(before, Put(before, StaticSlot(fs, k), WordsOf(fs[k], env)), StaticSlot(fs, k), Width(fs[k]))
  }

  /** The guard is exact: it holds if and only if each initialisation succeeds and keeps to its field's own slots. */
  lemma GuardIsExact(fs: seq<FieldInfo>, env: Env, count: u2)
    requires Typed(fs, env)
    ensures AllFit(fs, count) <==> forall k :: 0 <= k < |fs| && IsInitialised(fs[k]) ==> KeepsToItself(fs, env, k, count)
  {
    forall k | 0 <= k < |fs| && IsInitialised(fs[k])
      ensures KeepsToItself(fs, env, k, count) <==> Fits(WrittenWidth(fs[k]), StaticSlot(fs, k), Width(fs[k]), count)
    {
      WordsWidth(fs[k], env);
      WritesOwnExactly(StaticSlot(fs, k), Width(fs[k]), WordsOf(fs[k], env), count);
    }
  }

  /** A long or double has no other descriptor (section 4.3.2 of the Java Virtual Machine Specification). */
  predicate GoodDescriptor(f: FieldInfo) {
    (Head(f.descriptor) == 'J' ==> f.descriptor == "J") && (Head(f.descriptor) == 'D' ==> f.descriptor == "D")
  }

  /** A class whose static slots the 16-bit count can count meets the guard. */
  lemma SmallClassFits(fs: seq<FieldInfo>)
    requires StaticSlots(fs) < 0x1_0000
    requires forall k :: 0 <= k < |fs| ==> GoodDescriptor(fs[k])
    ensures AllFit(fs, StaticSlots(fs) % 0x1_0000)
  {
    var ws := Widths(fs, true);
    forall k | 0 <= k < |fs| && IsInitialised(fs[k])
      ensures Fits(WrittenWidth(fs[k]), StaticSlot(fs, k), Width(fs[k]), StaticSlots(fs))
    {
      StartGrows(ws, k + 1, |ws|);
    }
  }

  // ---------- A class with too many static slots ----------

  /** 32769 static longs, of which the first and the last are final, with constants at 1 and 3. */
  predicate IsCrowded(fs: seq<FieldInfo>) {
    && |fs| == 32769
    && forall k :: 0 <= k < |fs| ==>
         fs[k].descriptor == "J" && fs[k].isStatic && (fs[k].isFinal <==> k == 0 || k == 32768)
         && fs[k].constIndex == if k == 32768 then 3 else 1
  }

  /** Two longs at 1 and 3, with their second halves; the rest of the pool does not matter. */
  predicate HasTwoLongs(constants: seq<Constant>) {
    |constants| > 4 && constants[..5] == [Null, LongConstant(5), Null, LongConstant(7), Null]
  }

  /** There is such a class, and such a pool with room for all its names. */
  lemma CrowdedExists() returns (fs: seq<FieldInfo>, env: Env)
    ensures IsCrowded(fs) && HasTwoLongs(env.constants) && |env.constants| == 65535
    ensures forall j, k :: 0 <= j < k < |fs| ==> fs[j].name != fs[k].name
  {
    fs := seq(32769, k requires k >= 0 =>
      FieldInfo(seq(k + 1, _ => 'a'), "J", true, k == 0 || k == 32768, if k == 32768 then 3 else 1));
    env := Env([Null, LongConstant(5), Null, LongConstant(7), Null] + seq(65530, _ => Null), (_: string) => 0);
    forall j, k | 0 <= j < k < |fs| ensures fs[j].name != fs[k].name {
      assert |fs[j].name| == j + 1 && |fs[k].name| == k + 1;
    }
  }

  lemma CrowdedValue(fs: seq<FieldInfo>, env: Env, k: nat)
    requires IsCrowded(fs) && HasTwoLongs(env.constants) && k < |fs|
    ensures ValueOf(fs[k], env) == Some(Long(if k == 32768 then 7 else 5))
  {
    assert env.constants[fs[k].constIndex] == env.constants[..5][fs[k].constIndex];
  }

  lemma {:induction false} CrowdedSlot(fs: seq<FieldInfo>, k: nat)
    requires IsCrowded(fs) && k <= |fs|
    ensures StaticSlot(fs, k) == 2 * k
  {
    if k > 0 {
      CrowdedSlot(fs, k - 1);
    }
  }

  lemma {:induction false} CrowdedMiddle(fs: seq<FieldInfo>, env: Env, k: nat, slots: seq<int32>)
    requires IsCrowded(fs) && 1 <= k <= 32768
    ensures InitFrom(fs, env, k, slots) == InitFrom(fs, env, 32768, slots)
    decreases 32768 - k
  {
    if k < 32768 {
      assert InitField(fs, env, k, slots) == Done(slots);
      CrowdedMiddle(fs, env, k + 1, slots);
    }
  }

  lemma PutPair(slots: seq<int32>, slot: nat, words: seq<int32>)
    requires |slots| == 2 == |words| && slot % 0x1_0000 == 0
    ensures Put(slots, slot, words) == Done(words)
  {
    assert slots[0 := words[0]][1 := words[1]] == words;
  }

  /** The writes of the first and the last field: both land at index 0 of the array of two. */
  lemma CrowdedWrite(fs: seq<FieldInfo>, env: Env, k: nat, slots: seq<int32>)
    requires IsCrowded(fs) && HasTwoLongs(env.constants) && (k == 0 || k == 32768) && |slots| == 2
    ensures InitField(fs, env, k, slots) == Done(if k == 0 then [5, 0] else [7, 0])
  {
    CrowdedValue(fs, env, k);
    CrowdedSlot(fs, k);
    var l := if k == 0 then 5 else 7;
    assert Words(Long(l)) == [l, 0];
    PutPair(slots, 2 * k, [l, 0]);
  }

  /**
   The 65538 slots of such a class are cut to an array of two.  Initialisation runs to its end, and the
   last field silently overwrites the first: it should read 5, and reads 7.
   */
  lemma SilentOverwrite(fs: seq<FieldInfo>, env: Env)
    requires IsCrowded(fs) && HasTwoLongs(env.constants)
    ensures Typed(fs, env) && StaticSlots(fs) == 65538 && StaticSlots(fs) % 0x1_0000 == 2
    ensures ValueOf(fs[0], env) == Some(Long(5)) && InitFrom(fs, env, 0, Zeros(2)) == Done([7, 0])
  {
    CrowdedSlot(fs, |fs|);
    forall k | 0 <= k < |fs| ensures ValueOf(fs[k], env).Some? {
      CrowdedValue(fs, env, k);
    }
    CrowdedValue(fs, env, 0);
    CrowdedRun(fs, env);
  }

  lemma CrowdedRun(fs: seq<FieldInfo>, env: Env)
    requires IsCrowded(fs) && HasTwoLongs(env.constants)
    ensures InitFrom(fs, env, 0, Zeros(2)) == Done([7, 0])
  {
    CrowdedWrite(fs, env, 0, Zeros(2));
    CrowdedMiddle(fs, env, 1, [5, 0]);
    CrowdedWrite(fs, env, 32768, [5, 0]);
    assert InitFrom(fs, env, 32769, [7, 0]) == Done([7, 0]);
  }

  // ---------- Fields and classes ----------

  class Field {
    const info: FieldInfo
    var slotId: u4

    constructor (info: FieldInfo)
      ensures this.info == info && slotId == 0
    {
      this.info := info;
      slotId := 0;
    }
  }

  /** Instance fields have the slots that follow those of the superclasses. */
  predicate InstanceIds(inherited: seq<FieldInfo>, own: seq<FieldInfo>, ids: seq<u4>) {
    |own| == |ids| && forall k :: 0 <= k < |own| && !own[k].isStatic ==> ids[k] == SlotOf(inherited + own, |inherited| + k)
  }

  /** Every static final field reads, at its slot id, the constant it names. */
  predicate ConstantsInPlace(own: seq<FieldInfo>, ids: seq<u4>, env: Env, slots: seq<int32>) {
    |own| == |ids| && forall k :: 0 <= k < |own| && IsInitialised(own[k]) ==> HoldsConstant(own[k], env, slots, ids[k])
  }

  predicate StaticIds(own: seq<FieldInfo>, ids: seq<u4>) {
    |own| == |ids| && forall k :: 0 <= k < |own| && own[k].isStatic ==> ids[k] == StaticSlot(own, k)
  }

  /** The static ids below `n` are in place. */
  predicate StaticFollow(own: seq<FieldInfo>, ids: seq<u4>, n: nat) {
    n <= |own| == |ids| && forall k :: 0 <= k < n && own[k].isStatic ==> ids[k] == StaticSlot(own, k)
  }

  /** Two numberings agree on the instance fields. */
  predicate SameInstanceIds(own: seq<FieldInfo>, a: seq<u4>, b: seq<u4>) {
    |a| == |b| == |own| && forall k :: 0 <= k < |own| && !own[k].isStatic ==> a[k] == b[k]
  }

  lemma InstanceIdsKept(inherited: seq<FieldInfo>, own: seq<FieldInfo>, a: seq<u4>, b: seq<u4>)
    requires InstanceIds(inherited, own, a) && SameInstanceIds(own, a, b)
    ensures InstanceIds(inherited, own, b)
  {
  }

  /** The ids below `n` are the counter's. */
  predicate IdsFollow(before: nat, own: seq<FieldInfo>, ids: seq<u4>, n: nat) {
    n <= |own| == |ids| &&
    forall k :: 0 <= k < n && !own[k].isStatic ==> ids[k] == Counter(before, Widths(own, false), k)
  }

  lemma FollowingIds(inherited: seq<FieldInfo>, own: seq<FieldInfo>, ids: seq<u4>)
    requires IdsFollow(InstanceSlots(inherited), own, ids, |own|)
    ensures InstanceIds(inherited, own, ids)
  {
    forall k | 0 <= k < |own| && !own[k].isStatic
      ensures ids[k] == SlotOf(inherited + own, |inherited| + k)
    {
      FollowingId(inherited, own, ids, k);
    }
  }

  lemma FollowingId(inherited: seq<FieldInfo>, own: seq<FieldInfo>, ids: seq<u4>, k: nat)
    requires IdsFollow(InstanceSlots(inherited), own, ids, |own|) && k < |own| && !own[k].isStatic
    ensures ids[k] == SlotOf(inherited + own, |inherited| + k)
  {
    SubclassAppends(inherited, own, k);
  }

  lemma FollowingCount(inherited: seq<FieldInfo>, own: seq<FieldInfo>)
    ensures Wrap(InstanceSlots(inherited + own)) == Counter(InstanceSlots(inherited), Widths(own, false), |own|)
  {
    SubclassAppends(inherited, own, |own|);
  }

  class JavaClass {
    const superClass: JavaClass?
    const fields: seq<Field>
    var instanceSlotCount: u4
    var staticSlotCount: u4
    var staticVars: S.Slots?
    /** The fields of the superclasses, from the root down. */
    ghost var inherited: seq<FieldInfo>

    constructor (superClass: JavaClass?, fields: seq<Field>)
      ensures this.superClass == superClass && this.fields == fields
    {
      this.superClass := superClass;
      this.fields := fields;
      instanceSlotCount := 0;
      staticSlotCount := 0;
      staticVars := null;
      inherited := [];
    }

    function Infos(): (fs: seq<FieldInfo>)
      ensures |fs| == |fields| && forall k :: 0 <= k < |fs| ==> fs[k] == fields[k].info
    {
      seq(|fields|, k requires 0 <= k < |fields| => fields[k].info)
    }

    ghost predicate Distinct() {
      forall i, j :: 0 <= i < |fields| && 0 <= j < |fields| && fields[i] == fields[j] ==> i == j
    }

    /** The slot ids, field by field. */
    ghost function Ids(): (ids: seq<u4>)
      reads fields
      ensures |ids| == |fields| && forall k :: 0 <= k < |fields| ==> ids[k] == fields[k].slotId
    {
      seq(|fields|, k requires 0 <= k < |fields| reads fields => fields[k].slotId)
    }

    /** All the fields of an instance. */
    ghost function Lineage(): seq<FieldInfo>
      reads this
    {
      inherited + Infos()
    }

    /** The stored count is that of the whole lineage. */
    ghost predicate Counted()
      reads this
    {
      instanceSlotCount == Wrap(InstanceSlots(Lineage()))
    }

    method CalcInstanceFieldSlotIds()
      requires Distinct()
      requires superClass != null ==> superClass != this && superClass.Counted()
      modifies this`instanceSlotCount, this`inherited, fields
      ensures inherited == if superClass == null then [] else old(superClass.Lineage())
      ensures Counted() && InstanceIds(inherited, Infos(), Ids())
    {
      var slotId: u4 := 0;
      ghost var parent: seq<FieldInfo> := [];
      if superClass != null {
        slotId := superClass.instanceSlotCount;
        parent := superClass.Lineage();
      }
      ghost var before, ws := InstanceSlots(parent), Widths(Infos(), false);
      for k := 0 to |fields|
        invariant slotId == Counter(before, ws, k)
        invariant IdsFollow(before, Infos(), Ids(), k)
      {
        slotId := NumberInstanceField(k, slotId, before);
      }
      FollowingIds(parent, Infos(), Ids());
      FollowingCount(parent, Infos());
      instanceSlotCount := slotId;
      inherited := parent;
    }

    /** The body of the loop: number field `k`, unless it is static. */
    method NumberInstanceField(k: nat, slotId: u4, ghost before: nat) returns (next: u4)
      requires Distinct() && k < |fields| && slotId == Counter(before, Widths(Infos(), false), k)
      requires IdsFollow(before, Infos(), Ids(), k)
      modifies fields[k]
      ensures next == Counter(before, Widths(Infos(), false), k + 1) && IdsFollow(before, Infos(), Ids(), k + 1)
    {
      var field := fields[k];
      CounterStep(before, Widths(Infos(), false), k);
      ghost var ids := Ids();
      next := slotId;
      if !field.info.isStatic {
        field.slotId := next;
        next := Inc(next);
        if IsLongOrDouble(field.info) {
          next := Inc(next);
        }
        assert Ids() == ids[k := slotId];
      }
    }

    method CalcStaticFieldSlotIds()
      requires Distinct() && |fields| < 0x1_0000
      modifies this`staticSlotCount, fields
      ensures staticSlotCount == StaticSlots(Infos()) && StaticIds(Infos(), Ids())
      ensures SameInstanceIds(Infos(), old(Ids()), Ids())
    {
      var slotId := 0;
      for k := 0 to |fields|
        invariant slotId == StaticSlot(Infos(), k) <= 2 * k
        invariant StaticFollow(Infos(), Ids(), k) && SameInstanceIds(Infos(), old(Ids()), Ids())
      {
        slotId := NumberStaticField(k, slotId);
      }
      staticSlotCount := slotId;
    }

    /** The body of the loop: number field `k`, if it is static. */
    method NumberStaticField(k: nat, slotId: nat) returns (next: nat)
      requires Distinct() && k < |fields| < 0x1_0000 && slotId == StaticSlot(Infos(), k) <= 2 * k
      requires StaticFollow(Infos(), Ids(), k)
      modifies fields[k]
      ensures next == StaticSlot(Infos(), k + 1) <= 2 * (k + 1) && StaticFollow(Infos(), Ids(), k + 1)
      ensures SameInstanceIds(Infos(), old(Ids()), Ids())
    {
      var field := fields[k];
      ghost var ids := Ids();
      next := slotId;
      if field.info.isStatic {
        field.slotId := next;
        next := next + 1;
        if IsLongOrDouble(field.info) {
          next := next + 1;
        }
        assert Ids() == ids[k := slotId];
      }
    }

    method AllocAndInitStaticVars(env: Env) returns (r: Result<()>)
      requires staticSlotCount == StaticSlots(Infos()) && StaticIds(Infos(), Ids())
      modifies this`staticVars
      ensures fresh(staticVars) && fresh(staticVars.slots)
      ensures Ended(r, staticVars.slots[..], InitFrom(Infos(), env, 0, Zeros(staticSlotCount % 0x1_0000)))
    {
      var vars := new S.Slots(staticSlotCount % 0x1_0000);
      staticVars := vars;
      ghost var result := InitFrom(Infos(), env, 0, vars.slots[..]);
      for k := 0 to |fields|
        invariant staticVars == vars && fresh(vars) && fresh(vars.slots)
        invariant result == InitFrom(Infos(), env, k, vars.slots[..])
      {
        var field := fields[k];
        if field.info.isStatic && field.info.isFinal {
          r := InitStaticFinalVar(vars, field, env);
          if !r.Done? {
            return;
          }
        }
      }
      r := Done(());
    }

    /** `PrepareClass`. */
    method Prepare(env: Env) returns (r: Result<()>)
      requires Distinct() && |fields| < 0x1_0000
      requires superClass != null ==> superClass != this && superClass.Counted()
      modifies this, fields
      ensures inherited == if superClass == null then [] else old(superClass.Lineage())
      ensures Counted() && InstanceIds(inherited, Infos(), Ids())
      ensures staticSlotCount == StaticSlots(Infos()) && StaticIds(Infos(), Ids())
      ensures staticVars != null
      ensures Ended(r, staticVars.slots[..], InitFrom(Infos(), env, 0, Zeros(staticSlotCount % 0x1_0000)))
      ensures WellPrepared(Infos(), env, staticSlotCount % 0x1_0000) ==>
                r.Done? && ConstantsInPlace(Infos(), Ids(), env, staticVars.slots[..])
    {
      CalcInstanceFieldSlotIds();
      ghost var ids := Ids();
      CalcStaticFieldSlotIds();
      InstanceIdsKept(inherited, Infos(), ids, Ids());
      r := AllocAndInitStaticVars(env);
      InPlace(Infos(), Ids(), env, r, staticVars.slots[..], staticSlotCount % 0x1_0000);
    }
  }

  lemma InPlace(own: seq<FieldInfo>, ids: seq<u4>, env: Env, r: Result<()>, slots: seq<int32>, count: u2)
    requires StaticIds(own, ids) && Ended(r, slots, InitFrom(own, env, 0, Zeros(count)))
    ensures WellPrepared(own, env, count) ==> r.Done? && ConstantsInPlace(own, ids, env, slots)
  {
    if WellPrepared(own, env, count) {
      StaticFinalsReadBack(own, env, count);
    }
  }

  /** A run ended as specified, with the slots specified if it completed. */
  predicate Ended(r: Result<()>, slots: seq<int32>, spec: Result<seq<int32>>) {
    match spec
    case Done(s) => r.Done? && slots == s
    case Fatal => r.Fatal?
    case Stray => r.Stray?
  }

  method InitStaticFinalVar(vars: S.Slots, field: Field, env: Env) returns (r: Result<()>)
    modifies vars.slots
    ensures Wrote(old(vars.slots[..]), vars.slots[..], r, InitOne(old(vars.slots[..]), field.info, field.slotId, env))
  {
    if field.info.constIndex >= |env.constants| {
      return Stray;
    }
    var constant := env.constants[field.info.constIndex];
    var index: u2 := field.slotId % 0x1_0000;
    match Head(field.info.descriptor) {
      case 'Z' | 'B' | 'C' | 'S' | 'I' =>
        if field.info.name == "$assertionsDisabled" {
          return Done(());
        }
        var value: int32 := 0;
        if !constant.Null? {
          if !constant.IntegerConstant? {
            return Stray;
          }
          value := constant.number;
        }
        r := vars.SetInt(index, value);
      case 'F' =>
        var value: u4 := 0;
        if !constant.Null? {
          if !constant.FloatConstant? {
            return Stray;
          }
          value := constant.bits;
        }
        r := vars.SetFloat(index, value);
      case 'J' =>
        var value: int64 := 0;
        if !constant.Null? {
          if !constant.LongConstant? {
            return Stray;
          }
          value := constant.long;
        }
        r := vars.SetLong(index, value);
      case 'D' =>
        var value: u8 := 0;
        if !constant.Null? {
          if !constant.DoubleConstant? {
            return Stray;
          }
          value := constant.wide;
        }
        r := vars.SetDouble(index, value);
      case _ =>
        if field.info.descriptor != STRING {
          return Done(());
        }
        if !constant.StringConstant? {
          return Stray;
        }
        r := vars.SetLong(index, env.newString(constant.text));
    }
  }
}
