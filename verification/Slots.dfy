/**
 The slot array of the runtime: 32-bit slots, with long and double values split over two.
 An index that a bound check refuses (LOG(FATAL)) is `Fatal`.  The two-slot checks compare with
 `size - 1` on an unsigned type, so that an empty array passes them: that access is `Stray`.
 A vector built with a size has exactly that capacity.
 */
module Slots {
  import opened Integers

  datatype Result<+T> = Done(value: T) | Fatal | Stray

  // ---------- Bits ----------

  /** `val & UINT32_MAX` and `(val >> 32) & UINT32_MAX`, stored as signed. */
  function Low(v: int64): int32 {
    Signed32(v % 0x1_0000_0000)
  }

  function High(v: int64): int32 {
    Signed32(v / 0x1_0000_0000 % 0x1_0000_0000)
  }

  /** `int64_t(high) << 32 | int64_t(low)`. */
  function Join(low: int32, high: int32): int64 {
    Signed64(Unsigned32(high) * 0x1_0000_0000 + Unsigned32(low))
  }

  /** Splitting a long and joining it again gives it back, and the other way round: no bit is lost or shared. */
  lemma JoinSplit(v: int64)
    ensures Join(Low(v), High(v)) == v
  {
    var q, r := v / 0x1_0000_0000, v % 0x1_0000_0000;
    assert v == q * 0x1_0000_0000 + r && -0x8000_0000 <= q < 0x8000_0000;
    assert q % 0x1_0000_0000 == if q >= 0 then q else q + 0x1_0000_0000;
  }

  lemma SplitJoin(low: int32, high: int32)
    ensures Low(Join(low, high)) == low && High(Join(low, high)) == high
  {
    var r := Unsigned32(low);
    var v := Join(low, high);
    if high >= 0 {
      assert v == high * 0x1_0000_0000 + r;
    } else {
      assert v == high * 0x1_0000_0000 + r;
    }
    SplitUnique(v, high, r);
  }

  /** A number is split in one way only. */
  lemma SplitUnique(v: int, q: int, r: u4)
    requires v == q * 0x1_0000_0000 + r
    ensures v / 0x1_0000_0000 == q && v % 0x1_0000_0000 == r
  {
  }

  // ---------- Reads and writes, on values ----------

  function PutWord(slots: seq<int32>, index: u2, val: int32): Result<seq<int32>> {
    if index >= |slots| then Fatal else Done(slots[index := val])
  }

  function WordAt(slots: seq<int32>, index: u2): Result<int32> {
    if index >= |slots| then Fatal else Done(slots[index])
  }

  function PutLong(slots: seq<int32>, index: u2, val: int64): Result<seq<int32>> {
    if |slots| == 0 then Stray
    else if index >= |slots| - 1 then Fatal
    else Done(slots[index := Low(val)][index + 1 := High(val)])
  }

  function LongAt(slots: seq<int32>, index: u2): Result<int64> {
    if |slots| == 0 then Stray
    else if index >= |slots| - 1 then Fatal
    else Done(Join(slots[index], slots[index + 1]))
  }

  /** Reading gives the one value whose writing would change nothing, exactly within bounds. */
  lemma WordReadBack(slots: seq<int32>, index: u2, val: int32)
    ensures WordAt(slots, index) == Done(val) <==> PutWord(slots, index, val) == Done(slots)
    ensures WordAt(slots, index).Done? <==> index < |slots|
  {
    if index < |slots| {
      assert slots[index := val][index] == val;
      assert slots[index] == val ==> slots[index := val] == slots;
    }
  }

  lemma LongReadBack(slots: seq<int32>, index: u2, val: int64)
    ensures LongAt(slots, index) == Done(val) <==> PutLong(slots, index, val) == Done(slots)
    ensures LongAt(slots, index).Done? <==> index + 1 < |slots|
  {
    if index + 1 < |slots| {
      SplitJoin(slots[index], slots[index + 1]);
      JoinSplit(val);
      var after := slots[index := Low(val)][index + 1 := High(val)];
      assert after[index] == Low(val) && after[index + 1] == High(val);
      assert slots[index] == Low(val) && slots[index + 1] == High(val) ==> after == slots;
    }
  }

  /** What is put is what is read, and nothing but the value's own slots changes. */
  lemma PutLongGet(slots: seq<int32>, index: u2, val: int64)
    requires PutLong(slots, index, val).Done?
    ensures var after := PutLong(slots, index, val).value;
            && LongAt(after, index) == Done(val)
            && |after| == |slots|
            && forall k :: 0 <= k < |slots| && k != index && k != index + 1 ==> after[k] == slots[k]
  {
    JoinSplit(val);
  }

  // ---------- The class ----------

  class Slots {
    const slots: array<int32>

    constructor (count: u2)
      ensures fresh(slots) && slots[..] == Zeros(count)
    {
      slots := new int32[count](_ => 0);
      new;
      assert slots[..] == Zeros(count);
    }

    method SetInt(index: u2, val: int32) returns (r: Result<()>)
      modifies slots
      ensures Wrote(old(slots[..]), slots[..], r, PutWord(old(slots[..]), index, val))
    {
      if index >= slots.Length {
        return Fatal;
      }
      slots[index] := val;
      r := Done(());
    }

    method GetInt(index: u2) returns (r: Result<int32>)
      ensures r == WordAt(slots[..], index)
      ensures r.Done? <==> index < slots.Length
      ensures r.Done? ==> PutWord(slots[..], index, r.value) == Done(slots[..])
    {
      if index >= slots.Length {
        return Fatal;
      }
      r := Done(slots[index]);
      WordReadBack(slots[..], index, r.value);
    }

    /** Floats are given by their bits. */
    method SetFloat(index: u2, bits: u4) returns (r: Result<()>)
      modifies slots
      ensures Wrote(old(slots[..]), slots[..], r, PutWord(old(slots[..]), index, Signed32(bits)))
    {
      if index >= slots.Length {
        return Fatal;
      }
      var tmp := Signed32(bits);
      slots[index] := tmp;
      r := Done(());
    }

    method GetFloat(index: u2) returns (r: Result<u4>)
      ensures var w := WordAt(slots[..], index);
              if w.Done? then r.Done? && Signed32(r.value) == w.value else r.Fatal?
    {
      if index >= slots.Length {
        return Fatal;
      }
      r := Done(Unsigned32(slots[index]));
    }

    method SetLong(index: u2, val: int64) returns (r: Result<()>)
      modifies slots
      ensures Wrote(old(slots[..]), slots[..], r, PutLong(old(slots[..]), index, val))
    {
      if slots.Length == 0 {
        return Stray;
      }
      if index >= slots.Length - 1 {
        return Fatal;
      }
      var low, high := Low(val), High(val);
      slots[index] := low;
      slots[index + 1] := high;
      r := Done(());
    }

    method GetLong(index: u2) returns (r: Result<int64>)
      ensures r == LongAt(slots[..], index)
      ensures r.Done? <==> index + 1 < slots.Length
      ensures r.Done? ==> PutLong(slots[..], index, r.value) == Done(slots[..])
    {
      if slots.Length == 0 {
        return Stray;
      }
      if index >= slots.Length - 1 {
        return Fatal;
      }
      r := Done(Join(slots[index], slots[index + 1]));
      LongReadBack(slots[..], index, r.value);
    }

    /** Doubles are given by their bits. */
    method SetDouble(index: u2, bits: u8) returns (r: Result<()>)
      modifies slots
      ensures Wrote(old(slots[..]), slots[..], r, PutLong(old(slots[..]), index, Signed64(bits)))
    {
      if slots.Length == 0 {
        return Stray;
      }
      if index >= slots.Length - 1 {
        return Fatal;
      }
      r := SetLong(index, Signed64(bits));
    }

    method GetDouble(index: u2) returns (r: Result<u8>)
      ensures var w := LongAt(slots[..], index);
              match w
              case Done(v) => r.Done? && Signed64(r.value) == v
              case Fatal => r == Fatal
              case Stray => r == Stray
    {
      var tmp := GetLong(index);
      if tmp.Fatal? {
        return Fatal;
      } else if tmp.Stray? {
        return Stray;
      }
      r := Done(Unsigned64(tmp.value));
    }
  }

  function Zeros(n: nat): (s: seq<int32>)
    ensures |s| == n && forall k :: 0 <= k < n ==> s[k] == 0
  {
    seq(n, _ => 0)
  }

  /** A write took effect as specified, or changed nothing. */
  predicate Wrote(before: seq<int32>, after: seq<int32>, r: Result<()>, spec: Result<seq<int32>>) {
    match spec
    case Done(slots) => r.Done? && after == slots
    case Fatal => r.Fatal? && after == before
    case Stray => r.Stray? && after == before
  }
}
