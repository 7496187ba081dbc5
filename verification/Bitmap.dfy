/**
 The summary-tree bitmaps of bitmap.c and bitmap.h.  A group is a machine word of `w` bits, least
 significant first; level 0 holds the logical bits (1 means free), and every further level has one
 bit per group of the level below, set exactly when that group is non-zero.
 */
module Bitmap {
  import opened SizeClasses

  type Word = seq<bool>

  /** `levels` holds the group offset of each level, and one more: the total number of groups. */
  datatype Info = Info(nbits: nat, w: nat, levels: seq<nat>) {
    function NLevels(): int { |levels| - 1 }
  }

  // Division by the group width is written as repeated subtraction; `ShiftsAndMasks` says that it is
  // what the shifts and masks of bitmap.h compute.

  /** BITMAP_BITS2GROUPS. */
  function Groups(w: nat, n: nat): (g: nat)
    requires w > 0
    ensures n > 0 ==> g > 0
  {
    if n == 0 then 0 else if n <= w then 1 else 1 + Groups(w, n - w)
  }

  /** `bit >> LG_BITMAP_GROUP_NBITS`. */
  function Grp(w: nat, b: nat): nat
    requires w > 0
  {
    if b < w then 0 else 1 + Grp(w, b - w)
  }

  /** `bit & BITMAP_GROUP_NBITS_MASK`. */
  function Off(w: nat, b: nat): (p: nat)
    requires w > 0
    ensures p < w
  {
    if b < w then b else Off(w, b - w)
  }

  /** One subtraction is one step of the quotient. */
  lemma QuotientStep(w: nat, x: nat)
    requires w > 0
    ensures (x + w) / w == x / w + 1 && (x + w) % w == x % w
  {
    var q, r := x / w, x % w;
    assert x == q * w + r;
    assert x + w == (q + 1) * w + r;
    QuotientBetween(q + 1, w, r);
  }

  lemma {:induction false} ShiftsAndMasks(w: nat, b: nat)
    requires w > 0
    ensures Grp(w, b) == b / w && Off(w, b) == b % w
    decreases b
  {
    if b < w {
      QuotientBetween(0, w, b);
    } else {
      ShiftsAndMasks(w, b - w);
      QuotientStep(w, b - w);
    }
  }

  lemma {:induction false} GroupsRoundUp(w: nat, n: nat)
    requires w > 0
    ensures Groups(w, n) == (n + w - 1) / w
    decreases n
  {
    if n <= w {
      QuotientBetween(if n == 0 then 0 else 1, w, if n == 0 then w - 1 else n - 1);
    } else {
      GroupsRoundUp(w, n - w);
      QuotientStep(w, n - 1);
    }
  }

  lemma {:induction false} SplitInjective(w: nat, b: nat, c: nat)
    requires w > 0 && Grp(w, b) == Grp(w, c) && Off(w, b) == Off(w, c)
    ensures b == c
  {
    if b >= w && c >= w {
      SplitInjective(w, b - w, c - w);
    }
  }

  lemma {:induction false} BitPlace(w: nat, n: nat, b: nat)
    requires w > 0 && b < n
    ensures Grp(w, b) < Groups(w, n)
  {
    if b >= w {
      BitPlace(w, n - w, b - w);
    }
  }

  /** The number of bits of level `i`: the ceiling-division chain. */
  function LevelBits(w: nat, nbits: nat, i: nat): nat
    requires w > 0
  {
    if i == 0 then nbits else Groups(w, LevelBits(w, nbits, i - 1))
  }

  /** Level `i + 1` starts behind the groups of level `i`. */
  ghost predicate NextOffset(w: nat, nbits: nat, levels: seq<nat>, i: nat)
    requires w > 0 && i + 1 < |levels|
  {
    levels[i + 1] == levels[i] + LevelBits(w, nbits, i + 1)
  }

  /** Offsets are the running sums of the chain, which ends at the first level with a single group. */
  ghost predicate InfoOk(info: Info) {
    && info.w >= 2 && info.nbits > 0 && |info.levels| >= 2
    && info.levels[0] == 0
    && (forall i :: 0 <= i < info.NLevels() ==> NextOffset(info.w, info.nbits, info.levels, i))
    && LevelBits(info.w, info.nbits, info.NLevels()) == 1
    && (forall i :: 0 < i < info.NLevels() ==> LevelBits(info.w, info.nbits, i) > 1)
  }

  lemma {:induction false} GroupsShrink(w: nat, n: nat)
    requires w >= 2 && n > 1
    ensures 0 < Groups(w, n) < n
  {
    if n > w {
      if n - w > 1 {
        GroupsShrink(w, n - w);
      }
    }
  }

  lemma OffsetsAppend(w: nat, nbits: nat, levels: seq<nat>, x: nat)
    requires w > 0 && |levels| > 0 && x == levels[|levels| - 1] + LevelBits(w, nbits, |levels|)
    requires forall j :: 0 <= j < |levels| - 1 ==> NextOffset(w, nbits, levels, j)
    ensures forall j :: 0 <= j < |levels| ==> NextOffset(w, nbits, levels + [x], j)
  {
    forall j | 0 <= j < |levels| ensures NextOffset(w, nbits, levels + [x], j) {
      if j < |levels| - 1 {
        assert NextOffset(w, nbits, levels, j);
      }
    }
  }

  /** `bitmap_info_init`. */
  method InfoInit(nbits: nat, w: nat) returns (info: Info)
    requires nbits > 0 && w >= 2
    ensures InfoOk(info) && info.nbits == nbits && info.w == w
  {
    var levels := [0];
    var groupCount := Groups(w, nbits);
    var i := 1;
    while groupCount > 1
      invariant i == |levels| >= 1 && levels[0] == 0
      invariant groupCount == LevelBits(w, nbits, i) > 0
      invariant forall j :: 0 <= j < i - 1 ==> NextOffset(w, nbits, levels, j)
      invariant forall j :: 0 < j < i ==> LevelBits(w, nbits, j) > 1
      decreases groupCount
    {
      GroupsShrink(w, groupCount);
      OffsetsAppend(w, nbits, levels, levels[i - 1] + groupCount);
      levels := levels + [levels[i - 1] + groupCount];
      groupCount := Groups(w, groupCount);
      i := i + 1;
    }
    OffsetsAppend(w, nbits, levels, levels[i - 1] + groupCount);
    levels := levels + [levels[i - 1] + groupCount];
    info := Info(nbits, w, levels);
  }

  // ---------- Words and levels ----------

  predicate NonZero(g: Word) {
    exists p :: 0 <= p < |g| && g[p]
  }

  predicate HasBit(w: nat, level: seq<Word>, b: nat)
    requires w > 0
  {
    Grp(w, b) < |level| && Off(w, b) < |level[Grp(w, b)]|
  }

  /** Bit `b` of a level. */
  predicate Get(w: nat, level: seq<Word>, b: nat)
    requires w > 0
  {
    Grp(w, b) < |level| && Off(w, b) < |level[Grp(w, b)]| && level[Grp(w, b)][Off(w, b)]
  }

  /** A level of `n` bits: full-width groups, nothing set beyond bit `n`. */
  ghost predicate LevelOk(w: nat, level: seq<Word>, n: nat)
    requires w > 0
  {
    && |level| == Groups(w, n)
    && (forall g :: 0 <= g < |level| ==> |level[g]| == w)
    && (forall b: nat :: Get(w, level, b) ==> b < n)
  }

  /** `up` summarises `level`. */
  ghost predicate Summary(w: nat, level: seq<Word>, up: seq<Word>)
    requires w > 0
  {
    forall g :: 0 <= g < |level| ==> (Get(w, up, g) <==> NonZero(level[g]))
  }

  function Level(info: Info, bm: seq<Word>, i: nat): seq<Word> {
    if i + 1 < |info.levels| && info.levels[i] <= info.levels[i + 1] <= |bm| then bm[info.levels[i]..info.levels[i + 1]] else []
  }

  /** The levels of the tree, bottom first. */
  ghost function Levels(info: Info, bm: seq<Word>): (lv: seq<seq<Word>>)
    requires |info.levels| > 0
    ensures |lv| == info.NLevels() && forall i :: 0 <= i < |lv| ==> lv[i] == Level(info, bm, i)
  {
    seq(info.NLevels(), i requires 0 <= i < info.NLevels() => Level(info, bm, i))
  }

  /** Every level has its number of bits. */
  ghost predicate Sized(w: nat, nbits: nat, lv: seq<seq<Word>>)
    requires w > 0
  {
    forall i :: 0 <= i < |lv| ==> LevelOk(w, lv[i], LevelBits(w, nbits, i))
  }

  ghost predicate SummaryAt(w: nat, lv: seq<seq<Word>>, i: nat)
    requires w > 0 && i + 1 < |lv|
  {
    Summary(w, lv[i], lv[i + 1])
  }

  /** Every level summarises the one below. */
  ghost predicate Summarised(w: nat, lv: seq<seq<Word>>)
    requires w > 0
  {
    forall i :: 0 <= i < |lv| - 1 ==> SummaryAt(w, lv, i)
  }

  ghost predicate Shape(info: Info, bm: seq<Word>) {
    InfoOk(info) && |bm| == info.levels[info.NLevels()] && Sized(info.w, info.nbits, Levels(info, bm))
  }

  ghost predicate Tree(info: Info, bm: seq<Word>) {
    Shape(info, bm) && Summarised(info.w, Levels(info, bm))
  }

  lemma OffsetsMonotone(info: Info, i: nat, j: nat)
    requires InfoOk(info) && i <= j <= info.NLevels()
    ensures info.levels[i] <= info.levels[j]
    decreases j - i
  {
    if i < j {
      OffsetsMonotone(info, i, j - 1);
      assert NextOffset(info.w, info.nbits, info.levels, j - 1);
    }
  }

  /** Where group `g` of level `i` lives. */
  lemma GroupPlace(info: Info, bm: seq<Word>, i: nat, g: nat)
    requires Shape(info, bm) && i < info.NLevels() && g < LevelBits(info.w, info.nbits, i + 1)
    ensures info.levels[i] + g < |bm|
    ensures |Level(info, bm, i)| == LevelBits(info.w, info.nbits, i + 1)
    ensures Level(info, bm, i)[g] == bm[info.levels[i] + g] && |bm[info.levels[i] + g]| == info.w
  {
    OffsetsMonotone(info, i + 1, info.NLevels());
    assert NextOffset(info.w, info.nbits, info.levels, i);
    var level := bm[info.levels[i]..info.levels[i + 1]];
    assert level == Level(info, bm, i) == Levels(info, bm)[i];
    assert LevelOk(info.w, level, LevelBits(info.w, info.nbits, i));
    assert |level| == LevelBits(info.w, info.nbits, i + 1) && |level[g]| == info.w;
  }

  /** Writing a group changes its level and no other. */
  lemma LevelUpdate(info: Info, bm: seq<Word>, i: nat, g: nat, word: Word)
    requires Shape(info, bm) && i < info.NLevels() && g < LevelBits(info.w, info.nbits, i + 1)
    ensures info.levels[i] + g < |bm| && g < |Level(info, bm, i)|
    ensures Levels(info, bm[info.levels[i] + g := word]) ==
            Levels(info, bm)[i := Level(info, bm, i)[g := word]]
  {
    GroupPlace(info, bm, i, g);
    var k := info.levels[i] + g;
    var bm' := bm[k := word];
    assert NextOffset(info.w, info.nbits, info.levels, i);
    forall j | 0 <= j < info.NLevels() && j != i ensures Level(info, bm', j) == Level(info, bm, j) {
      OtherLevel(info, bm, i, j, k, word);
    }
    assert Level(info, bm', i) == Level(info, bm, i)[g := word];
  }

  lemma OtherLevel(info: Info, bm: seq<Word>, i: nat, j: nat, k: nat, word: Word)
    requires InfoOk(info) && |bm| == info.levels[info.NLevels()] && i < info.NLevels() && j < info.NLevels() && i != j
    requires info.levels[i] <= k < info.levels[i + 1] <= |bm|
    ensures Level(info, bm[k := word], j) == Level(info, bm, j)
  {
    OffsetsMonotone(info, j, j + 1);
    OffsetsMonotone(info, j + 1, info.NLevels());
    if j < i {
      OffsetsMonotone(info, j + 1, i);
    } else {
      OffsetsMonotone(info, i + 1, j);
    }
  }

  /** Writing one bit of a level. */
  function SetBit(w: nat, level: seq<Word>, b: nat, v: bool): seq<Word>
    requires w > 0 && HasBit(w, level, b)
  {
    level[Grp(w, b) := level[Grp(w, b)][Off(w, b) := v]]
  }

  lemma SetBitGet(w: nat, level: seq<Word>, b: nat, v: bool, b': nat)
    requires w > 0 && HasBit(w, level, b)
    ensures Get(w, SetBit(w, level, b, v), b') == if b' == b then v else Get(w, level, b')
  {
    if b' != b && Grp(w, b') == Grp(w, b) && Off(w, b') == Off(w, b) {
      SplitInjective(w, b, b');
    }
  }

  // ---------- Propagating a change upward ----------

  /** Every summary is right except that bit `g` of level `i` disagrees with group `g` of the level below. */
  ghost predicate Almost(w: nat, lv: seq<seq<Word>>, i: nat, g: nat)
    requires w > 0
  {
    && 0 < i < |lv| && g < |lv[i - 1]|
    && (forall j :: 0 <= j < |lv| - 1 && j + 1 != i ==> SummaryAt(w, lv, j))
    && (forall h :: 0 <= h < |lv[i - 1]| && h != g ==> (Get(w, lv[i], h) <==> NonZero(lv[i - 1][h])))
    && Get(w, lv[i], g) != NonZero(lv[i - 1][g])
  }

  /** Bit `b` of level `i` inverted. */
  ghost function Flip(w: nat, lv: seq<seq<Word>>, i: nat, b: nat): seq<seq<Word>>
    requires w > 0 && i < |lv| && HasBit(w, lv[i], b)
  {
    lv[i := SetBit(w, lv[i], b, !Get(w, lv[i], b))]
  }

  lemma SetBitOk(w: nat, level: seq<Word>, n: nat, b: nat, v: bool)
    requires w > 0 && LevelOk(w, level, n) && HasBit(w, level, b) && b < n
    ensures LevelOk(w, SetBit(w, level, b, v), n)
  {
    forall c: nat | Get(w, SetBit(w, level, b, v), c) ensures c < n {
      SetBitGet(w, level, b, v, c);
    }
  }

  lemma FlipSized(w: nat, nbits: nat, lv: seq<seq<Word>>, i: nat, b: nat)
    requires w > 0 && i < |lv| && HasBit(w, lv[i], b) && Sized(w, nbits, lv) && b < LevelBits(w, nbits, i)
    ensures Sized(w, nbits, Flip(w, lv, i, b))
  {
    SetBitOk(w, lv[i], LevelBits(w, nbits, i), b, !Get(w, lv[i], b));
    var lv' := Flip(w, lv, i, b);
    forall j | 0 <= j < |lv'| ensures LevelOk(w, lv'[j], LevelBits(w, nbits, j)) {
      if j != i {
        assert lv'[j] == lv[j];
      }
    }
  }

  /**
   One step of `bitmap_set` or `bitmap_unset`: inverting the bit that is due at level `i` repairs that
   level; the tree is right again unless the bit's group became zero or stopped being zero.
   */
  lemma FlipStep(w: nat, lv: seq<seq<Word>>, i: nat, b: nat)
    requires w > 0 && i < |lv| && HasBit(w, lv[i], b)
    requires (i == 0 && Summarised(w, lv)) || Almost(w, lv, i, b)
    ensures var lv', g := Flip(w, lv, i, b), Grp(w, b);
            var changed := NonZero(lv[i][g]) != NonZero(lv'[i][g]);
            if changed && i + 1 < |lv| then Almost(w, lv', i + 1, g) else Summarised(w, lv')
  {
    var lv', g := Flip(w, lv, i, b), Grp(w, b);
    SummariesElsewhere(w, lv, i, lv');
    if i > 0 {
      Repair(w, lv[i - 1], lv[i], b);
    }
    if i + 1 < |lv| {
      assert SummaryAt(w, lv, i);
      Disturb(w, lv[i], lv[i + 1], b, !Get(w, lv[i], b));
    }
    Outcome(w, lv', i, g, NonZero(lv[i][g]));
  }

  /** Summaries that do not involve level `i`. */
  lemma SummariesElsewhere(w: nat, lv: seq<seq<Word>>, i: nat, lv': seq<seq<Word>>)
    requires w > 0 && i < |lv| == |lv'| && forall j :: 0 <= j < |lv| && j != i ==> lv'[j] == lv[j]
    requires forall j :: 0 <= j < |lv| - 1 && j + 1 != i ==> SummaryAt(w, lv, j)
    ensures forall j :: 0 <= j < |lv| - 1 && j + 1 != i && j != i ==> SummaryAt(w, lv', j)
  {
    forall j | 0 <= j < |lv| - 1 && j + 1 != i && j != i ensures SummaryAt(w, lv', j) {
      assert SummaryAt(w, lv, j);
    }
  }

  /** With everything else right, what the summary of group `g` of level `i` decides. */
  lemma Outcome(w: nat, lv: seq<seq<Word>>, i: nat, g: nat, was: bool)
    requires w > 0 && i < |lv| && g < |lv[i]|
    requires forall j :: 0 <= j < |lv| - 1 && j + 1 != i && j != i ==> SummaryAt(w, lv, j)
    requires i > 0 ==> Summary(w, lv[i - 1], lv[i])
    requires i + 1 < |lv| ==> forall h :: 0 <= h < |lv[i]| && h != g ==> (Get(w, lv[i + 1], h) <==> NonZero(lv[i][h]))
    requires i + 1 < |lv| ==> (Get(w, lv[i + 1], g) <==> was)
    ensures if was != NonZero(lv[i][g]) && i + 1 < |lv| then Almost(w, lv, i + 1, g) else Summarised(w, lv)
  {
    forall j | 0 <= j < |lv| - 1 && (j != i || was == NonZero(lv[i][g])) ensures SummaryAt(w, lv, j) {
    }
  }

  /** Inverting the one wrong bit of a summary repairs it. */
  lemma Repair(w: nat, level: seq<Word>, up: seq<Word>, g: nat)
    requires w > 0 && HasBit(w, up, g) && g < |level| && Get(w, up, g) != NonZero(level[g])
    requires forall h :: 0 <= h < |level| && h != g ==> (Get(w, up, h) <==> NonZero(level[h]))
    ensures Summary(w, level, SetBit(w, up, g, !Get(w, up, g)))
  {
    forall h | 0 <= h < |level|
      ensures Get(w, SetBit(w, up, g, !Get(w, up, g)), h) <==> NonZero(level[h])
    {
      SetBitGet(w, up, g, !Get(w, up, g), h);
    }
  }

  /** Writing one bit leaves a summary right, or wrong for the bit's group only. */
  lemma Disturb(w: nat, level: seq<Word>, up: seq<Word>, b: nat, v: bool)
    requires w > 0 && HasBit(w, level, b) && Summary(w, level, up)
    ensures var level', g := SetBit(w, level, b, v), Grp(w, b);
            && (forall h :: 0 <= h < |level'| && h != g ==> (Get(w, up, h) <==> NonZero(level'[h])))
            && (Get(w, up, g) <==> NonZero(level[g]))
  {
    var level', g := SetBit(w, level, b, v), Grp(w, b);
    assert forall h :: 0 <= h < |level'| && h != g ==> level'[h] == level[h];
  }

  // ---------- Operations ----------

  /** Group `Grp(w, b)` of level `i` can be written. */
  predicate Addressable(info: Info, bm: seq<Word>, i: nat, b: nat) {
    && info.w > 0 && i < |info.levels| && info.levels[i] + Grp(info.w, b) < |bm|
    && Off(info.w, b) < |bm[info.levels[i] + Grp(info.w, b)]|
  }

  /** `g ^= 1 << (bit & mask)` on group `Grp(w, b)` of level `i`. */
  function FlipAt(info: Info, bm: seq<Word>, i: nat, b: nat): seq<Word>
    requires Addressable(info, bm, i, b)
  {
    var k := info.levels[i] + Grp(info.w, b);
    bm[k := bm[k][Off(info.w, b) := !bm[k][Off(info.w, b)]]]
  }

  lemma FlipAtPlace(info: Info, bm: seq<Word>, i: nat, b: nat)
    requires Shape(info, bm) && i < info.NLevels() && b < LevelBits(info.w, info.nbits, i)
    ensures Addressable(info, bm, i, b)
    ensures HasBit(info.w, Levels(info, bm)[i], b)
    ensures Levels(info, bm)[i][Grp(info.w, b)] == bm[info.levels[i] + Grp(info.w, b)]
    ensures Get(info.w, Levels(info, bm)[i], b) == bm[info.levels[i] + Grp(info.w, b)][Off(info.w, b)]
  {
    BitPlace(info.w, LevelBits(info.w, info.nbits, i), b);
    GroupPlace(info, bm, i, Grp(info.w, b));
    var level := Level(info, bm, i);
    assert Levels(info, bm)[i] == level;
    assert |level[Grp(info.w, b)]| == info.w;
  }

  /** Writing the group in the array is inverting the bit of the level. */
  lemma FlipAtLevels(info: Info, bm: seq<Word>, i: nat, b: nat)
    requires Shape(info, bm) && i < info.NLevels() && b < LevelBits(info.w, info.nbits, i)
    requires Addressable(info, bm, i, b) && HasBit(info.w, Levels(info, bm)[i], b)
    ensures Levels(info, FlipAt(info, bm, i, b)) == Flip(info.w, Levels(info, bm), i, b)
  {
    var w, g := info.w, Grp(info.w, b);
    var k := info.levels[i] + g;
    FlipAtPlace(info, bm, i, b);
    BitPlace(w, LevelBits(w, info.nbits, i), b);
    LevelUpdate(info, bm, i, g, bm[k][Off(w, b) := !bm[k][Off(w, b)]]);
    FlipIs(info, bm, i, b);
  }

  lemma FlipIs(info: Info, bm: seq<Word>, i: nat, b: nat)
    requires Addressable(info, bm, i, b) && i < info.NLevels() && HasBit(info.w, Levels(info, bm)[i], b)
    requires var k := info.levels[i] + Grp(info.w, b);
             var word := bm[k][Off(info.w, b) := !bm[k][Off(info.w, b)]];
             && Levels(info, bm)[i][Grp(info.w, b)] == bm[k]
             && Grp(info.w, b) < |Level(info, bm, i)|
             && Levels(info, bm[k := word]) == Levels(info, bm)[i := Level(info, bm, i)[Grp(info.w, b) := word]]
    ensures Levels(info, FlipAt(info, bm, i, b)) == Flip(info.w, Levels(info, bm), i, b)
  {
    assert Get(info.w, Levels(info, bm)[i], b) == Levels(info, bm)[i][Grp(info.w, b)][Off(info.w, b)];
  }

  lemma FlipAtShape(info: Info, bm: seq<Word>, i: nat, b: nat)
    requires Shape(info, bm) && i < info.NLevels() && b < LevelBits(info.w, info.nbits, i)
    requires Addressable(info, bm, i, b) && HasBit(info.w, Levels(info, bm)[i], b)
    ensures Shape(info, FlipAt(info, bm, i, b))
  {
    FlipAtLevels(info, bm, i, b);
    FlipSized(info.w, info.nbits, Levels(info, bm), i, b);
  }

  /** The tree is right, or wrong only at the bit of level `i` that is due next. */
  ghost predicate Due(info: Info, bm: seq<Word>, i: nat, b: nat) {
    && Shape(info, bm) && i < info.NLevels() && b < LevelBits(info.w, info.nbits, i)
    && ((i == 0 && Summarised(info.w, Levels(info, bm))) || Almost(info.w, Levels(info, bm), i, b))
  }

  /** What one propagation step of `bitmap_set` and `bitmap_unset` achieves. */
  lemma Propagate(info: Info, bm: seq<Word>, i: nat, b: nat)
    requires Due(info, bm, i, b)
    ensures Addressable(info, bm, i, b) && HasBit(info.w, Levels(info, bm)[i], b)
    ensures var bm', k := FlipAt(info, bm, i, b), info.levels[i] + Grp(info.w, b);
            var changed := NonZero(bm[k]) != NonZero(bm'[k]);
            if changed && i + 1 < info.NLevels() then Due(info, bm', i + 1, Grp(info.w, b)) else Tree(info, bm')
    ensures Levels(info, FlipAt(info, bm, i, b))[i] == SetBit(info.w, Levels(info, bm)[i], b, !Get(info.w, Levels(info, bm)[i], b))
    ensures i > 0 ==> Levels(info, FlipAt(info, bm, i, b))[0] == Levels(info, bm)[0]
  {
    FlipAtPlace(info, bm, i, b);
    FlipAtLevels(info, bm, i, b);
    FlipAtShape(info, bm, i, b);
    FlipStep(info.w, Levels(info, bm), i, b);
    BitPlace(info.w, LevelBits(info.w, info.nbits, i), b);
    FlipAtPlace(info, FlipAt(info, bm, i, b), i, b);
  }

  /** The logical bits: bit `b` of level 0 is set while `b` is free. */
  ghost function Bottom(info: Info, bm: seq<Word>): seq<Word>
    requires |info.levels| >= 2
  {
    Levels(info, bm)[0]
  }

  method FlipInPlace(a: array<Word>, info: Info, i: nat, b: nat) returns (was: bool, now: bool)
    requires Addressable(info, a[..], i, b)
    modifies a
    ensures a[..] == FlipAt(info, old(a[..]), i, b)
    ensures var k := info.levels[i] + Grp(info.w, b); was == NonZero(old(a[..])[k]) && now == NonZero(a[..][k])
  {
    var k := info.levels[i] + Grp(info.w, b);
    was := NonZero(a[k]);
    a[k] := a[k][Off(info.w, b) := !a[k][Off(info.w, b)]];
    now := NonZero(a[k]);
  }

  /** What inverting the bit due at level `i` achieves; `was` and `now` tell whether its group is non-zero. */
  ghost predicate Stepped(info: Info, bm: seq<Word>, bm': seq<Word>, i: nat, b: nat, was: bool, now: bool) {
    && info.w > 0 && i < info.NLevels() && HasBit(info.w, Levels(info, bm)[i], b)
    && (Get(info.w, Levels(info, bm)[i], b) ==> was)
    && (!Get(info.w, Levels(info, bm)[i], b) ==> now)
    && (if was != now && i + 1 < info.NLevels()
        then Due(info, bm', i + 1, Grp(info.w, b)) && Get(info.w, Levels(info, bm')[i + 1], Grp(info.w, b)) == was
        else Tree(info, bm'))
    && (i > 0 ==> Bottom(info, bm') == Bottom(info, bm))
    && (i == 0 ==> Bottom(info, bm') == SetBit(info.w, Bottom(info, bm), b, !Get(info.w, Bottom(info, bm), b)))
  }

  lemma FlipSteps(info: Info, bm: seq<Word>, i: nat, b: nat)
    requires Due(info, bm, i, b)
    ensures Addressable(info, bm, i, b)
    ensures var bm', k := FlipAt(info, bm, i, b), info.levels[i] + Grp(info.w, b);
            Stepped(info, bm, bm', i, b, NonZero(bm[k]), NonZero(bm'[k]))
  {
    Propagate(info, bm, i, b);
    StepFacts(info, bm, i, b);
  }

  method StepUp(a: array<Word>, info: Info, i: nat, b: nat) returns (was: bool, now: bool)
    requires Due(info, a[..], i, b)
    modifies a
    ensures Stepped(info, old(a[..]), a[..], i, b, was, now)
  {
    FlipSteps(info, a[..], i, b);
    was, now := FlipInPlace(a, info, i, b);
  }

  lemma StepFacts(info: Info, bm: seq<Word>, i: nat, b: nat)
    requires Due(info, bm, i, b)
    ensures Addressable(info, bm, i, b)
    ensures var bm', k := FlipAt(info, bm, i, b), info.levels[i] + Grp(info.w, b);
            && (Get(info.w, Levels(info, bm)[i], b) ==> NonZero(bm[k]))
            && (!Get(info.w, Levels(info, bm)[i], b) ==> NonZero(bm'[k]))
            && (NonZero(bm[k]) != NonZero(bm'[k]) && i + 1 < info.NLevels() ==>
                  Get(info.w, Levels(info, bm')[i + 1], Grp(info.w, b)) == NonZero(bm[k]))
  {
    FlipAtPlace(info, bm, i, b);
    Propagate(info, bm, i, b);
    var bm', k := FlipAt(info, bm, i, b), info.levels[i] + Grp(info.w, b);
    assert bm'[k][Off(info.w, b)] == !bm[k][Off(info.w, b)];
    if NonZero(bm[k]) != NonZero(bm'[k]) && i + 1 < info.NLevels() {
      StepAbove(info, bm, i, b);
    }
  }

  /** When a group changes between zero and non-zero, its bit one level up says what it was. */
  lemma StepAbove(info: Info, bm: seq<Word>, i: nat, b: nat)
    requires Due(info, bm, i, b) && Addressable(info, bm, i, b) && HasBit(info.w, Levels(info, bm)[i], b)
    requires var bm', k := FlipAt(info, bm, i, b), info.levels[i] + Grp(info.w, b);
             NonZero(bm[k]) != NonZero(bm'[k]) && i + 1 < info.NLevels() && Due(info, bm', i + 1, Grp(info.w, b))
    ensures var bm', k := FlipAt(info, bm, i, b), info.levels[i] + Grp(info.w, b);
            Get(info.w, Levels(info, bm')[i + 1], Grp(info.w, b)) == NonZero(bm[k])
  {
    FlipAtShape(info, bm, i, b);
    FlipAtPlace(info, FlipAt(info, bm, i, b), i, b);
  }

  /** `bitmap_set`: bit `bit` becomes taken, no other bit changes, and the tree stays right. */
  method Set(a: array<Word>, info: Info, bit: nat)
    requires Tree(info, a[..]) && bit < info.nbits && Get(info.w, Bottom(info, a[..]), bit)
    modifies a
    ensures Tree(info, a[..])
    ensures HasBit(info.w, old(Bottom(info, a[..])), bit)
    ensures Bottom(info, a[..]) == SetBit(info.w, old(Bottom(info, a[..])), bit, false)
  {
    var goff := bit;
    var was, now := StepUp(a, info, 0, bit);
    var i := 1;
    while i < info.NLevels() && !now
      invariant 1 <= i <= info.NLevels() && was
      invariant if !now && i < info.NLevels()
                then Due(info, a[..], i, Grp(info.w, goff)) && Get(info.w, Levels(info, a[..])[i], Grp(info.w, goff))
                else Tree(info, a[..])
      invariant HasBit(info.w, old(Bottom(info, a[..])), bit)
      invariant Bottom(info, a[..]) == SetBit(info.w, old(Bottom(info, a[..])), bit, false)
      decreases info.NLevels() - i
    {
      goff := Grp(info.w, goff);
      was, now := StepUp(a, info, i, goff);
      i := i + 1;
    }
  }

  /** `bitmap_unset`: bit `bit` becomes free again, no other bit changes, and the tree stays right. */
  method Unset(a: array<Word>, info: Info, bit: nat)
    requires Tree(info, a[..]) && bit < info.nbits && !Get(info.w, Bottom(info, a[..]), bit)
    modifies a
    ensures Tree(info, a[..])
    ensures HasBit(info.w, old(Bottom(info, a[..])), bit)
    ensures Bottom(info, a[..]) == SetBit(info.w, old(Bottom(info, a[..])), bit, true)
  {
    var goff := bit;
    var was, now := StepUp(a, info, 0, bit);
    var i := 1;
    while i < info.NLevels() && !was
      invariant 1 <= i <= info.NLevels() && now
      invariant if !was && i < info.NLevels()
                then Due(info, a[..], i, Grp(info.w, goff)) && !Get(info.w, Levels(info, a[..])[i], Grp(info.w, goff))
                else Tree(info, a[..])
      invariant HasBit(info.w, old(Bottom(info, a[..])), bit)
      invariant Bottom(info, a[..]) == SetBit(info.w, old(Bottom(info, a[..])), bit, true)
      decreases info.NLevels() - i
    {
      goff := Grp(info.w, goff);
      was, now := StepUp(a, info, i, goff);
      i := i + 1;
    }
  }

  // ---------- Searching ----------

  /** `ffs_lu(g) - 1`. */
  function Ffs(g: Word): (p: nat)
    requires NonZero(g)
    ensures p < |g| && g[p] && forall q :: 0 <= q < p ==> !g[q]
  {
    if g[0] then 0
    else
      assert forall q :: 1 <= q < |g| ==> g[q] == g[1..][q - 1];
      assert NonZero(g[1..]) by {
        var p :| 0 <= p < |g| && g[p];
        assert g[1..][p - 1];
      }
      1 + Ffs(g[1..])
  }

  /** `b` is the lowest set bit of the level. */
  ghost predicate Lowest(w: nat, level: seq<Word>, b: nat)
    requires w > 0
  {
    Get(w, level, b) && forall c: nat :: c < b ==> !Get(w, level, c)
  }

  ghost predicate Any(level: seq<Word>) {
    exists g :: 0 <= g < |level| && NonZero(level[g])
  }

  lemma {:induction false} Join(w: nat, g: nat, p: nat)
    requires p < w
    ensures Grp(w, g * w + p) == g && Off(w, g * w + p) == p
  {
    ShiftsAndMasks(w, g * w + p);
    QuotientBetween(g, w, p);
  }

  /** Bits are ordered by group first, then by place in the group. */
  lemma {:induction false} SplitOrder(w: nat, b: nat, c: nat)
    requires w > 0 && c < b
    ensures Grp(w, c) < Grp(w, b) || (Grp(w, c) == Grp(w, b) && Off(w, c) < Off(w, b))
  {
    if c >= w {
      SplitOrder(w, b - w, c - w);
    }
  }

  /** Descending one level: the lowest non-zero group holds the lowest set bit. */
  lemma Descend(w: nat, level: seq<Word>, up: seq<Word>, g: nat)
    requires w > 0 && Summary(w, level, up) && Lowest(w, up, g) && g < |level|
    requires forall h :: 0 <= h < |level| ==> |level[h]| == w
    ensures NonZero(level[g]) && Lowest(w, level, g * w + Ffs(level[g]))
  {
    assert Get(w, up, g) <==> NonZero(level[g]);
    var p := Ffs(level[g]);
    var b := g * w + p;
    Join(w, g, p);
    forall c: nat | c < b ensures !Get(w, level, c) {
      SplitOrder(w, b, c);
      var h := Grp(w, c);
      if h < g {
        assert !Get(w, up, h);
      }
    }
  }

  lemma AnyUp(w: nat, level: seq<Word>, up: seq<Word>)
    requires w > 0 && Summary(w, level, up)
    requires LevelOk(w, up, |level|)
    ensures Any(level) <==> Any(up)
  {
    if g :| 0 <= g < |level| && NonZero(level[g]) {
      assert Get(w, up, g);
      assert NonZero(up[Grp(w, g)]);
    }
    if g :| 0 <= g < |up| && NonZero(up[g]) {
      var p :| 0 <= p < |up[g]| && up[g][p];
      Join(w, g, p);
      assert Get(w, up, g * w + p);
    }
  }

  /** A level has a set bit exactly when the bottom level has one. */
  lemma {:induction false} AnyAtLevel(info: Info, bm: seq<Word>, i: nat)
    requires Tree(info, bm) && i < info.NLevels()
    ensures Any(Levels(info, bm)[i]) <==> Any(Bottom(info, bm))
  {
    if i > 0 {
      var lv := Levels(info, bm);
      AnyAtLevel(info, bm, i - 1);
      assert SummaryAt(info.w, lv, i - 1);
      assert LevelOk(info.w, lv[i], LevelBits(info.w, info.nbits, i));
      assert LevelOk(info.w, lv[i - 1], LevelBits(info.w, info.nbits, i - 1));
      AnyUp(info.w, lv[i - 1], lv[i]);
    }
  }

  /** The root is the single group of the top level. */
  lemma Root(info: Info, bm: seq<Word>)
    requires Tree(info, bm)
    ensures var n := info.NLevels();
            && info.levels[n - 1] < |bm| && info.levels[n] == info.levels[n - 1] + 1
            && Levels(info, bm)[n - 1] == [bm[info.levels[n - 1]]]
  {
    var n := info.NLevels();
    assert NextOffset(info.w, info.nbits, info.levels, n - 1);
    GroupPlace(info, bm, n - 1, 0);
  }

  lemma AnyOfOne(g: Word)
    ensures Any([g]) <==> NonZero(g)
  {
    assert [g][0] == g;
  }

  lemma RootTells(info: Info, bm: seq<Word>)
    requires Tree(info, bm)
    ensures 0 < info.levels[info.NLevels()] <= |bm|
    ensures NonZero(bm[info.levels[info.NLevels()] - 1]) <==> Any(Bottom(info, bm))
  {
    var n := info.NLevels();
    Root(info, bm);
    AnyAtLevel(info, bm, n - 1);
    AnyOfOne(bm[info.levels[n - 1]]);
  }

  /** `bitmap_full`: the root is zero exactly when no bit is free. */
  method Full(a: array<Word>, info: Info) returns (full: bool)
    requires Tree(info, a[..])
    ensures full <==> !Any(Bottom(info, a[..]))
  {
    RootTells(info, a[..]);
    full := !NonZero(a[info.levels[info.NLevels()] - 1]);
  }

  /** `bitmap_get`. */
  method IsTaken(a: array<Word>, info: Info, bit: nat) returns (taken: bool)
    requires Tree(info, a[..]) && bit < info.nbits
    ensures taken <==> !Get(info.w, Bottom(info, a[..]), bit)
  {
    FlipAtPlace(info, a[..], 0, bit);
    taken := !a[Grp(info.w, bit)][Off(info.w, bit)];
  }

  /** The search of `bitmap_sfu`: walk down from the root along lowest set bits. */
  method FirstFree(a: array<Word>, info: Info) returns (bit: nat)
    requires Tree(info, a[..]) && Any(Bottom(info, a[..]))
    ensures bit < info.nbits && Lowest(info.w, Bottom(info, a[..]), bit)
  {
    var i := info.NLevels() - 1;
    ghost var lv := Levels(info, a[..]);
    Root(info, a[..]);
    AnyAtLevel(info, a[..], i);
    bit := Ffs(a[info.levels[i]]);
    RootLowest(info.w, lv[i], bit);
    while i > 0
      invariant 0 <= i < info.NLevels()
      invariant Lowest(info.w, lv[i], bit)
    {
      i := i - 1;
      bit := StepDown(a, info, i, bit);
    }
    assert LevelOk(info.w, lv[0], info.nbits);
  }

  /** From the lowest set bit of level `i + 1` to that of level `i`. */
  method StepDown(a: array<Word>, info: Info, i: nat, g: nat) returns (bit: nat)
    requires Tree(info, a[..]) && i + 1 < info.NLevels() && Lowest(info.w, Levels(info, a[..])[i + 1], g)
    ensures Lowest(info.w, Levels(info, a[..])[i], bit)
  {
    ghost var lv := Levels(info, a[..]);
    LowestIsGroup(info, a[..], i, g);
    Descend(info.w, lv[i], lv[i + 1], g);
    bit := g * info.w + Ffs(a[info.levels[i] + g]);
  }

  lemma RootLowest(w: nat, level: seq<Word>, p: nat)
    requires |level| == 1 && |level[0]| == w && p < w && level[0][p] && forall q :: 0 <= q < p ==> !level[0][q]
    ensures Lowest(w, level, p)
  {
  }

  /** A set bit of level `i + 1` names a group of level `i`. */
  lemma LowestIsGroup(info: Info, bm: seq<Word>, i: nat, g: nat)
    requires Tree(info, bm) && i + 1 < info.NLevels() && Get(info.w, Levels(info, bm)[i + 1], g)
    ensures var lv := Levels(info, bm);
            && g < |lv[i]| && info.levels[i] + g < |bm| && lv[i][g] == bm[info.levels[i] + g]
            && Summary(info.w, lv[i], lv[i + 1])
            && forall h :: 0 <= h < |lv[i]| ==> |lv[i][h]| == info.w
  {
    var lv := Levels(info, bm);
    assert SummaryAt(info.w, lv, i);
    assert LevelOk(info.w, lv[i + 1], LevelBits(info.w, info.nbits, i + 1));
    assert LevelOk(info.w, lv[i], LevelBits(info.w, info.nbits, i));
    GroupPlace(info, bm, i, g);
  }

  /** `bitmap_sfu`: take the lowest free bit. */
  method SetFirstUnset(a: array<Word>, info: Info) returns (bit: nat)
    requires Tree(info, a[..]) && Any(Bottom(info, a[..]))
    modifies a
    ensures Tree(info, a[..]) && bit < info.nbits
    ensures Lowest(info.w, old(Bottom(info, a[..])), bit)
    ensures HasBit(info.w, old(Bottom(info, a[..])), bit)
    ensures Bottom(info, a[..]) == SetBit(info.w, old(Bottom(info, a[..])), bit, false)
  {
    bit := FirstFree(a, info);
    Set(a, info, bit);
  }

  // ---------- Initialisation ----------

  function Ones(w: nat): Word {
    seq(w, _ => true)
  }

  /** `g >>= k`. */
  function ShiftRight(g: Word, k: nat): Word {
    seq(|g|, p requires 0 <= p < |g| => p + k < |g| && g[p + k])
  }

  /** The unused bits of the last group of `n` bits. */
  function Extra(w: nat, n: nat): (k: nat)
    requires w > 0
    ensures k < w
  {
    if Off(w, n) == 0 then 0 else w - Off(w, n)
  }

  /** Exactly the first `n` bits are set. */
  ghost predicate Filled(w: nat, level: seq<Word>, n: nat)
    requires w > 0
  {
    && |level| == Groups(w, n)
    && (forall g :: 0 <= g < |level| ==> |level[g]| == w)
    && (forall b: nat :: Get(w, level, b) <==> b < n)
  }

  lemma {:induction false} FillArithmetic(w: nat, n: nat, b: nat)
    requires w > 0 && n > 0
    ensures b < n <==> Grp(w, b) < Groups(w, n) && (Grp(w, b) == Groups(w, n) - 1 ==> Off(w, b) + Extra(w, n) < w)
  {
    if n > w {
      if b >= w {
        FillArithmetic(w, n - w, b - w);
      }
      assert Off(w, n) == Off(w, n - w);
    } else if n == w {
      assert Off(w, w) == Off(w, 0) == 0;
      assert b >= w ==> Grp(w, b) == 1 + Grp(w, b - w);
    }
  }

  /** All ones, with the last group shifted to drop the unused bits. */
  lemma ShiftedIsFilled(w: nat, level: seq<Word>, n: nat)
    requires w > 0 && n > 0 && |level| == Groups(w, n)
    requires forall g :: 0 <= g < |level| - 1 ==> level[g] == Ones(w)
    requires level[|level| - 1] == ShiftRight(Ones(w), Extra(w, n))
    ensures Filled(w, level, n)
  {
    forall b: nat ensures Get(w, level, b) <==> b < n {
      FillArithmetic(w, n, b);
    }
  }

  /** Full levels summarise full levels. */
  lemma FilledSummary(w: nat, level: seq<Word>, up: seq<Word>, n: nat)
    requires w > 0 && n > 0 && Filled(w, level, n) && Filled(w, up, Groups(w, n))
    ensures Summary(w, level, up)
  {
    forall g | 0 <= g < |level| ensures Get(w, up, g) && NonZero(level[g]) {
      Join(w, g, 0);
      FillArithmetic(w, n, g * w + 0);
      assert Get(w, level, g * w + 0);
      assert level[g][0];
    }
  }

  /** The bitmap right after `bitmap_init`. */
  ghost predicate Fresh(info: Info, bm: seq<Word>) {
    && InfoOk(info) && |bm| == info.levels[info.NLevels()]
    && forall i :: 0 <= i < info.NLevels() ==> Filled(info.w, Level(info, bm, i), LevelBits(info.w, info.nbits, i))
  }

  lemma {:induction false} LevelBitsPositive(w: nat, nbits: nat, i: nat)
    requires w > 0 && nbits > 0
    ensures LevelBits(w, nbits, i) > 0
  {
    if i > 0 {
      LevelBitsPositive(w, nbits, i - 1);
    }
  }

  /** A fresh bitmap is a tree in which every bit is free. */
  lemma FreshIsTree(info: Info, bm: seq<Word>)
    requires Fresh(info, bm)
    ensures Tree(info, bm)
    ensures forall b: nat :: Get(info.w, Bottom(info, bm), b) <==> b < info.nbits
  {
    var w, lv := info.w, Levels(info, bm);
    forall i | 0 <= i < |lv| - 1 ensures SummaryAt(w, lv, i) {
      LevelBitsPositive(w, info.nbits, i);
      assert lv[i] == Level(info, bm, i) && lv[i + 1] == Level(info, bm, i + 1);
      FilledSummary(w, lv[i], lv[i + 1], LevelBits(w, info.nbits, i));
    }
    assert lv[0] == Level(info, bm, 0);
  }

  /** Levels below `i` are initialised, the rest is all ones. */
  ghost predicate FilledBelow(info: Info, bm: seq<Word>, i: nat) {
    && InfoOk(info) && |bm| == info.levels[info.NLevels()] && i <= info.NLevels()
    && (forall j :: 0 <= j < i ==> Filled(info.w, Level(info, bm, j), LevelBits(info.w, info.nbits, j)))
    && (forall k :: info.levels[i] <= k < |bm| ==> bm[k] == Ones(info.w))
  }

  /** Drop the unused bits of level `i`. */
  method Trim(a: array<Word>, info: Info, i: nat, n: nat)
    requires i < info.NLevels() && FilledBelow(info, a[..], i) && n == LevelBits(info.w, info.nbits, i)
    modifies a
    ensures FilledBelow(info, a[..], i + 1)
  {
    LastGroup(info, i);
    var k := info.levels[i + 1] - 1;
    TrimFacts(info, a[..], i, k);
    var extra := Extra(info.w, n);
    assert extra == 0 ==> ShiftRight(Ones(info.w), 0) == Ones(info.w);
    ghost var bm := a[..];
    a[k] := if extra != 0 then ShiftRight(a[k], extra) else a[k];
    assert a[..] == bm[k := ShiftRight(Ones(info.w), extra)];
  }

  lemma LastGroup(info: Info, i: nat)
    requires InfoOk(info) && i < info.NLevels()
    ensures info.levels[i] < info.levels[i + 1] <= info.levels[info.NLevels()]
    ensures info.levels[i + 1] - info.levels[i] == Groups(info.w, LevelBits(info.w, info.nbits, i))
  {
    LevelBitsPositive(info.w, info.nbits, i + 1);
    assert NextOffset(info.w, info.nbits, info.levels, i);
    OffsetsMonotone(info, i + 1, info.NLevels());
  }

  lemma TrimFacts(info: Info, bm: seq<Word>, i: nat, k: nat)
    requires i < info.NLevels() && FilledBelow(info, bm, i) && k + 1 == info.levels[i + 1]
    ensures k < |bm| && bm[k] == Ones(info.w)
    ensures FilledBelow(info, bm[k := ShiftRight(Ones(info.w), Extra(info.w, LevelBits(info.w, info.nbits, i)))], i + 1)
  {
    var w, n := info.w, LevelBits(info.w, info.nbits, i);
    LastGroup(info, i);
    LevelBitsPositive(w, info.nbits, i);
    var word := ShiftRight(Ones(w), Extra(w, n));
    var bm' := bm[k := word];
    var level := bm'[info.levels[i]..info.levels[i + 1]];
    assert Level(info, bm', i) == level;
    assert forall g :: 0 <= g < |level| - 1 ==> level[g] == bm'[info.levels[i] + g] == Ones(w);
    ShiftedIsFilled(w, level, n);
    forall j | 0 <= j < i + 1 ensures Filled(w, Level(info, bm', j), LevelBits(w, info.nbits, j)) {
      if j < i {
        OtherLevel(info, bm, i, j, k, word);
      }
    }
  }

  /** `bitmap_init`: every logical bit is free, every padding bit is zero, and every summary bit is right. */
  method Init(a: array<Word>, info: Info)
    requires InfoOk(info) && a.Length == info.levels[info.NLevels()]
    modifies a
    ensures Tree(info, a[..])
    ensures forall b: nat :: Get(info.w, Bottom(info, a[..]), b) <==> b < info.nbits
  {
    forall k | 0 <= k < a.Length {
      a[k] := Ones(info.w);
    }
    Trim(a, info, 0, info.nbits);
    var i := 1;
    while i < info.NLevels()
      invariant 1 <= i <= info.NLevels()
      invariant FilledBelow(info, a[..], i)
    {
      assert NextOffset(info.w, info.nbits, info.levels, i - 1);
      var groupCount := info.levels[i] - info.levels[i - 1];
      Trim(a, info, i, groupCount);
      i := i + 1;
    }
    FreshIsTree(info, a[..]);
  }
}
