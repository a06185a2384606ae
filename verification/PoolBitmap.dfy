/** The free-slot bitmap of a pool: three 64-bit words (memchk_allocator.c). */
module PoolBitmap {

  const WORD_BITS := 64
  const MAX_BITS := 192

  /** A 64-bit word, lowest bit first. */
  type Word = w: seq<bool> | |w| == WORD_BITS witness seq(WORD_BITS, _ => true)

  type Bitmap = b: seq<Word> | |b| == 3 witness seq(3, _ => seq(WORD_BITS, _ => true))

  const ALL_ONES: Word := seq(WORD_BITS, _ => true)

  predicate Bit(b: Bitmap, i: nat)
    requires i < MAX_BITS
  {
    b[i / WORD_BITS][i % WORD_BITS]
  }

  /** `__builtin_ffsl`: one more than the index of the lowest set bit, or 0. */
  function Ffs(w: seq<bool>): (r: nat)
    ensures r <= |w|
    ensures r == 0 <==> forall i :: 0 <= i < |w| ==> !w[i]
    ensures r > 0 ==> w[r - 1] && forall i :: 0 <= i < r - 1 ==> !w[i]
  {
    if w == [] then 0
    else if w[0] then 1
    else
      var r := Ffs(w[1..]);
      if r == 0 then
        assert forall i :: 0 <= i < |w| ==> !w[i] by {
          assert forall i :: 0 < i < |w| ==> w[i] == w[1..][i - 1];
        }
        0
      else
        assert forall i :: 0 < i < |w| ==> w[i] == w[1..][i - 1];
        r + 1
  }

  /** The three cases of setting and clearing a bit, word by word. */
  function WriteBit(b: Bitmap, i: nat, v: bool): (r: Bitmap)
    requires i < MAX_BITS
    ensures forall k {:trigger Bit(r, k)} :: 0 <= k < MAX_BITS ==> Bit(r, k) == if k == i then v else Bit(b, k)
  {
    if i < WORD_BITS then b[0 := b[0][i := v]]
    else if i < 2 * WORD_BITS then b[1 := b[1][i - WORD_BITS := v]]
    else b[2 := b[2][i - 2 * WORD_BITS := v]]
  }

  /** The lowest free slot among `num`, or -1. */
  function LowestBit(b: Bitmap, num: nat): int
  {
    var r0 := Ffs(b[0]);
    if r0 == 0 then
      if num <= WORD_BITS then -1
      else
        var r1 := Ffs(b[1]);
        if r1 == 0 then
          if num <= 2 * WORD_BITS then -1
          else
            var r2 := Ffs(b[2]);
            if r2 + 2 * WORD_BITS <= num then r2 + 2 * WORD_BITS - 1 else -1
        else if r1 + WORD_BITS <= num then r1 + WORD_BITS - 1
        else -1
    else if r0 <= num then r0 - 1
    else -1
  }

  ghost function FreeAmong(b: Bitmap, num: nat): (s: set<nat>)
    requires num <= MAX_BITS
    ensures forall i: nat :: i in s <==> i < num && Bit(b, i)
  {
    set i: nat | i < num && Bit(b, i)
  }

  /** Bits above the slot count are never cleared. */
  ghost predicate StraysSet(b: Bitmap, num: nat)
  {
    forall i :: num <= i < MAX_BITS ==> Bit(b, i)
  }

  /** With fewer than 192 slots the search finds the least free slot, or says there is none. */
  lemma LowestBitIs(b: Bitmap, num: nat)
    requires num < MAX_BITS && StraysSet(b, num)
    ensures var r := LowestBit(b, num);
      && (r == -1 <==> FreeAmong(b, num) == {})
      && (r != -1 ==> 0 <= r < num && Bit(b, r) && forall i :: 0 <= i < r ==> !Bit(b, i))
  {
    var r := LowestBit(b, num);
    assert forall i :: 0 <= i < WORD_BITS ==> Bit(b, i) == b[0][i];
    assert forall i :: WORD_BITS <= i < 2 * WORD_BITS ==> Bit(b, i) == b[1][i - WORD_BITS];
    assert forall i :: 2 * WORD_BITS <= i < MAX_BITS ==> Bit(b, i) == b[2][i - 2 * WORD_BITS];
    assert Bit(b, MAX_BITS - 1);
    if r == -1 {
      forall i | 0 <= i < num
        ensures !Bit(b, i)
      {
      }
      assert FreeAmong(b, num) == {};
    } else {
      assert r in FreeAmong(b, num);
    }
  }

  /** For any bitmap of that many slots the search is right exactly when there are fewer than 192 of them. */
  lemma LowestBitNeedsRoom(num: nat)
    requires 2 * WORD_BITS < num <= MAX_BITS
    ensures (forall b: Bitmap :: StraysSet(b, num) ==> (LowestBit(b, num) == -1 <==> FreeAmong(b, num) == {})) <==>
      num < MAX_BITS
  {
    if num < MAX_BITS {
      forall b: Bitmap | StraysSet(b, num)
        ensures LowestBit(b, num) == -1 <==> FreeAmong(b, num) == {}
      {
        LowestBitIs(b, num);
      }
    } else {
      FullLooksFree();
    }
  }

  /** With exactly 192 slots, all taken, the search answers 127. */
  lemma FullLooksFree()
    ensures exists b: Bitmap :: StraysSet(b, MAX_BITS) && FreeAmong(b, MAX_BITS) == {} && LowestBit(b, MAX_BITS) == 127
  {
    var zero: Word := seq(WORD_BITS, _ => false);
    var b: Bitmap := [zero, zero, zero];
    assert forall i :: 0 <= i < MAX_BITS ==> !Bit(b, i);
    assert FreeAmong(b, MAX_BITS) == {};
    assert Ffs(b[0]) == 0 && Ffs(b[1]) == 0 && Ffs(b[2]) == 0;
    assert LowestBit(b, MAX_BITS) == 127;
  }

  lemma TakeOne(b: Bitmap, num: nat, i: nat)
    requires num <= MAX_BITS && i < num && Bit(b, i)
    ensures FreeAmong(WriteBit(b, i, false), num) == FreeAmong(b, num) - {i}
    ensures |FreeAmong(WriteBit(b, i, false), num)| == |FreeAmong(b, num)| - 1
  {
    assert FreeAmong(WriteBit(b, i, false), num) == FreeAmong(b, num) - {i};
  }

  lemma GiveOne(b: Bitmap, num: nat, i: nat)
    requires num <= MAX_BITS && i < num && !Bit(b, i)
    ensures |FreeAmong(WriteBit(b, i, true), num)| == |FreeAmong(b, num)| + 1
  {
    assert FreeAmong(WriteBit(b, i, true), num) == FreeAmong(b, num) + {i};
  }

  /** Clearing a set bit and setting it again gives the bitmap back. */
  lemma WriteBack(b: Bitmap, i: nat)
    requires i < MAX_BITS && Bit(b, i)
    ensures WriteBit(WriteBit(b, i, false), i, true) == b
  {
    var c := WriteBit(WriteBit(b, i, false), i, true);
    assert c[0] == b[0] && c[1] == b[1] && c[2] == b[2];
  }
}
