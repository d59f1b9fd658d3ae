/** FlatBuffers vectors in a byte buffer: element access, the two swaps, and the in-place heap sort. */
module Vectors {
  import opened Memory
  import opened Order

  /** What a slot holds: a scalar of some width, or the self-relative offset of a table or string. */
  datatype Slot = Value(width: nat) | Offset {
    function Width(): nat {
      if Offset? then 4 else width
    }
  }

  /** A vector: the address of its first slot (0 is the null vector) and the kind of its slots.
      Its length is the word in front of the first slot. */
  datatype Vec = Vec(pos: nat, slot: Slot) {
    function At(i: nat): nat {
      pos + i * slot.Width()
    }
  }

  /** `flatbuffers_vec_len`: the null vector is empty. */
  function Length(m: seq<byte>, v: Vec): (n: nat)
    requires v.pos != 0 ==> 4 <= v.pos <= |m|
  {
    if v.pos == 0 then 0 else ReadU32(m, v.pos - 4)
  }

  /** The length word and all slots of the vector are inside the buffer. */
  ghost predicate InBuffer(m: seq<byte>, v: Vec) {
    && 1 <= v.slot.Width()
    && (v.pos != 0 ==> 4 <= v.pos <= |m| && v.At(Length(m, v)) <= |m|)
  }

  lemma Scaled(i: nat, j: nat, w: nat)
    requires i < j
    ensures 0 <= i * w && i * w + w <= j * w
  {
    Product(i, w);
    Product(j - i - 1, w);
    assert j * w == i * w + w + (j - i - 1) * w;
  }

  lemma Product(i: nat, w: nat)
    ensures i * w >= 0
  {
  }

  lemma SlotInside(m: seq<byte>, v: Vec, i: nat)
    requires InBuffer(m, v) && i < Length(m, v)
    ensures v.pos <= v.At(i) && v.At(i) + v.slot.Width() <= v.At(Length(m, v)) <= |m|
  {
    Scaled(i, Length(m, v), v.slot.Width());
  }

  lemma SlotsApart(v: Vec, i: nat, j: nat)
    requires i < j
    ensures v.At(i) + v.slot.Width() <= v.At(j)
  {
    Scaled(i, j, v.slot.Width());
  }

  /** What the slot stands for: the scalar's bytes as a number, or the absolute address of the object. */
  function Element(m: seq<byte>, v: Vec, i: nat): nat
    requires InBuffer(m, v) && i < Length(m, v)
  {
    SlotInside(m, v, i);
    if v.slot.Offset? then v.At(i) + ReadU32(m, v.At(i))
    else LittleEndian(m[v.At(i)..v.At(i) + v.slot.Width()])
  }

  function Elements(m: seq<byte>, v: Vec): (e: seq<nat>)
    requires InBuffer(m, v)
    ensures |e| == Length(m, v)
  {
    seq(Length(m, v), i requires 0 <= i < Length(m, v) => Element(m, v, i))
  }

  /** The bytes the vector's slots occupy are `[v.pos, End(m, v))`. */
  function End(m: seq<byte>, v: Vec): nat
    requires InBuffer(m, v)
  {
    v.At(Length(m, v))
  }

  /** A vector of offsets stored behind the word of its length: each slot leads to what its offset, counted from the
      slot, leads to. */
  lemma OffsetsWritten(m: seq<byte>, v: Vec, targets: seq<nat>)
    requires v.slot == Offset && 4 <= v.pos && v.pos + 4 * |targets| <= |m| && |targets| < TWO_TO_THE_32
    requires m[v.pos - 4..v.pos] == U32Bytes(|targets|)
    requires forall i :: 0 <= i < |targets| ==>
      && 0 <= targets[i] - (v.pos + 4 * i) < TWO_TO_THE_32
      && m[v.pos + 4 * i..v.pos + 4 * i + 4] == U32Bytes(targets[i] - (v.pos + 4 * i))
    ensures InBuffer(m, v) && Elements(m, v) == targets
  {
    WordWritten(m, v.pos - 4, |targets|);
    hide ReadU32;
    forall i | 0 <= i < |targets|
      ensures Element(m, v, i) == targets[i]
    {
      WordWritten(m, v.pos + 4 * i, targets[i] - (v.pos + 4 * i));
    }
  }

  /** An object behind the vector has the address of the vector exactly if it follows at once and the vector is
      empty. */
  lemma EmptyVectorAddress(m: seq<byte>, v: Vec, x: nat)
    requires InBuffer(m, v) && v.pos != 0 && End(m, v) <= x
    ensures x == v.pos <==> Length(m, v) == 0 && x == End(m, v)
  {
    Product(Length(m, v), v.slot.Width());
    if Length(m, v) > 0 { SlotInside(m, v, 0); }
  }

  // ---------- The offset swap ----------

  /** Arithmetic on 32-bit offsets wraps around. */
  function Cut(x: int): (r: nat)
    ensures r < TWO_TO_THE_32
  {
    x % TWO_TO_THE_32
  }

  /** `(TE)((a - b) * sizeof(vec[0]))`: the distance of two slots on 64-bit `size_t`, cut to 32 bits. */
  function WrappedDistance(a: nat, b: nat): (d: nat)
    ensures d < TWO_TO_THE_32
  {
    Cut((a - b) % TWO_TO_THE_64 * 4 % TWO_TO_THE_64)
  }

  /** `__flatbuffers_uoffset_swap` of slots `a` and `b`. */
  function OffsetsSwapped(m: seq<byte>, v: Vec, a: nat, b: nat): (m': seq<byte>)
    requires v.slot == Offset && v.At(a) + 4 <= |m| && v.At(b) + 4 <= |m|
    ensures |m'| == |m|
  {
    var d := WrappedDistance(a, b);
    var ta := Cut(ReadU32(m, v.At(b)) - d);
    var tb := Cut(ReadU32(m, v.At(a)) + d);
    WriteU32(WriteU32(m, v.At(a), ta), v.At(b), tb)
  }

  /** The wrapped distance is the distance modulo 2^32. */
  lemma WrappedDistanceIsDistance(a: nat, b: nat) returns (k: int)
    ensures WrappedDistance(a, b) == 4 * (a - b) + k * TWO_TO_THE_32
  {
    var r := (a - b) % TWO_TO_THE_64;
    var q := (a - b) / TWO_TO_THE_64;
    var e := r * 4 % TWO_TO_THE_64;
    var f := r * 4 / TWO_TO_THE_64;
    var g := e / TWO_TO_THE_32;
    assert WrappedDistance(a, b) == e - g * TWO_TO_THE_32;
    k := -(4 * q + f) * TWO_TO_THE_32 - g;
  }

  lemma WholeTurns(x: int, k: int)
    ensures Cut(x + k * TWO_TO_THE_32) == Cut(x)
  {
  }

  /** The distance of two slots in bytes, without wrapping. */
  function Distance(a: nat, b: nat): int {
    4 * (a - b)
  }

  lemma WrappedMoves(a: nat, b: nat, x: int, y: int)
    ensures Cut(x + WrappedDistance(a, b)) == Cut(x + Distance(a, b))
    ensures Cut(y - WrappedDistance(a, b)) == Cut(y - Distance(a, b))
  {
    hide WrappedDistance;
    var k := WrappedDistanceIsDistance(a, b);
    WholeTurns(x + 4 * (a - b), k);
    WholeTurns(y - 4 * (a - b), -k);
  }

  lemma OffsetAt(v: Vec, i: nat)
    requires v.slot == Offset
    ensures v.At(i) == v.pos + 4 * i
  {
  }

  /** No byte outside the slots `a` and `b` differs. */
  ghost predicate OnlySlots(m: seq<byte>, m': seq<byte>, v: Vec, a: nat, b: nat) {
    && |m'| == |m|
    && var w := v.slot.Width();
    && forall p :: 0 <= p < |m| && !(v.At(a) <= p < v.At(a) + w) && !(v.At(b) <= p < v.At(b) + w) ==> m'[p] == m[p]
  }

  /** Different slots do not overlap, and a slot is at distance 0 from itself. */
  lemma SlotPlaces(v: Vec, a: nat, b: nat)
    requires v.slot == Offset
    ensures if a == b then v.At(a) == v.At(b) && Distance(a, b) == 0
            else v.At(a) + 4 <= v.At(b) || v.At(b) + 4 <= v.At(a)
  {
    OffsetAt(v, a);
    OffsetAt(v, b);
  }

  /** The two words the swap writes. */
  lemma WordsAfterSwap(m: seq<byte>, v: Vec, a: nat, b: nat)
    requires v.slot == Offset && v.At(a) + 4 <= |m| && v.At(b) + 4 <= |m|
    ensures var m' := OffsetsSwapped(m, v, a, b);
      && ReadU32(m', v.At(a)) == Cut(ReadU32(m, v.At(b)) - Distance(a, b))
      && ReadU32(m', v.At(b)) == Cut(ReadU32(m, v.At(a)) + Distance(a, b))
  {
    hide WrappedDistance, ReadU32, WriteU32, Distance, Cut;
    SlotPlaces(v, a, b);
    var p, q := v.At(a), v.At(b);
    assert v.At(a) == v.At(b) ==> a == b;
    WrappedMoves(a, b, ReadU32(m, p), ReadU32(m, q));
    TwoWrites(m, p, q, Cut(ReadU32(m, q) - WrappedDistance(a, b)), Cut(ReadU32(m, p) + WrappedDistance(a, b)));
  }

  /** The words of both slots after the swap; no byte outside the two slots changes. */
  lemma SwappedWords(m: seq<byte>, v: Vec, a: nat, b: nat)
    requires v.slot == Offset && v.At(a) + 4 <= |m| && v.At(b) + 4 <= |m|
    ensures var m' := OffsetsSwapped(m, v, a, b);
      && ReadU32(m', v.At(a)) == Cut(ReadU32(m, v.At(b)) - Distance(a, b))
      && ReadU32(m', v.At(b)) == Cut(ReadU32(m, v.At(a)) + Distance(a, b))
      && OnlySlots(m, m', v, a, b)
  {
    WordsAfterSwap(m, v, a, b);
    hide ReadU32, WriteU32, OnlySlots;
    var ta := Cut(ReadU32(m, v.At(b)) - WrappedDistance(a, b));
    var tb := Cut(ReadU32(m, v.At(a)) + WrappedDistance(a, b));
    WordsOnlySlots(m, v, a, b, ta, tb);
    hide Cut, Distance, WrappedDistance;
  }

  /** Two words written to the same place or apart from each other. */
  lemma TwoWrites(m: seq<byte>, p: nat, q: nat, x: nat, y: nat)
    requires p + 4 <= |m| && q + 4 <= |m| && x < TWO_TO_THE_32 && y < TWO_TO_THE_32
    requires if p == q then x == y else p + 4 <= q || q + 4 <= p
    ensures var m' := WriteU32(WriteU32(m, p, x), q, y);
      ReadU32(m', p) == x && ReadU32(m', q) == y
  {
    hide ReadU32, WriteU32;
    var m1 := WriteU32(m, p, x);
    ReadOfWrite(m, p, x);
    ReadOfWrite(m1, q, y);
    if p != q { ReadElsewhere(m1, q, y, p); }
  }

  lemma WordsOnlySlots(m: seq<byte>, v: Vec, a: nat, b: nat, ta: nat, tb: nat)
    requires v.slot == Offset && v.At(a) + 4 <= |m| && v.At(b) + 4 <= |m| && ta < TWO_TO_THE_32 && tb < TWO_TO_THE_32
    ensures OnlySlots(m, WriteU32(WriteU32(m, v.At(a), ta), v.At(b), tb), v, a, b)
  {
    hide U32Bytes;
  }

  /** The swap computes both words without wrapping around iff it exchanges the targets. */
  lemma WrapsExactly(p: int, q: int, x: int, y: int)
    ensures (p + Cut(y - (p - q)) == q + y && q + Cut(x + (p - q)) == p + x)
        <==> (0 <= q + y - p < TWO_TO_THE_32 && 0 <= p + x - q < TWO_TO_THE_32)
  {
  }

  /** The swap exchanges the two absolute targets exactly when each target can be reached from the other slot,
      that is, when no stored offset wraps. */
  lemma SwapExchangesTargets(m: seq<byte>, v: Vec, a: nat, b: nat)
    requires InBuffer(m, v) && v.slot == Offset && a < Length(m, v) && b < Length(m, v)
    requires v.pos + 4 <= |m|
    ensures v.At(a) + 4 <= |m| && v.At(b) + 4 <= |m|
    ensures var m' := OffsetsSwapped(m, v, a, b);
      var ta, tb := Element(m, v, a), Element(m, v, b);
      (v.At(a) + ReadU32(m', v.At(a)) == tb && v.At(b) + ReadU32(m', v.At(b)) == ta)
      <==>
      (0 <= tb - v.At(a) < TWO_TO_THE_32 && 0 <= ta - v.At(b) < TWO_TO_THE_32)
  {
    hide OffsetsSwapped, ReadU32;
    OffsetAt(v, a);
    OffsetAt(v, b);
    SlotInside(m, v, a);
    SlotInside(m, v, b);
    SwappedWords(m, v, a, b);
    WrapsExactly(v.At(a), v.At(b), ReadU32(m, v.At(a)), ReadU32(m, v.At(b)));
  }

  /** Swapping twice restores every byte, whether or not an offset wrapped. */
  lemma SwapIsInvolution(m: seq<byte>, v: Vec, a: nat, b: nat)
    requires v.slot == Offset && v.At(a) + 4 <= |m| && v.At(b) + 4 <= |m|
    ensures OffsetsSwapped(OffsetsSwapped(m, v, a, b), v, a, b) == m
  {
    hide OffsetsSwapped, OnlySlots, ReadU32;
    var m' := OffsetsSwapped(m, v, a, b);
    var m'' := OffsetsSwapped(m', v, a, b);
    SwappedWords(m, v, a, b);
    SwappedWords(m', v, a, b);
    WordsRestored(m, v, a, b);
    SameWordSameBytes(m, m'', v.At(a));
    SameWordSameBytes(m, m'', v.At(b));
    SameSlotsSameBytes(m, m', m'', v, a, b);
  }

  lemma WordsRestored(m: seq<byte>, v: Vec, a: nat, b: nat)
    requires v.slot == Offset && v.At(a) + 4 <= |m| && v.At(b) + 4 <= |m|
    ensures var m'' := OffsetsSwapped(OffsetsSwapped(m, v, a, b), v, a, b);
      ReadU32(m'', v.At(a)) == ReadU32(m, v.At(a)) && ReadU32(m'', v.At(b)) == ReadU32(m, v.At(b))
  {
    hide OffsetsSwapped, OnlySlots, ReadU32, Distance, Cut;
    SwappedWords(m, v, a, b);
    SwappedWords(OffsetsSwapped(m, v, a, b), v, a, b);
    UnwrapsBack(ReadU32(m, v.At(a)), ReadU32(m, v.At(b)), Distance(a, b));
  }

  lemma SameSlotsSameBytes(m: seq<byte>, m': seq<byte>, m'': seq<byte>, v: Vec, a: nat, b: nat)
    requires OnlySlots(m, m', v, a, b) && OnlySlots(m', m'', v, a, b)
    requires v.At(a) + v.slot.Width() <= |m| && v.At(b) + v.slot.Width() <= |m|
    requires var w := v.slot.Width();
      m[v.At(a)..v.At(a) + w] == m''[v.At(a)..v.At(a) + w] && m[v.At(b)..v.At(b) + w] == m''[v.At(b)..v.At(b) + w]
    ensures m'' == m
  {
    var pa, pb, w := v.At(a), v.At(b), v.slot.Width();
    forall p | 0 <= p < |m|
      ensures m''[p] == m[p]
    {
      if pa <= p < pa + w {
        assert m''[pa..pa + w][p - pa] == m[pa..pa + w][p - pa];
      } else if pb <= p < pb + w {
        assert m''[pb..pb + w][p - pb] == m[pb..pb + w][p - pb];
      } else {
        assert m'[p] == m[p];
      }
    }
  }

  lemma UnwrapsBack(x: nat, y: nat, d: int)
    requires x < TWO_TO_THE_32 && y < TWO_TO_THE_32
    ensures Cut(Cut(x + d) - d) == x
    ensures Cut(Cut(y - d) + d) == y
  {
  }

  lemma SameWordSameBytes(m: seq<byte>, m': seq<byte>, p: nat)
    requires p + 4 <= |m| == |m'| && ReadU32(m, p) == ReadU32(m', p)
    ensures m[p..p + 4] == m'[p..p + 4]
  {
    WriteOfRead(m, p);
    WriteOfRead(m', p);
    var b := U32Bytes(ReadU32(m, p));
    assert m[p..p + 4] == WriteU32(m, p, ReadU32(m, p))[p..p + 4] == b;
    assert m'[p..p + 4] == WriteU32(m', p, ReadU32(m', p))[p..p + 4] == b;
  }

  // ---------- The value swap, and both swaps on elements ----------

  /** `__flatbuffers_value_swap`: the bytes of two slots change places. */
  function ValuesSwapped(m: seq<byte>, v: Vec, a: nat, b: nat): (m': seq<byte>)
    requires v.At(a) + v.slot.Width() <= |m| && v.At(b) + v.slot.Width() <= |m|
    ensures |m'| == |m|
  {
    var w := v.slot.Width();
    Store(Store(m, v.At(b), m[v.At(a)..v.At(a) + w]), v.At(a), m[v.At(b)..v.At(b) + w])
  }

  function Swapped(m: seq<byte>, v: Vec, a: nat, b: nat): (m': seq<byte>)
    requires v.At(a) + v.slot.Width() <= |m| && v.At(b) + v.slot.Width() <= |m|
    ensures |m'| == |m|
  {
    if v.slot.Offset? then OffsetsSwapped(m, v, a, b) else ValuesSwapped(m, v, a, b)
  }

  /** Every object an offset vector refers to lies past the vector and within reach of all its slots. */
  ghost predicate TargetsPastVector(m: seq<byte>, v: Vec) {
    InBuffer(m, v) &&
    (v.slot.Offset? ==> forall x :: x in Elements(m, v) ==> End(m, v) <= x < v.pos + TWO_TO_THE_32)
  }

  lemma SlotsAreDistinct(m: seq<byte>, v: Vec, i: nat, j: nat)
    requires InBuffer(m, v) && i < Length(m, v) && j < Length(m, v) && i != j
    ensures v.At(i) + v.slot.Width() <= v.At(j) || v.At(j) + v.slot.Width() <= v.At(i)
  {
    if i < j { SlotsApart(v, i, j); } else { SlotsApart(v, j, i); }
  }

  /** Changing bytes of the slots only changes neither the length nor the place of the vector. */
  lemma ShapeKept(m: seq<byte>, m': seq<byte>, v: Vec)
    requires InBuffer(m, v) && SameOutside(m, m', v.pos, End(m, v))
    ensures InBuffer(m', v) && Length(m', v) == Length(m, v) && End(m', v) == End(m, v)
  {
  }

  lemma SwappedBytes(m: seq<byte>, v: Vec, a: nat, b: nat)
    requires InBuffer(m, v) && a < Length(m, v) && b < Length(m, v)
    ensures v.At(a) + v.slot.Width() <= |m| && v.At(b) + v.slot.Width() <= |m|
    ensures SameOutside(m, Swapped(m, v, a, b), v.pos, End(m, v)) && OnlySlots(m, Swapped(m, v, a, b), v, a, b)
  {
    hide OffsetsSwapped, ValuesSwapped, OnlySlots, ReadU32;
    SlotInside(m, v, a);
    SlotInside(m, v, b);
    if v.slot.Offset? {
      SwappedWords(m, v, a, b);
    } else {
      ValuesOnlySlots(m, v, a, b);
    }
    SlotsAreOutside(m, Swapped(m, v, a, b), v, a, b);
  }

  lemma ValuesOnlySlots(m: seq<byte>, v: Vec, a: nat, b: nat)
    requires v.At(a) + v.slot.Width() <= |m| && v.At(b) + v.slot.Width() <= |m|
    ensures OnlySlots(m, ValuesSwapped(m, v, a, b), v, a, b)
  {
  }

  lemma SlotsAreOutside(m: seq<byte>, m': seq<byte>, v: Vec, a: nat, b: nat)
    requires InBuffer(m, v) && a < Length(m, v) && b < Length(m, v) && OnlySlots(m, m', v, a, b)
    ensures SameOutside(m, m', v.pos, End(m, v))
  {
    SlotInside(m, v, a);
    SlotInside(m, v, b);
  }

  /** Either swap exchanges the two elements, keeps the others, and writes to no byte outside the slots. */
  lemma SwapExchangesElements(m: seq<byte>, v: Vec, a: nat, b: nat)
    requires TargetsPastVector(m, v) && a < Length(m, v) && b < Length(m, v)
    ensures v.At(a) + v.slot.Width() <= |m| && v.At(b) + v.slot.Width() <= |m|
    ensures SameOutside(m, Swapped(m, v, a, b), v.pos, End(m, v))
    ensures InBuffer(Swapped(m, v, a, b), v)
    ensures Elements(Swapped(m, v, a, b), v) == Exchanged(Elements(m, v), a, b)
  {
    hide Swapped, Element, SameOutside;
    SwappedBytes(m, v, a, b);
    var m' := Swapped(m, v, a, b);
    ShapeKept(m, m', v);
    forall i | 0 <= i < Length(m, v)
      ensures Elements(m', v)[i] == Exchanged(Elements(m, v), a, b)[i]
    {
      if i != a && i != b {
        OtherElementKept(m, v, a, b, i);
      } else {
        TheseElementsSwapped(m, v, a, b);
      }
    }
  }

  lemma TheseElementsSwapped(m: seq<byte>, v: Vec, a: nat, b: nat)
    requires TargetsPastVector(m, v) && a < Length(m, v) && b < Length(m, v)
    ensures v.At(a) + v.slot.Width() <= |m| && v.At(b) + v.slot.Width() <= |m|
    ensures InBuffer(Swapped(m, v, a, b), v) && Length(Swapped(m, v, a, b), v) == Length(m, v)
    ensures Element(Swapped(m, v, a, b), v, a) == Element(m, v, b)
    ensures Element(Swapped(m, v, a, b), v, b) == Element(m, v, a)
  {
    hide OffsetsSwapped, ValuesSwapped, SameOutside, ReadU32;
    SwappedBytes(m, v, a, b);
    ShapeKept(m, Swapped(m, v, a, b), v);
    if v.slot.Offset? {
      SlotInside(m, v, a);
      SlotInside(m, v, b);
      assert Elements(m, v)[a] in Elements(m, v) && Elements(m, v)[b] in Elements(m, v);
      SwapExchangesTargets(m, v, a, b);
    } else {
      SwappedValues(m, v, a, b);
    }
  }

  lemma SwappedValues(m: seq<byte>, v: Vec, a: nat, b: nat)
    requires InBuffer(m, v) && a < Length(m, v) && b < Length(m, v) && v.slot.Value?
    ensures v.At(a) + v.slot.Width() <= |m| && v.At(b) + v.slot.Width() <= |m|
    ensures var m', w := ValuesSwapped(m, v, a, b), v.slot.Width();
      m'[v.At(a)..v.At(a) + w] == m[v.At(b)..v.At(b) + w] && m'[v.At(b)..v.At(b) + w] == m[v.At(a)..v.At(a) + w]
  {
    SlotInside(m, v, a);
    SlotInside(m, v, b);
    if a != b { SlotsAreDistinct(m, v, a, b); }
  }

  lemma OtherElementKept(m: seq<byte>, v: Vec, a: nat, b: nat, i: nat)
    requires InBuffer(m, v) && a < Length(m, v) && b < Length(m, v) && i < Length(m, v) && i != a && i != b
    ensures v.At(a) + v.slot.Width() <= |m| && v.At(b) + v.slot.Width() <= |m|
    ensures InBuffer(Swapped(m, v, a, b), v) && Length(Swapped(m, v, a, b), v) == Length(m, v)
    ensures Element(Swapped(m, v, a, b), v, i) == Element(m, v, i)
  {
    hide Swapped;
    SwappedBytes(m, v, a, b);
    var m', w := Swapped(m, v, a, b), v.slot.Width();
    ShapeKept(m, m', v);
    SlotInside(m, v, i);
    SlotsAreDistinct(m, v, a, i);
    SlotsAreDistinct(m, v, b, i);
    assert m'[v.At(i)..v.At(i) + w] == m[v.At(i)..v.At(i) + w];
    if v.slot.Offset? {
      var p := v.At(i);
      assert m'[p] == m[p] && m'[p + 1] == m[p + 1] && m'[p + 2] == m[p + 2] && m'[p + 3] == m[p + 3];
    }
  }

  method SwapOffsets(mem: array<byte>, v: Vec, a: nat, b: nat)
    requires v.slot == Offset && v.At(a) + 4 <= mem.Length && v.At(b) + 4 <= mem.Length
    modifies mem
    ensures mem[..] == OffsetsSwapped(old(mem[..]), v, a, b)
  {
    hide ReadU32, U32Bytes, Store, WrappedDistance, Cut;
    var d := WrappedDistance(a, b);
    var ta := Cut(ReadU32(mem[..], v.At(b)) - d);
    var tb := Cut(ReadU32(mem[..], v.At(a)) + d);
    StoreBytes(mem, v.At(a), U32Bytes(ta));
    StoreBytes(mem, v.At(b), U32Bytes(tb));
  }

  method SwapValues(mem: array<byte>, v: Vec, a: nat, b: nat)
    requires v.At(a) + v.slot.Width() <= mem.Length && v.At(b) + v.slot.Width() <= mem.Length
    modifies mem
    ensures mem[..] == ValuesSwapped(old(mem[..]), v, a, b)
  {
    hide Store;
    var m, w := mem[..], v.slot.Width();
    var x := m[v.At(b)..v.At(b) + w];
    StoreBytes(mem, v.At(b), m[v.At(a)..v.At(a) + w]);
    StoreBytes(mem, v.At(a), x);
  }

  method Swap(mem: array<byte>, v: Vec, a: nat, b: nat)
    requires v.At(a) + v.slot.Width() <= mem.Length && v.At(b) + v.slot.Width() <= mem.Length
    modifies mem
    ensures mem[..] == Swapped(old(mem[..]), v, a, b)
  {
    hide OffsetsSwapped, ValuesSwapped;
    if v.slot.Offset? {
      SwapOffsets(mem, v, a, b);
    } else {
      SwapValues(mem, v, a, b);
    }
  }

  // ---------- Heap sort ----------

  /** How the key of an element is read from memory. */
  type Key<!K> = (seq<byte>, nat) -> K

  /** The order of elements by the key read at them. */
  function ByKey<K>(m: seq<byte>, key: Key<K>, diff: Comparison<K>): Comparison<nat> {
    (x: nat, y: nat) => diff(key(m, x), key(m, y))
  }

  /** The keys of the vector's objects are not stored in its slots: no change to the slots changes them. */
  ghost predicate KeysOutsideSlots<K(!new)>(m: seq<byte>, v: Vec, key: Key<K>)
    requires InBuffer(m, v)
  {
    forall m', x :: SameOutside(m, m', v.pos, End(m, v)) && x in Elements(m, v) ==> key(m', x) == key(m, x)
  }

  lemma ByKeyIsPreorder<K(!new)>(m: seq<byte>, key: Key<K>, diff: Comparison<K>)
    requires TotalPreorder(diff)
    ensures TotalPreorder(ByKey(m, key, diff))
  {
    var c := ByKey(m, key, diff);
    forall x, y
      ensures Le(c, x, y) || Le(c, y, x)
    {
      assert Le(diff, key(m, x), key(m, y)) || Le(diff, key(m, y), key(m, x));
    }
    forall x, y, z | Le(c, x, y) && Le(c, y, z)
      ensures Le(c, x, z)
    {
      assert Le(diff, key(m, x), key(m, y)) && Le(diff, key(m, y), key(m, z));
    }
  }

  /** `m` is `m0` with the elements of the vector permuted. */
  ghost predicate Permuted(m0: seq<byte>, m: seq<byte>, v: Vec) {
    && InBuffer(m0, v) && TargetsPastVector(m0, v)
    && InBuffer(m, v) && TargetsPastVector(m, v)
    && SameOutside(m0, m, v.pos, End(m0, v))
    && multiset(Elements(m, v)) == multiset(Elements(m0, v))
  }

  lemma PermutedInitially(m: seq<byte>, v: Vec)
    requires TargetsPastVector(m, v)
    ensures Permuted(m, m, v)
  {
  }

  lemma PermutedShape(m0: seq<byte>, m: seq<byte>, v: Vec)
    requires Permuted(m0, m, v)
    ensures Length(m, v) == Length(m0, v) && End(m, v) == End(m0, v)
    ensures forall x :: x in Elements(m, v) ==> x in Elements(m0, v)
  {
    ShapeKept(m0, m, v);
    forall x | x in Elements(m, v)
      ensures x in Elements(m0, v)
    {
      assert x in multiset(Elements(m, v));
    }
  }

  /** A swap keeps a permutation a permutation. */
  lemma SwapPermutes(m0: seq<byte>, m: seq<byte>, v: Vec, a: nat, b: nat)
    requires Permuted(m0, m, v) && a < Length(m, v) && b < Length(m, v)
    ensures v.At(a) + v.slot.Width() <= |m| && v.At(b) + v.slot.Width() <= |m|
    ensures Permuted(m0, Swapped(m, v, a, b), v)
    ensures Elements(Swapped(m, v, a, b), v) == Exchanged(Elements(m, v), a, b)
  {
    hide Swapped, Element, SameOutside, Exchanged;
    PermutedShape(m0, m, v);
    SwapExchangesElements(m, v, a, b);
    var m', e, n := Swapped(m, v, a, b), Elements(m, v), Length(m, v);
    ShapeKept(m, m', v);
    SameOutsideTrans(m0, m, m', v.pos, End(m0, v));
    ExchangedPermutes(e, a, b, n);
    assert Exchanged(e, a, b)[..n] == Exchanged(e, a, b) && e[..n] == e;
    forall x | x in Elements(m', v)
      ensures x in e
    {
      assert x in multiset(Elements(m', v));
    }
  }

  /** Comparing the keys of two slots in the current memory compares the elements in the initial one. */
  lemma SameComparison<K(!new)>(m0: seq<byte>, m: seq<byte>, v: Vec, key: Key<K>, diff: Comparison<K>, i: nat, j: nat)
    requires Permuted(m0, m, v) && KeysOutsideSlots(m0, v, key) && i < Length(m, v) && j < Length(m, v)
    ensures diff(key(m, Element(m, v, i)), key(m, Element(m, v, j)))
         == ByKey(m0, key, diff)(Elements(m, v)[i], Elements(m, v)[j])
  {
    PermutedShape(m0, m, v);
    assert Elements(m, v)[i] in Elements(m0, v) && Elements(m, v)[j] in Elements(m0, v);
  }

  /** One exchange of the sift-down, on the bytes. */
  lemma SiftSwap(m0: seq<byte>, m: seq<byte>, v: Vec, c: Comparison<nat>, start: nat, end: nat, root: nat)
    requires Permuted(m0, m, v) && TotalPreorder(c) && 2 * root <= end < Length(m, v)
    requires HeapBut(c, Elements(m, v), start, end, root)
    requires c(Elements(m, v)[root], Elements(m, v)[LargerChild(c, Elements(m, v), root, end)]) < 0
    ensures var child := LargerChild(c, Elements(m, v), root, end);
      && root < child
      && v.At(root) + v.slot.Width() <= |m| && v.At(child) + v.slot.Width() <= |m|
      && var m' := Swapped(m, v, root, child);
      && Permuted(m0, m', v) && Length(m', v) == Length(m, v)
      && HeapBut(c, Elements(m', v), start, end, child)
      && multiset(Elements(m', v)[..end + 1]) == multiset(Elements(m, v)[..end + 1])
      && Elements(m', v)[end + 1..] == Elements(m, v)[end + 1..]
  {
    hide Swapped, Element, Elements, HeapBut, TotalPreorder, SameOutside, TargetsPastVector, Exchanged, LargerChild;
    var e := Elements(m, v);
    var child := LargerChild(c, e, root, end);
    SiftStep(c, e, start, end, root);
    SwapPermutes(m0, m, v, root, child);
    ExchangedPermutes(e, root, child, end + 1);
  }

  method SiftDown<K(!new)>(mem: array<byte>, v: Vec, start: nat, end: nat, key: Key<K>, diff: Comparison<K>,
                           ghost m0: seq<byte>)
    requires Permuted(m0, mem[..], v) && KeysOutsideSlots(m0, v, key) && TotalPreorder(ByKey(m0, key, diff))
    requires start <= end < Length(mem[..], v)
    requires Heap(ByKey(m0, key, diff), Elements(mem[..], v), start + 1, end)
    modifies mem
    ensures Permuted(m0, mem[..], v)
    ensures Heap(ByKey(m0, key, diff), Elements(mem[..], v), start, end)
    ensures Length(mem[..], v) == old(Length(mem[..], v))
    ensures multiset(Elements(mem[..], v)[..end + 1]) == multiset(old(Elements(mem[..], v)[..end + 1]))
    ensures Elements(mem[..], v)[end + 1..] == old(Elements(mem[..], v)[end + 1..])
  {
    hide Swapped, Element, Elements, Heap, HeapBut, TotalPreorder, KeysOutsideSlots, SameOutside;
    hide TargetsPastVector, ByKey;
    ghost var c := ByKey(m0, key, diff);
    ghost var e0 := Elements(mem[..], v);
    HeapIsHeapBut(c, e0, start, end);
    var root := start;
    while 2 * root <= end
      invariant Permuted(m0, mem[..], v) && |Elements(mem[..], v)| == |e0|
      invariant HeapBut(c, Elements(mem[..], v), start, end, root)
      invariant multiset(Elements(mem[..], v)[..end + 1]) == multiset(e0[..end + 1])
      invariant Elements(mem[..], v)[end + 1..] == e0[end + 1..]
      decreases end - root
    {
      var m := mem[..];
      ghost var e := Elements(m, v);
      var child := 2 * root;
      if child < end {
        SameComparison(m0, m, v, key, diff, child, child + 1);
        if diff(key(m, Element(m, v, child)), key(m, Element(m, v, child + 1))) < 0 {
          child := child + 1;
        }
      }
      SameComparison(m0, m, v, key, diff, root, child);
      assert child == LargerChild(c, e, root, end);
      if diff(key(m, Element(m, v, root)), key(m, Element(m, v, child))) < 0 {
        SiftSwap(m0, m, v, c, start, end, root);
        Swap(mem, v, root, child);
        root := child;
      } else {
        SiftDone(c, e, start, end, root);
        return;
      }
    }
    SiftDone(c, Elements(mem[..], v), start, end, root);
  }

  /** Keys in ascending order along the vector. */
  ghost predicate SortedByKey<K>(m: seq<byte>, v: Vec, key: Key<K>, diff: Comparison<K>)
    requires InBuffer(m, v)
  {
    forall i, j :: 0 <= i < j < Length(m, v) ==> Le(diff, key(m, Element(m, v, i)), key(m, Element(m, v, j)))
  }

  lemma SortedInitiallyIsSorted<K(!new)>(m0: seq<byte>, m: seq<byte>, v: Vec, key: Key<K>, diff: Comparison<K>)
    requires Permuted(m0, m, v) && KeysOutsideSlots(m0, v, key)
    requires SortedFrom(ByKey(m0, key, diff), Elements(m, v), 0)
    ensures SortedByKey(m, v, key, diff)
  {
    forall i, j | 0 <= i < j < Length(m, v)
      ensures Le(diff, key(m, Element(m, v, i)), key(m, Element(m, v, j)))
    {
      SameComparison(m0, m, v, key, diff, j, i);
      assert Le(ByKey(m0, key, diff), Elements(m, v)[i], Elements(m, v)[j]);
    }
  }

  /** `__flatbuffers_heap_sort`. Lengths are 32-bit, so no index computation wraps in 64 bits. */
  method HeapSort<K(!new)>(mem: array<byte>, v: Vec, key: Key<K>, diff: Comparison<K>)
    requires InBuffer(mem[..], v) && TargetsPastVector(mem[..], v) && KeysOutsideSlots(mem[..], v, key)
    requires TotalPreorder(diff)
    modifies mem
    ensures Permuted(old(mem[..]), mem[..], v)
    ensures SortedByKey(mem[..], v, key, diff)
  {
    hide Swapped, Element, Elements, Heap, TotalPreorder, KeysOutsideSlots, SameOutside, TargetsPastVector;
    hide ByKey, Exchanged, SplitSorted, SortedFrom;
    ghost var m0 := mem[..];
    ghost var c := ByKey(m0, key, diff);
    var size := Length(mem[..], v);
    PermutedInitially(m0, v);
    if size == 0 { return; }
    ByKeyIsPreorder(m0, key, diff);
    var end, start := size - 1, size / 2;
    LeavesAreHeap(c, Elements(mem[..], v), start + 1, end);
    SiftDown(mem, v, start, end, key, diff, m0);
    while 0 < start
      invariant start <= end
      invariant Permuted(m0, mem[..], v) && Length(mem[..], v) == size
      invariant Heap(c, Elements(mem[..], v), start, end)
    {
      start := start - 1;
      SiftDown(mem, v, start, end, key, diff, m0);
    }
    NothingSplit(c, Elements(mem[..], v));
    while 0 < end
      invariant 0 <= end < size
      invariant Permuted(m0, mem[..], v) && Length(mem[..], v) == size
      invariant Heap(c, Elements(mem[..], v), 0, end)
      invariant SplitSorted(c, Elements(mem[..], v), end + 1)
    {
      ghost var e := Elements(mem[..], v);
      ExtractTop(c, e, end);
      SwapPermutes(m0, mem[..], v, 0, end);
      Swap(mem, v, 0, end);
      end := end - 1;
      SiftDown(mem, v, 0, end, key, diff, m0);
      SplitSortedKept(c, Exchanged(e, 0, end + 1), Elements(mem[..], v), end + 1);
    }
    SplitAtOne(c, Elements(mem[..], v));
    SortedInitiallyIsSorted(m0, mem[..], v, key, diff);
  }
}
