/** Tables: field lookup through the vtable, the field getters, and sorting a vector of tables by a field. */
module Tables {
  import opened Memory
  import opened Vectors
  import opened Strings
  import opened Search

  function ReadU16(m: seq<byte>, p: nat): (v: nat)
    requires p + 2 <= |m|
    ensures v < 0x1_0000
  {
    m[p] as int + 0x100 * (m[p + 1] as int)
  }

  /** The signed offset at the head of a table. */
  function ReadI32(m: seq<byte>, p: nat): int
    requires p + 4 <= |m|
  {
    var v := ReadU32(m, p);
    if v < 0x8000_0000 then v else v - TWO_TO_THE_32
  }

  /** The vtable of the table at `t` lies that many bytes before it. */
  function VtableAt(m: seq<byte>, t: nat): int
    requires t + 4 <= |m|
  {
    t - ReadI32(m, t)
  }

  /** The table's head and its whole vtable, whose first word is its size in bytes, are in the buffer. */
  predicate HasVtable(m: seq<byte>, t: nat) {
    && t + 4 <= |m|
    && 0 <= VtableAt(m, t) && VtableAt(m, t) + 4 <= |m|
    && VtableAt(m, t) + ReadU16(m, VtableAt(m, t)) <= |m|
  }

  function VtableSize(m: seq<byte>, t: nat): nat
    requires HasVtable(m, t)
  {
    ReadU16(m, VtableAt(m, t))
  }

  /** The vtable entry of field `id`, whether or not the vtable is long enough to be asked for it. */
  function Entry(m: seq<byte>, t: nat, id: nat): nat
    requires HasVtable(m, t) && VtableSize(m, t) >= 2 * (id + 3)
  {
    ReadU16(m, VtableAt(m, t) + 2 * (id + 2))
  }

  /** `__flatbuffers_read_vt`: 0 for a field the table does not store. */
  function FieldOffset(m: seq<byte>, t: nat, id: nat): nat
    requires HasVtable(m, t)
  {
    if VtableSize(m, t) >= 2 * (id + 3) then Entry(m, t, id) else 0
  }

  /** Shortening a vtable (only its size word changes) keeps what every field lookup returns
      exactly when all entries it drops are zero. */
  lemma TrimKeepsFields(m: seq<byte>, m': seq<byte>, t: nat)
    requires HasVtable(m, t) && |m'| == |m| && ReadU32(m', t) == ReadU32(m, t)
    requires HasVtable(m', t) && VtableSize(m', t) <= VtableSize(m, t)
    requires forall p :: VtableAt(m, t) + 2 <= p < VtableAt(m, t) + VtableSize(m, t) ==> m'[p] == m[p]
    ensures (forall id: nat :: FieldOffset(m', t, id) == FieldOffset(m, t, id))
       <==> (forall id: nat :: VtableSize(m', t) < 2 * (id + 3) <= VtableSize(m, t) ==> Entry(m, t, id) == 0)
  {
    forall id: nat | VtableSize(m', t) >= 2 * (id + 3)
      ensures FieldOffset(m', t, id) == FieldOffset(m, t, id)
    {
      var p := VtableAt(m, t) + 2 * (id + 2);
      assert m'[p] == m[p] && m'[p + 1] == m[p + 1];
    }
    forall id: nat | VtableSize(m', t) < 2 * (id + 3) <= VtableSize(m, t)
      ensures FieldOffset(m', t, id) == FieldOffset(m, t, id) <==> Entry(m, t, id) == 0
    {
    }
  }

  // ---------- Field keys ----------

  /** The field is absent, or stored inside the buffer. */
  predicate ScalarInBuffer(m: seq<byte>, t: nat, id: nat, width: nat) {
    HasVtable(m, t) && (FieldOffset(m, t, id) != 0 ==> t + FieldOffset(m, t, id) + width <= |m|)
  }

  /** The field is absent, or its offset and the string it leads to are inside the buffer. */
  predicate FieldStringInBuffer(m: seq<byte>, t: nat, id: nat) {
    && ScalarInBuffer(m, t, id, 4)
    && (FieldOffset(m, t, id) != 0 ==>
          StringInBuffer(m, t + FieldOffset(m, t, id) + ReadU32(m, t + FieldOffset(m, t, id))))
  }

  /** A scalar getter: the stored little-endian integer, or the default of an absent field.
      Only called for fields that are absent or inside the buffer. */
  function ScalarField(id: nat, width: nat, signed: bool, default: int): Key<int> {
    (m: seq<byte>, t: nat) =>
      if !ScalarInBuffer(m, t, id, width) then 0
      else if FieldOffset(m, t, id) == 0 then default
      else IntegerAt(width, signed)(m, LittleEndian(m[t + FieldOffset(m, t, id)..t + FieldOffset(m, t, id) + width]))
  }

  /** A string getter: the string its self-relative offset leads to. The null string of an absent field compares as
      the empty string, since its length reads as 0 and no byte of it is compared.
      Only called for fields that are absent or inside the buffer. */
  function StringField(id: nat): Key<bytes> {
    (m: seq<byte>, t: nat) =>
      if !FieldStringInBuffer(m, t, id) || FieldOffset(m, t, id) == 0 then []
      else StringAt(m, t + FieldOffset(m, t, id) + ReadU32(m, t + FieldOffset(m, t, id)))
  }

  // ---------- A table byte by byte ----------

  /** Two bytes at `p`, the low one first. */
  predicate HalfWordAt(m: seq<byte>, p: int, v: nat) {
    0 <= p && p + 2 <= |m| && v < 0x1_0000 && m[p] == v % 0x100 && m[p + 1] == v / 0x100
  }

  /** The table at `t` starts with the signed distance to its vtable at `vt`, which holds its own size in bytes, the
      size of the table, and the place of each field in the table. */
  ghost predicate TableWritten(m: seq<byte>, t: nat, vt: nat, places: seq<nat>) {
    && t + 4 <= |m| && vt + 4 + 2 * |places| <= |m|
    && -0x8000_0000 <= t - vt < 0x8000_0000 && m[t..t + 4] == U32Bytes((t - vt) % TWO_TO_THE_32)
    && HalfWordAt(m, vt, 4 + 2 * |places|)
    && forall id :: 0 <= id < |places| ==> HalfWordAt(m, vt + 4 + 2 * id, places[id])
  }

  function PlaceOfField(places: seq<nat>, id: nat): nat {
    if id < |places| then places[id] else 0
  }

  lemma HalfWordRead(m: seq<byte>, p: nat, v: nat)
    requires HalfWordAt(m, p, v)
    ensures ReadU16(m, p) == v
  {
  }

  lemma VtableOfWritten(m: seq<byte>, t: nat, vt: nat, places: seq<nat>)
    requires TableWritten(m, t, vt, places)
    ensures HasVtable(m, t) && VtableAt(m, t) == vt && VtableSize(m, t) == 4 + 2 * |places|
  {
    WordWritten(m, t, (t - vt) % TWO_TO_THE_32);
    HalfWordRead(m, vt, 4 + 2 * |places|);
    hide ReadU32, U32Bytes, ReadU16, HalfWordAt;
    assert ReadI32(m, t) == t - vt;
  }

  /** A field is found at its place in the table, or not at all if the vtable has no entry, or a 0, for it. */
  lemma FieldsOfWritten(m: seq<byte>, t: nat, vt: nat, places: seq<nat>, id: nat)
    requires TableWritten(m, t, vt, places)
    ensures HasVtable(m, t) && FieldOffset(m, t, id) == PlaceOfField(places, id)
  {
    VtableOfWritten(m, t, vt, places);
    if id < |places| {
      HalfWordRead(m, vt + 4 + 2 * id, places[id]);
    }
    hide ReadU16, ReadU32, TableWritten, VtableAt, VtableSize, HasVtable;
  }

  lemma ScalarFieldAt(m: seq<byte>, t: nat, p: nat, id: nat, width: nat, signed: bool, default: int)
    requires HasVtable(m, t) && FieldOffset(m, t, id) == p
    requires p != 0 ==> t + p + width <= |m|
    ensures ScalarField(id, width, signed, default)(m, t)
         == if p == 0 then default else IntegerAt(width, signed)(m, LittleEndian(m[t + p..t + p + width]))
  {
    hide HasVtable, FieldOffset, LittleEndian, IntegerAt;
  }

  /** A scalar getter returns the integer of the bytes at the place of its field, or the default. */
  lemma ScalarOfWritten(m: seq<byte>, t: nat, vt: nat, places: seq<nat>,
                        id: nat, width: nat, signed: bool, default: int)
    requires TableWritten(m, t, vt, places) && width > 0
    ensures var p := PlaceOfField(places, id);
      if p == 0 then ScalarField(id, width, signed, default)(m, t) == default
      else t + p + width <= |m| ==>
        var b := m[t + p..t + p + width];
        ScalarField(id, width, signed, default)(m, t) == if signed then TwosComplement(b) else LittleEndian(b)
  {
    hide HasVtable, FieldOffset, LittleEndian, TwosComplement, TableWritten, PlaceOfField, ScalarField, IntegerAt;
    FieldsOfWritten(m, t, vt, places, id);
    var p := PlaceOfField(places, id);
    if p == 0 {
      ScalarFieldAt(m, t, 0, id, width, signed, default);
    } else if t + p + width <= |m| {
      ScalarFieldAt(m, t, p, id, width, signed, default);
      IntegerOfBytes(m, m[t + p..t + p + width], signed);
    }
  }

  /** The offset at `p` leads to the string `s`, stored at `x`. */
  ghost predicate StringWrittenAt(m: seq<byte>, p: nat, x: nat, s: bytes) {
    && p + 4 <= |m| && 0 <= x - p < TWO_TO_THE_32 && m[p..p + 4] == U32Bytes(x - p)
    && |s| < TWO_TO_THE_32 && x + 4 + |s| <= |m|
    && m[x..x + 4] == U32Bytes(|s|) && m[x + 4..x + 4 + |s|] == s
  }

  lemma StringReached(m: seq<byte>, p: nat, x: nat, s: bytes)
    requires StringWrittenAt(m, p, x, s)
    ensures p + 4 <= |m| && p + ReadU32(m, p) == x && StringInBuffer(m, x) && StringAt(m, x) == s
  {
    hide U32Bytes, ReadU32, StringAt, StringInBuffer;
    WordWritten(m, p, x - p);
    StringWritten(m, x, s);
  }

  lemma StringFieldAt(m: seq<byte>, t: nat, id: nat, p: nat, x: nat)
    requires HasVtable(m, t) && FieldOffset(m, t, id) == p
    requires p != 0 ==> t + p + 4 <= |m| && t + p + ReadU32(m, t + p) == x && StringInBuffer(m, x)
    ensures StringField(id)(m, t) == if p == 0 then [] else StringAt(m, x)
  {
    hide HasVtable, FieldOffset, ReadU32, StringAt, StringInBuffer;
  }

  /** A string getter returns the string that the offset at the place of its field leads to, or none. */
  lemma StringOfWritten(m: seq<byte>, t: nat, vt: nat, places: seq<nat>, id: nat, x: nat, s: bytes)
    requires TableWritten(m, t, vt, places)
    ensures PlaceOfField(places, id) == 0 ==> StringField(id)(m, t) == []
    ensures PlaceOfField(places, id) != 0 && StringWrittenAt(m, t + PlaceOfField(places, id), x, s) ==>
      StringField(id)(m, t) == s
  {
    hide HasVtable, FieldOffset, ReadU32, StringAt, StringInBuffer, TableWritten, StringWrittenAt, PlaceOfField;
    hide StringField;
    FieldsOfWritten(m, t, vt, places, id);
    var p := PlaceOfField(places, id);
    if p == 0 {
      StringFieldAt(m, t, id, 0, 0);
    } else if StringWrittenAt(m, t + p, x, s) {
      StringReached(m, t + p, x, s);
      StringFieldAt(m, t, id, p, x);
    }
  }

  /** A table past the vector whose vtable does not overlap the slots. */
  ghost predicate TableOutside(m: seq<byte>, t: nat, lo: nat, hi: nat) {
    && HasVtable(m, t) && hi <= t
    && (VtableAt(m, t) + VtableSize(m, t) <= lo || hi <= VtableAt(m, t))
    && (VtableAt(m, t) + 4 <= lo || hi <= VtableAt(m, t))
  }

  lemma WordKept(m: seq<byte>, m': seq<byte>, lo: nat, hi: nat, p: nat)
    requires SameOutside(m, m', lo, hi) && p + 4 <= |m| && (p + 4 <= lo || hi <= p)
    ensures ReadU32(m', p) == ReadU32(m, p)
  {
    assert m'[p] == m[p] && m'[p + 1] == m[p + 1] && m'[p + 2] == m[p + 2] && m'[p + 3] == m[p + 3];
  }

  lemma HalfWordKept(m: seq<byte>, m': seq<byte>, lo: nat, hi: nat, p: nat)
    requires SameOutside(m, m', lo, hi) && p + 2 <= |m| && (p + 2 <= lo || hi <= p)
    ensures ReadU16(m', p) == ReadU16(m, p)
  {
    assert m'[p] == m[p] && m'[p + 1] == m[p + 1];
  }

  /** Field lookup in such a table reads no slot of the vector. */
  lemma LookupOutsideSlots(m: seq<byte>, m': seq<byte>, t: nat, lo: nat, hi: nat, id: nat)
    requires SameOutside(m, m', lo, hi) && TableOutside(m, t, lo, hi)
    ensures HasVtable(m', t) && FieldOffset(m', t, id) == FieldOffset(m, t, id)
  {
    WordKept(m, m', lo, hi, t);
    HalfWordKept(m, m', lo, hi, VtableAt(m, t));
    if VtableSize(m, t) >= 2 * (id + 3) {
      HalfWordKept(m, m', lo, hi, VtableAt(m, t) + 2 * (id + 2));
    }
  }

  lemma FieldKeysOutsideSlots(m: seq<byte>, v: Vec, id: nat, width: nat, signed: bool, default: int)
    requires TargetsPastVector(m, v)
    requires forall t :: t in Elements(m, v) ==> TableOutside(m, t, v.pos, End(m, v))
    ensures KeysOutsideSlots(m, v, ScalarField(id, width, signed, default))
    ensures KeysOutsideSlots(m, v, StringField(id))
  {
    forall m', t | SameOutside(m, m', v.pos, End(m, v)) && t in Elements(m, v)
      ensures ScalarField(id, width, signed, default)(m', t) == ScalarField(id, width, signed, default)(m, t)
      ensures StringField(id)(m', t) == StringField(id)(m, t)
    {
      FieldKeyKept(m, m', v.pos, End(m, v), t, id, width, signed, default);
    }
  }

  lemma FieldKeyKept(m: seq<byte>, m': seq<byte>, lo: nat, hi: nat, t: nat,
                     id: nat, width: nat, signed: bool, default: int)
    requires SameOutside(m, m', lo, hi) && TableOutside(m, t, lo, hi)
    ensures ScalarField(id, width, signed, default)(m', t) == ScalarField(id, width, signed, default)(m, t)
    ensures StringField(id)(m', t) == StringField(id)(m, t)
  {
    hide FieldOffset, HasVtable, VtableAt, ReadU32, LittleEndian;
    LookupOutsideSlots(m, m', t, lo, hi, id);
    assert HasVtable(m, t) && hi <= t;
    var p := t + FieldOffset(m, t, id);
    if p + width <= |m| {
      assert m'[p..p + width] == m[p..p + width];
    }
    if p + 4 <= |m| {
      WordKept(m, m', lo, hi, p);
      StringKept(m, m', lo, hi, p + ReadU32(m, p));
    }
  }

  lemma StringKept(m: seq<byte>, m': seq<byte>, lo: nat, hi: nat, x: nat)
    requires SameOutside(m, m', lo, hi) && hi <= x
    ensures StringInBuffer(m', x) == StringInBuffer(m, x) && StringAt(m', x) == StringAt(m, x)
  {
    hide ReadU32;
    if x + 4 <= |m| {
      WordKept(m, m', lo, hi, x);
      if x + 4 + ReadU32(m, x) <= |m| {
        assert m'[x + 4..x + 4 + ReadU32(m, x)] == m[x + 4..x + 4 + ReadU32(m, x)];
      }
    }
  }

  /** `__flatbuffers_define_table_sort_by_scalar_field`. */
  method SortTablesByScalar(mem: array<byte>, v: Vec, id: nat, width: nat, signed: bool, default: int)
    requires v.slot == Offset && InBuffer(mem[..], v) && TargetsPastVector(mem[..], v)
    requires forall t :: t in Elements(mem[..], v) ==>
      TableOutside(mem[..], t, v.pos, End(mem[..], v)) && ScalarInBuffer(mem[..], t, id, width)
    modifies mem
    ensures Permuted(old(mem[..]), mem[..], v)
    ensures SortedByKey(mem[..], v, ScalarField(id, width, signed, default), ScalarDiff)
  {
    FieldKeysOutsideSlots(mem[..], v, id, width, signed, default);
    HeapSort(mem, v, ScalarField(id, width, signed, default), ScalarDiff);
  }

  /** `__flatbuffers_define_table_sort_by_string_field`. */
  method SortTablesByString(mem: array<byte>, v: Vec, id: nat)
    requires v.slot == Offset && InBuffer(mem[..], v) && TargetsPastVector(mem[..], v)
    requires forall t :: t in Elements(mem[..], v) ==>
      TableOutside(mem[..], t, v.pos, End(mem[..], v)) && FieldStringInBuffer(mem[..], t, id)
    modifies mem
    ensures Permuted(old(mem[..]), mem[..], v)
    ensures SortedByKey(mem[..], v, StringField(id), StringDiff) && StringsAscend(mem[..], v, StringField(id))
  {
    FieldKeysOutsideSlots(mem[..], v, id, 0, false, 0);
    StringDiffIsPreorder();
    HeapSort(mem, v, StringField(id), StringDiff);
    SortedStringsAscend(mem[..], v, StringField(id));
  }

  /** After a table vector was sorted by a scalar field, binary search by that field finds what was there before. */
  lemma FindTableByScalarAfterSort(m0: seq<byte>, m: seq<byte>, v: Vec,
                                   id: nat, width: nat, signed: bool, default: int, x: int)
    requires Permuted(m0, m, v) && SortedByKey(m, v, ScalarField(id, width, signed, default), ScalarDiff)
    requires forall t :: t in Elements(m0, v) ==> TableOutside(m0, t, v.pos, End(m0, v))
    ensures var key := ScalarField(id, width, signed, default);
      Ascending(Marks(m, v, key, Against(ScalarDiff, x))) && FindsAsBefore(m0, m, v, key, ScalarDiff, x)
  {
    FieldKeysOutsideSlots(m0, v, id, width, signed, default);
    ScalarDiffIsPreorder();
    hide FindsAsBefore, Ascending, Marks, KeysOutsideSlots, TableOutside, ScalarField;
    FindAfterSort(m0, m, v, ScalarField(id, width, signed, default), ScalarDiff, x);
  }

  /** Every table of the vector stores the field. */
  ghost predicate StoredInAll(m: seq<byte>, v: Vec, id: nat)
    requires InBuffer(m, v)
  {
    forall t :: t in Elements(m, v) ==> HasVtable(m, t) && FieldOffset(m, t, id) != 0
  }

  /** The same for a string field and the two comparisons it is searched with; `strcmp` needs the field to be stored,
      since it would follow a null string. */
  lemma FindTableByStringAfterSort(m0: seq<byte>, m: seq<byte>, v: Vec, id: nat, x: bytes)
    requires Permuted(m0, m, v) && SortedByKey(m, v, StringField(id), StringDiff)
    requires forall t :: t in Elements(m0, v) ==> TableOutside(m0, t, v.pos, End(m0, v))
    ensures var key := StringField(id);
      && (StoredInAll(m0, v, id) ==>
            Ascending(Marks(m, v, key, Against(StrCmp, x))) && FindsAsBefore(m0, m, v, key, StrCmp, x))
      && Ascending(Marks(m, v, key, Against(StringDiff, x))) && FindsAsBefore(m0, m, v, key, StringDiff, x)
  {
    FieldKeysOutsideSlots(m0, v, id, 0, false, 0);
    hide FindsAsBefore, Ascending, Marks, KeysOutsideSlots, TableOutside, StringField;
    FindStringAfterSort(m0, m, v, StringField(id), x);
  }
}
