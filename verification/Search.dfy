/** Binary search and linear scans over vectors, and the sorts of string and integer vectors they go with. */
module Search {
  import opened Memory
  import opened Order
  import opened Vectors
  import opened Strings

  /** `flatbuffers_not_found`, the largest `size_t`. */
  const NOT_FOUND: nat := 0xFFFF_FFFF_FFFF_FFFF

  /** How each element compares with the searched key. */
  function Marks<K>(m: seq<byte>, v: Vec, key: Key<K>, cmp: K -> int): (s: seq<int>)
    requires InBuffer(m, v)
    ensures |s| == Length(m, v)
  {
    seq(Length(m, v), i requires 0 <= i < Length(m, v) => cmp(key(m, Element(m, v, i))))
  }

  /** First smaller, then equal, then greater elements. */
  ghost predicate Ascending(s: seq<int>) {
    forall i, j :: 0 <= i < j < |s| ==> Sign(s[i]) <= Sign(s[j])
  }

  /** The lowest index in `[b, e)` that compares equal. */
  function FirstMatch(s: seq<int>, b: nat, e: nat): nat
    requires e <= |s|
    decreases e - b
  {
    if b >= e then NOT_FOUND else if s[b] == 0 then b else FirstMatch(s, b + 1, e)
  }

  /** The highest index in `[b, e)` that compares equal. */
  function LastMatch(s: seq<int>, b: nat, e: nat): nat
    requires e <= |s|
  {
    if b >= e then NOT_FOUND else if s[e - 1] == 0 then e - 1 else LastMatch(s, b, e - 1)
  }

  lemma {:induction false} FirstMatchIsLowest(s: seq<int>, b: nat, e: nat)
    requires e <= |s| < TWO_TO_THE_32
    ensures var r := FirstMatch(s, b, e);
      if r == NOT_FOUND then forall i :: b <= i < e ==> s[i] != 0
      else b <= r < e && s[r] == 0 && forall i :: b <= i < r ==> s[i] != 0
    decreases e - b
  {
    if b < e { FirstMatchIsLowest(s, b + 1, e); }
  }

  lemma {:induction false} LastMatchIsHighest(s: seq<int>, b: nat, e: nat)
    requires e <= |s| < TWO_TO_THE_32
    ensures var r := LastMatch(s, b, e);
      if r == NOT_FOUND then forall i :: b <= i < e ==> s[i] != 0
      else b <= r < e && s[r] == 0 && forall i :: r < i < e ==> s[i] != 0
  {
    if b < e { LastMatchIsHighest(s, b, e - 1); }
  }

  /** In a sorted vector the matches are exactly the indices between the lowest and the highest one. */
  lemma MatchesAreAnInterval(s: seq<int>, i: nat)
    requires Ascending(s) && i < |s| < TWO_TO_THE_32
    ensures var lo, hi := FirstMatch(s, 0, |s|), LastMatch(s, 0, |s|);
      && (lo == NOT_FOUND <==> hi == NOT_FOUND)
      && (s[i] == 0 <==> lo != NOT_FOUND && lo <= i <= hi)
  {
    FirstMatchIsLowest(s, 0, |s|);
    LastMatchIsHighest(s, 0, |s|);
  }

  /** `__flatbuffers_find_by_field`: binary search. On a sorted vector it returns what the linear scan would. */
  method Find<K>(m: seq<byte>, v: Vec, key: Key<K>, cmp: K -> int) returns (r: nat)
    requires InBuffer(m, v) && Ascending(Marks(m, v, key, cmp))
    ensures r == FirstMatch(Marks(m, v, key, cmp), 0, Length(m, v))
  {
    ghost var s := Marks(m, v, key, cmp);
    FirstMatchIsLowest(s, 0, |s|);
    hide FirstMatch, Element, Length, InBuffer;
    var a, b := 0, Length(m, v);
    if b == 0 { return NOT_FOUND; }
    b := b - 1;
    while a < b
      invariant 0 <= a <= b < |s|
      invariant forall i :: 0 <= i < a ==> s[i] < 0
      invariant forall i :: b < i < |s| ==> s[i] >= 0
      invariant b < |s| - 1 ==> s[b] >= 0
    {
      var mid := a + (b - a) / 2;
      if cmp(key(m, Element(m, v, mid))) < 0 {
        assert forall i :: 0 <= i < mid ==> Sign(s[i]) <= Sign(s[mid]);
        a := mid + 1;
      } else {
        assert forall i :: mid < i < |s| ==> Sign(s[mid]) <= Sign(s[i]);
        b := mid;
      }
    }
    if cmp(key(m, Element(m, v, a))) == 0 {
      return a;
    }
    assert forall i :: a < i < |s| ==> Sign(s[a]) <= Sign(s[i]);
    return NOT_FOUND;
  }

  function Min(a: nat, b: nat): nat {
    if a < b then a else b
  }

  /** `__flatbuffers_scan_by_field` between `begin` and `end`, the end clamped to the length. */
  method Scan<K>(m: seq<byte>, v: Vec, begin: nat, end: nat, key: Key<K>, cmp: K -> int) returns (r: nat)
    requires InBuffer(m, v)
    ensures r == FirstMatch(Marks(m, v, key, cmp), begin, Min(end, Length(m, v)))
  {
    var e := Min(end, Length(m, v));
    var i := begin;
    while i < e
      invariant begin <= i
      invariant FirstMatch(Marks(m, v, key, cmp), begin, e) == FirstMatch(Marks(m, v, key, cmp), i, e)
    {
      if cmp(key(m, Element(m, v, i))) == 0 {
        return i;
      }
      i := i + 1;
    }
    return NOT_FOUND;
  }

  /** `__flatbuffers_rscan_by_field`. */
  method ReverseScan<K>(m: seq<byte>, v: Vec, begin: nat, end: nat, key: Key<K>, cmp: K -> int) returns (r: nat)
    requires InBuffer(m, v)
    ensures r == LastMatch(Marks(m, v, key, cmp), begin, Min(end, Length(m, v)))
  {
    var i := Min(end, Length(m, v));
    while i > begin
      invariant 0 <= i <= Length(m, v)
      invariant LastMatch(Marks(m, v, key, cmp), begin, Min(end, Length(m, v)))
             == LastMatch(Marks(m, v, key, cmp), begin, i)
    {
      i := i - 1;
      if cmp(key(m, Element(m, v, i))) == 0 {
        return i;
      }
    }
    return NOT_FOUND;
  }

  // ---------- Searching after sorting ----------

  /** Exchanging the operands turns the result around. */
  ghost predicate Antisymmetric<K(!new)>(cmp: Comparison<K>) {
    forall x, y :: Sign(cmp(x, y)) == -Sign(cmp(y, x))
  }

  /** The comparison of a search: each element against the key searched for. */
  function Against<K>(cmp: Comparison<K>, x: K): K -> int {
    (y: K) => cmp(y, x)
  }

  lemma SmallerComparesSmaller<K(!new)>(cmp: Comparison<K>, y: K, z: K, x: K)
    requires TotalPreorder(cmp) && Antisymmetric(cmp) && Le(cmp, y, z)
    ensures Sign(cmp(y, x)) <= Sign(cmp(z, x))
  {
    assert Sign(cmp(y, x)) == -Sign(cmp(x, y)) && Sign(cmp(z, x)) == -Sign(cmp(x, z));
    assert Le(cmp, z, x) ==> Le(cmp, y, x);
    assert Le(cmp, x, y) ==> Le(cmp, x, z);
  }

  /** A vector sorted by some key is ascending for every search by that key in the same order. */
  lemma SortedAscends<K(!new)>(m: seq<byte>, v: Vec, key: Key<K>, cmp: Comparison<K>, x: K)
    requires InBuffer(m, v) && SortedByKey(m, v, key, cmp) && TotalPreorder(cmp) && Antisymmetric(cmp)
    ensures Ascending(Marks(m, v, key, Against(cmp, x)))
  {
    hide InBuffer, Element, TotalPreorder, Antisymmetric, Length;
    var s := Marks(m, v, key, Against(cmp, x));
    forall i, j | 0 <= i < j < |s|
      ensures Sign(s[i]) <= Sign(s[j])
    {
      SmallerComparesSmaller(cmp, key(m, Element(m, v, i)), key(m, Element(m, v, j)), x);
    }
  }

  /** Each element of one arrangement is an element of the other. */
  lemma ElementIn(m: seq<byte>, m': seq<byte>, v: Vec, i: nat) returns (j: nat)
    requires InBuffer(m, v) && InBuffer(m', v) && i < Length(m, v)
    requires multiset(Elements(m, v)) == multiset(Elements(m', v))
    ensures j < Length(m', v) && Element(m', v, j) == Element(m, v, i)
  {
    var x := Elements(m, v)[i];
    assert x in multiset(Elements(m', v));
    j :| 0 <= j < Length(m', v) && Elements(m', v)[j] == x;
  }

  /** Sorting neither loses nor invents a match: a scan finds one before iff it finds one after. */
  lemma MatchSurvivesSort<K(!new)>(m0: seq<byte>, m: seq<byte>, v: Vec, key: Key<K>, cmp: K -> int)
    requires Permuted(m0, m, v) && KeysOutsideSlots(m0, v, key)
    ensures FirstMatch(Marks(m, v, key, cmp), 0, Length(m, v)) != NOT_FOUND
       <==> FirstMatch(Marks(m0, v, key, cmp), 0, Length(m0, v)) != NOT_FOUND
  {
    hide Elements, Element, TargetsPastVector, SameOutside, FirstMatch;
    var s, s0 := Marks(m, v, key, cmp), Marks(m0, v, key, cmp);
    FirstMatchIsLowest(s, 0, |s|);
    FirstMatchIsLowest(s0, 0, |s0|);
    var r, r0 := FirstMatch(s, 0, |s|), FirstMatch(s0, 0, |s0|);
    if r != NOT_FOUND {
      var j := ElementIn(m, m0, v, r);
      SameKey(m0, m, v, key, j);
      assert s0[j] == s[r];
    }
    if r0 != NOT_FOUND {
      var j := ElementIn(m0, m, v, r0);
      SameKey(m0, m, v, key, r0);
      assert s[j] == s0[r0];
    }
  }

  lemma SameKey<K(!new)>(m0: seq<byte>, m: seq<byte>, v: Vec, key: Key<K>, i: nat)
    requires Permuted(m0, m, v) && KeysOutsideSlots(m0, v, key) && i < Length(m0, v)
    ensures key(m, Element(m0, v, i)) == key(m0, Element(m0, v, i))
  {
    assert Elements(m0, v)[i] in Elements(m0, v);
  }

  /** Searching `m` for `x` succeeds exactly if some element of `m0` matches, and gives the lowest match in `m`. */
  ghost predicate FindsAsBefore<K>(m0: seq<byte>, m: seq<byte>, v: Vec, key: Key<K>, cmp: Comparison<K>, x: K)
    requires InBuffer(m0, v) && InBuffer(m, v)
  {
    var r := FirstMatch(Marks(m, v, key, Against(cmp, x)), 0, Length(m, v));
    && (r != NOT_FOUND <==> exists i :: 0 <= i < Length(m0, v) && cmp(key(m0, Element(m0, v, i)), x) == 0)
    && (r != NOT_FOUND ==>
          && r < Length(m, v)
          && cmp(key(m, Element(m, v, r)), x) == 0
          && forall i :: 0 <= i < r ==> cmp(key(m, Element(m, v, i)), x) < 0)
  }

  /** After a sort, binary search by the same key may be used, and finds what was there before. */
  lemma FindAfterSort<K(!new)>(m0: seq<byte>, m: seq<byte>, v: Vec, key: Key<K>, cmp: Comparison<K>, x: K)
    requires Permuted(m0, m, v) && KeysOutsideSlots(m0, v, key)
    requires SortedByKey(m, v, key, cmp) && TotalPreorder(cmp) && Antisymmetric(cmp)
    ensures Ascending(Marks(m, v, key, Against(cmp, x)))
    ensures FindsAsBefore(m0, m, v, key, cmp, x)
  {
    hide Elements, Element, SameOutside, FirstMatch, KeysOutsideSlots, TargetsPastVector, TotalPreorder, Antisymmetric;
    SortedAscends(m, v, key, cmp, x);
    MatchSurvivesSort(m0, m, v, key, Against(cmp, x));
    var s, s0 := Marks(m, v, key, Against(cmp, x)), Marks(m0, v, key, Against(cmp, x));
    FirstMatchIsLowest(s, 0, |s|);
    FirstMatchIsLowest(s0, 0, |s0|);
    var r, r0 := FirstMatch(s, 0, |s|), FirstMatch(s0, 0, |s0|);
    if r0 != NOT_FOUND {
      assert cmp(key(m0, Element(m0, v, r0)), x) == s0[r0];
    }
    forall i | 0 <= i < |s0|
      ensures cmp(key(m0, Element(m0, v, i)), x) == s0[i]
    {
    }
    if r != NOT_FOUND {
      forall i | 0 <= i < r
        ensures cmp(key(m, Element(m, v, i)), x) < 0
      {
        assert Sign(s[i]) <= Sign(s[r]) && s[i] != 0 && s[i] == cmp(key(m, Element(m, v, i)), x);
      }
    }
  }

  // ---------- String vectors ----------

  /** Strings past the vector are not touched by sorting it. */
  lemma StringsOutsideSlots(m: seq<byte>, v: Vec)
    requires TargetsPastVector(m, v) && v.slot == Offset
    ensures KeysOutsideSlots(m, v, StringAt)
  {
    forall m', x | SameOutside(m, m', v.pos, End(m, v)) && x in Elements(m, v)
      ensures StringAt(m', x) == StringAt(m, x)
    {
      assert End(m, v) <= x;
      if x + 4 <= |m| {
        assert m'[x] == m[x] && m'[x + 1] == m[x + 1] && m'[x + 2] == m[x + 2] && m'[x + 3] == m[x + 3];
      }
    }
  }

  /** Sorted by strings, no element is followed by a smaller one at their first difference, or by a shorter one
      without a difference. */
  ghost predicate StringsAscend(m: seq<byte>, v: Vec, key: Key<bytes>)
    requires InBuffer(m, v)
  {
    forall i, j :: 0 <= i < j < Length(m, v) ==> NotAfter(key(m, Element(m, v, i)), key(m, Element(m, v, j)))
  }

  lemma SortedStringsAscend(m: seq<byte>, v: Vec, key: Key<bytes>)
    requires InBuffer(m, v) && SortedByKey(m, v, key, StringDiff)
    ensures StringsAscend(m, v, key)
  {
    hide NotAfter, Le;
    forall i, j | 0 <= i < j < Length(m, v)
      ensures NotAfter(key(m, Element(m, v, i)), key(m, Element(m, v, j)))
    {
      LeIsNotAfter(key(m, Element(m, v, i)), key(m, Element(m, v, j)));
    }
  }

  /** `flatbuffers_string_vec_sort`. */
  method SortStrings(mem: array<byte>, v: Vec)
    requires v.slot == Offset && InBuffer(mem[..], v) && TargetsPastVector(mem[..], v)
    requires forall x :: x in Elements(mem[..], v) ==> StringInBuffer(mem[..], x)
    modifies mem
    ensures Permuted(old(mem[..]), mem[..], v)
    ensures SortedByKey(mem[..], v, StringAt, StringDiff) && StringsAscend(mem[..], v, StringAt)
  {
    StringsOutsideSlots(mem[..], v);
    StringDiffIsPreorder();
    HeapSort(mem, v, StringAt, StringDiff);
    SortedStringsAscend(mem[..], v, StringAt);
  }

  /** `strcmp` is a total preorder, and coarser than the order of the sort. */
  lemma StrCmpIsPreorder()
    ensures TotalPreorder(StrCmp) && Antisymmetric(StrCmp) && Antisymmetric(StringDiff)
  {
    forall x, y
      ensures StrCmp(x, y) == -StrCmp(y, x) && Sign(StringDiff(x, y)) == -Sign(StringDiff(y, x))
    {
      StrCmpAntisymmetric(x, y);
      DiffRefinesStrCmp(x, y);
      DiffRefinesStrCmp(y, x);
    }
    forall x, y, z | Le(StrCmp, x, y) && Le(StrCmp, y, z)
      ensures Le(StrCmp, x, z)
    {
      StrCmpTransitive(x, y, z);
    }
  }

  lemma SortedForStrCmp(m: seq<byte>, v: Vec, key: Key<bytes>)
    requires InBuffer(m, v) && SortedByKey(m, v, key, StringDiff)
    ensures SortedByKey(m, v, key, StrCmp)
  {
    forall i, j | 0 <= i < j < Length(m, v)
      ensures Le(StrCmp, key(m, Element(m, v, i)), key(m, Element(m, v, j)))
    {
      LeIsStrCmp(key(m, Element(m, v, i)), key(m, Element(m, v, j)));
      StrCmpAntisymmetric(key(m, Element(m, v, i)), key(m, Element(m, v, j)));
    }
  }

  /** After a sort by a string key, both the search by `strcmp` and the one by length find what was there before. */
  lemma FindStringAfterSort(m0: seq<byte>, m: seq<byte>, v: Vec, key: Key<bytes>, x: bytes)
    requires Permuted(m0, m, v) && KeysOutsideSlots(m0, v, key) && SortedByKey(m, v, key, StringDiff)
    ensures Ascending(Marks(m, v, key, Against(StrCmp, x))) && FindsAsBefore(m0, m, v, key, StrCmp, x)
    ensures Ascending(Marks(m, v, key, Against(StringDiff, x))) && FindsAsBefore(m0, m, v, key, StringDiff, x)
  {
    hide FindsAsBefore, Ascending, Marks, KeysOutsideSlots, TotalPreorder, Antisymmetric;
    SortedForStrCmp(m, v, key);
    StringDiffIsPreorder();
    StrCmpIsPreorder();
    FindAfterSort(m0, m, v, key, StrCmp, x);
    FindAfterSort(m0, m, v, key, StringDiff, x);
  }

  // ---------- Integer vectors ----------

  /** The integer of a slot: two's complement for the signed types. */
  function IntegerAt(width: nat, signed: bool): Key<int> {
    (m: seq<byte>, x: nat) => if signed && 2 * x >= Power256(width) then x - Power256(width) else x
  }

  function Power256(n: nat): nat {
    if n == 0 then 1 else 256 * Power256(n - 1)
  }

  /** Every bit of every byte turned over. */
  function Inverted(b: seq<byte>): (r: seq<byte>)
    ensures |r| == |b|
  {
    seq(|b|, i requires 0 <= i < |b| => (255 - b[i]) as byte)
  }

  /** The signed integer of some bytes, lowest first: negative if the top bit is set, and then one less than the
      negated integer of the inverted bytes. */
  function TwosComplement(b: seq<byte>): int
    requires b != []
  {
    if b[|b| - 1] >= 128 then -1 - LittleEndian(Inverted(b)) else LittleEndian(b)
  }

  lemma {:induction false} InvertedIsComplement(b: seq<byte>)
    ensures LittleEndian(b) + LittleEndian(Inverted(b)) == Power256(|b|) - 1
  {
    if b != [] {
      InvertedIsComplement(b[1..]);
      assert Inverted(b)[1..] == Inverted(b[1..]);
    }
  }

  lemma {:induction false} TopBit(b: seq<byte>)
    requires b != []
    ensures 2 * LittleEndian(b) >= Power256(|b|) <==> b[|b| - 1] >= 128
  {
    if |b| == 1 {
      assert b[1..] == [];
    } else {
      TopBit(b[1..]);
      assert Power256(|b| - 1) == 256 * Power256(|b| - 2);
    }
  }

  /** The integer in a slot is that of its bytes, two's complement for the signed types. */
  lemma IntegerInSlot(m: seq<byte>, v: Vec, i: nat, signed: bool)
    requires v.slot.Value? && InBuffer(m, v) && i < Length(m, v)
    ensures v.pos + i * v.slot.width + v.slot.width <= |m|
    ensures var b := m[v.pos + i * v.slot.width..v.pos + i * v.slot.width + v.slot.width];
      b != [] && IntegerAt(v.slot.width, signed)(m, Element(m, v, i))
              == if signed then TwosComplement(b) else LittleEndian(b)
  {
    SlotInside(m, v, i);
    IntegerOfBytes(m, m[v.At(i)..v.At(i) + v.slot.width], signed);
  }

  lemma IntegerOfBytes(m: seq<byte>, b: seq<byte>, signed: bool)
    requires b != []
    ensures IntegerAt(|b|, signed)(m, LittleEndian(b)) == if signed then TwosComplement(b) else LittleEndian(b)
  {
    TopBit(b);
    InvertedIsComplement(b);
  }

  /** `__flatbuffers_scalar_diff`. */
  function ScalarDiff(x: int, y: int): int {
    if x < y then -1 else if x > y then 1 else 0
  }

  /** The generated `_vec_sort` of an integer vector. */
  method SortIntegers(mem: array<byte>, v: Vec, signed: bool)
    requires v.slot.Value? && InBuffer(mem[..], v)
    modifies mem
    ensures Permuted(old(mem[..]), mem[..], v)
    ensures var key := IntegerAt(v.slot.width, signed);
      forall i, j :: 0 <= i < j < Length(mem[..], v) ==>
        key(mem[..], Element(mem[..], v, i)) <= key(mem[..], Element(mem[..], v, j))
    ensures SortedByKey(mem[..], v, IntegerAt(v.slot.width, signed), ScalarDiff)
  {
    HeapSort(mem, v, IntegerAt(v.slot.width, signed), ScalarDiff);
    var m, key := mem[..], IntegerAt(v.slot.width, signed);
    forall i, j | 0 <= i < j < Length(m, v)
      ensures key(m, Element(m, v, i)) <= key(m, Element(m, v, j))
    {
      assert Le(ScalarDiff, key(m, Element(m, v, i)), key(m, Element(m, v, j)));
    }
  }

  /** After the sort of an integer vector, binary search finds an integer exactly if it was there before. */
  lemma FindIntegerAfterSort(m0: seq<byte>, m: seq<byte>, v: Vec, signed: bool, x: int)
    requires v.slot.Value? && Permuted(m0, m, v) && SortedByKey(m, v, IntegerAt(v.slot.width, signed), ScalarDiff)
    ensures Ascending(Marks(m, v, IntegerAt(v.slot.width, signed), Against(ScalarDiff, x)))
    ensures FindsAsBefore(m0, m, v, IntegerAt(v.slot.width, signed), ScalarDiff, x)
  {
    ScalarDiffIsPreorder();
    hide FindsAsBefore, Ascending, Marks, TotalPreorder, Antisymmetric;
    FindAfterSort(m0, m, v, IntegerAt(v.slot.width, signed), ScalarDiff, x);
  }

  lemma ScalarDiffIsPreorder()
    ensures TotalPreorder(ScalarDiff) && Antisymmetric(ScalarDiff)
  {
  }
}
