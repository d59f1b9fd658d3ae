/** Cloning a vector of unions: a vector of types and a vector of values, memoised separately. */
module UnionVectors {
  import opened Wrappers
  import opened Memory
  import opened Schema
  import opened Builders
  import opened Clone

  /** A union vector whose types and values match in number, and whose elements of a known type lead to a table of
      that type. Elements of type NONE, as the builder's contract allows, and of an unknown type lead nowhere. */
  ghost predicate WellFormedUnionVector(src: Store, types: Address, values: Address) {
    && Leads(src, BytesKind, types) && Leads(src, UnionValuesKind, values)
    && |src[types].data| == |src[values].values|
    && forall i :: 0 <= i < |src[types].data| ==>
         var m := UnionMember(src[types].data[i]);
         m.Some? ==> Leads(src, TableKind(m.value), src[values].values[i])
  }

  /** The index of the first element that reads as NONE. */
  function FirstNone(types: seq<byte>): (n: nat)
    ensures n <= |types|
    ensures forall i :: 0 <= i < n ==> UnionMember(types[i]).Some?
    ensures n < |types| ==> UnionMember(types[n]).None?
  {
    if types == [] || UnionMember(types[0]).None? then 0 else 1 + FirstNone(types[1..])
  }

  /** The offset vector that holds the clones of the first `n` elements was not ended. */
  ghost predicate LeftOpen(s: State, u: State, n: nat) {
    u.frames != [] && u.Below() == s.frames && u.Top().VectorFrame? && |u.Top().elems| == n
  }

  /** The outcome of cloning a union vector: references to copies of both vectors, or two nulls, because a primitive
      failed or because the values, not cloned before, have an element that reads as NONE. */
  ghost predicate UnionVectorCloned(s: State, u: State, src: Store, types: Address, values: Address,
                                    t: Address, v: Address)
    requires WellFormedUnionVector(src, types, values)
  {
    var none := s.Find(values) == 0 && FirstNone(src[types].data) < |src[types].data|;
    && Consistent(u, src) && Grew(s, u, src, UNION_RANK + 1)
    && (t == 0 <==> v == 0)
    && (t != 0 ==>
          && t in u.origin && u.origin[t] == types && v in u.origin && u.origin[v] == values
          && u.frames == s.frames && (Exact(s) ==> Exact(u)) && !none)
    && (t == 0 && u.budget > 0 ==> none && LeftOpen(s, u, FirstNone(src[types].data)))
  }

  lemma MembersRankBelowUnion(t: int)
    ensures UnionMember(t).Some? ==> TableRank(UnionMember(t).value) < UNION_RANK
  {
  }

  /** The clone of the types, with its memo lookup. */
  method CloneTypes(b: Builder, src: Store, a: Address) returns (r: Address)
    requires Consistent(b.Get(), src) && Leads(src, BytesKind, a)
    modifies b
    ensures Cloned(old(b.Get()), b.Get(), src, a, r)
  {
    ghost var s := b.Get();
    GrewNothing(s, src, RankAt(src, a));
    GrewNothing(s, src, RankAt(src, a) + 1);
    r := b.RefmapFind(a);
    if r != 0 { return; }
    hide Consistent, Exact, Grew, ExactBut, Cloned;
    var e := b.CreateTypeVector(src[a].data, Some(a));
    CopyEmitted(s, s, b.Get(), src, Bytes(src[a].data), map[], a, e);
    r := Memoize(b, src, a, e, s);
  }

  /** The state of the clone of the values before element `i`. */
  ghost predicate ElementsCloned(s: State, u: State, src: Store, types: Address, values: Address, t: Address, i: nat)
    requires WellFormedUnionVector(src, types, values)
  {
    && i <= FirstNone(src[types].data)
    && PushedUpTo(s, u, src, UNION_RANK, src[values].values, i)
    && t in u.origin && u.origin[t] == types
  }

  /** `X_clone` of the element and the push of its reference. */
  method PushUnion(b: Builder, src: Store, types: Address, values: Address, i: nat, ghost s: State, ghost t: Address)
    returns (ok: bool)
    requires WellFormedStore(src) && WellFormedUnionVector(src, types, values) && i < |src[types].data|
    requires ElementsCloned(s, b.Get(), src, types, values, t, i)
    modifies b
    ensures ok ==> ElementsCloned(s, b.Get(), src, types, values, t, i + 1)
    ensures !ok && UnionMember(src[types].data[i]).None? ==>
      b.Get() == old(b.Get()) && FirstNone(src[types].data) == i
    ensures !ok && UnionMember(src[types].data[i]).Some? ==>
      Consistent(b.Get(), src) && Grew(s, b.Get(), src, UNION_RANK) && b.budget == 0 && s.frames <= b.frames
  {
    hide PushedUpTo, Consistent, WellFormedStore, UnionMember;
    var m := UnionMember(src[types].data[i]);
    if m.None? { return false; }
    MembersRankBelowUnion(src[types].data[i]);
    ok := PushClone(b, src, m.value, src[values].values, i, s, UNION_RANK);
  }

  lemma NotCloned(s: State, u: State, src: Store, types: Address, values: Address)
    requires WellFormedUnionVector(src, types, values) && Consistent(u, src) && Grew(s, u, src, UNION_RANK)
    requires u.budget == 0
    ensures UnionVectorCloned(s, u, src, types, values, 0, 0)
  {
    hide Consistent;
    GrewMore(s, u, src, UNION_RANK, UNION_RANK + 1);
  }

  /** An element that reads as NONE ends the clone of the values, but not the vector under construction. */
  lemma NotClonedForNone(s: State, u: State, src: Store, types: Address, values: Address, t: Address)
    requires WellFormedUnionVector(src, types, values) && s.Find(values) == 0
    requires FirstNone(src[types].data) < |src[types].data|
    requires ElementsCloned(s, u, src, types, values, t, FirstNone(src[types].data))
    ensures UnionVectorCloned(s, u, src, types, values, 0, 0)
  {
    hide Consistent;
    GrewMore(s, u, src, UNION_RANK, UNION_RANK + 1);
  }

  /** After the types, whose clone the values do not depend on. */
  lemma TypesCloned(s: State, u: State, src: Store, types: Address, values: Address, t: Address)
    requires WellFormedUnionVector(src, types, values) && Consistent(s, src) && Cloned(s, u, src, types, t)
    ensures Consistent(u, src) && Grew(s, u, src, UNION_RANK)
    ensures t == 0 ==> u.budget == 0
    ensures t != 0 ==> u.frames == s.frames && (Exact(s) ==> Exact(u)) && t in u.origin && u.origin[t] == types
    ensures t != 0 && s.Find(values) != 0 ==> UnionVectorCloned(s, u, src, types, values, t, s.Find(values))
  {
    GrewMore(s, u, src, RankAt(src, types) + 1, UNION_RANK);
    GrewMore(s, u, src, UNION_RANK, UNION_RANK + 1);
    hide Exact, Simulates;
  }

  /** After the values. */
  lemma ValuesCloned(s: State, u: State, src: Store, types: Address, values: Address, t: Address, v: Address)
    requires WellFormedUnionVector(src, types, values) && Cloned(s, u, src, values, v)
    requires FirstNone(src[types].data) == |src[types].data|
    requires t != 0 && t in u.origin && u.origin[t] == types
    ensures UnionVectorCloned(s, u, src, types, values, if v == 0 then 0 else t, v)
  {
    hide Consistent, Exact;
  }

  lemma NothingCloned(s: State, s1: State, u: State, src: Store, types: Address, values: Address, t: Address)
    requires WellFormedUnionVector(src, types, values) && Consistent(s1, src) && Grew(s, s1, src, UNION_RANK)
    requires (Exact(s) ==> Exact(s1)) && s1.frames == s.frames && t in s1.origin && s1.origin[t] == types
    requires OnlyFrames(s1, u)
    ensures u.frames == s1.frames && u.budget == 0 ==> UnionVectorCloned(s, u, src, types, values, 0, 0)
    ensures u.frames == s1.frames + [VectorFrame([])] ==> ElementsCloned(s, u, src, types, values, t, 0)
  {
    hide Consistent, Exact, Grew, UnionVectorCloned;
    OnlyFramesKeeps(s, s1, u, src, UNION_RANK);
    if u.budget == 0 { NotCloned(s, u, src, types, values); }
    if u.frames == s1.frames + [VectorFrame([])] {
      NothingPushed(s, s1, u, src, UNION_RANK, src[values].values);
    }
  }

  /** `MessageType_vec_clone`. */
  method CloneUnionVector(b: Builder, src: Store, types: Address, values: Address) returns (t: Address, v: Address)
    requires Consistent(b.Get(), src) && WellFormedStore(src)
    requires types != 0 ==> WellFormedUnionVector(src, types, values)
    modifies b
    ensures types == 0 ==> t == v == 0 && b.Get() == old(b.Get())
    ensures types != 0 ==> UnionVectorCloned(old(b.Get()), b.Get(), src, types, values, t, v)
  {
    if types == 0 { return 0, 0; }
    hide Consistent, Exact, Grew, Cloned, WellFormedStore, ElementsCloned, UnionVectorCloned, OnlyFrames;
    ghost var s := b.Get();
    v := b.RefmapFind(values);
    t := CloneTypes(b, src, types);
    TypesCloned(s, b.Get(), src, types, values, t);
    if t == 0 {
      NotCloned(s, b.Get(), src, types, values);
      return 0, 0;
    }
    if v != 0 { return; }
    ghost var s1 := b.Get();
    var rc := b.StartOffsetVector();
    FramesOnly(s1, b.Get());
    NothingCloned(s, s1, b.Get(), src, types, values, t);
    if rc != 0 { return 0, 0; }
    var ok := PushUnions(b, src, types, values, s, t);
    if !ok { return 0, 0; }
    AllElements(s, b.Get(), src, types, values, t);
    v := EndVector(b, src, values, None, src[values].values, s);
    ValuesCloned(s, b.Get(), src, types, values, t, v);
    if v == 0 { return 0, 0; }
  }

  lemma AllElements(s: State, u: State, src: Store, types: Address, values: Address, t: Address)
    requires WellFormedUnionVector(src, types, values) && ElementsCloned(s, u, src, types, values, t, |src[types].data|)
    ensures FirstNone(src[types].data) == |src[types].data|
    ensures RankAt(src, values) == UNION_RANK && src[values] == OffsetVector(None, src[values].values)
    ensures PushedUpTo(s, u, src, RankAt(src, values), src[values].values, |src[values].values|)
    ensures t in u.origin && u.origin[t] == types
  {
    hide PushedUpTo, FirstNone;
  }

  /** The loop over the elements. */
  method PushUnions(b: Builder, src: Store, types: Address, values: Address, ghost s: State, ghost t: Address)
    returns (ok: bool)
    requires WellFormedStore(src) && WellFormedUnionVector(src, types, values) && s.Find(values) == 0
    requires ElementsCloned(s, b.Get(), src, types, values, t, 0)
    modifies b
    ensures ok ==> ElementsCloned(s, b.Get(), src, types, values, t, |src[types].data|)
    ensures !ok ==> UnionVectorCloned(s, b.Get(), src, types, values, 0, 0)
  {
    hide Consistent, Exact, Grew, WellFormedStore, ElementsCloned, UnionVectorCloned, UnionMember, FirstNone;
    var i := 0;
    while i < |src[types].data|
      invariant 0 <= i <= |src[types].data|
      invariant ElementsCloned(s, b.Get(), src, types, values, t, i)
    {
      ok := PushUnion(b, src, types, values, i, s, t);
      if !ok {
        if UnionMember(src[types].data[i]).None? {
          NotClonedForNone(s, b.Get(), src, types, values, t);
        } else {
          NotCloned(s, b.Get(), src, types, values);
        }
        return;
      }
      i := i + 1;
    }
    ok := true;
  }

  // ---------- What a cloned union vector is worth ----------

  /** What a reader learns of an element: its type, and the meaning of its table unless it reads as NONE. */
  datatype Element = Element(utype: byte, value: Option<Meaning>)

  function ElementMeaning(s: Store, utype: byte, a: Address): Element {
    var m := UnionMember(utype);
    Element(utype, if m.Some? then Some(MeaningAt(s, TableKind(m.value), a)) else None)
  }

  predicate IsUnionVector(s: Store, types: Address, values: Address) {
    && types in s && s[types].Bytes? && values in s && s[values].UnionVec?
    && |s[types].data| == |s[values].values|
  }

  function UnionVectorMeaning(s: Store, types: Address, values: Address): seq<Element>
    requires IsUnionVector(s, types, values)
  {
    seq(|s[types].data|,
        i requires 0 <= i < |s[types].data| => ElementMeaning(s, s[types].data[i], s[values].values[i]))
  }

  /** A cloned union vector means what the source means, even if either of its vectors was cloned before as part
      of another union vector. */
  lemma UnionVectorMeansTheSame(s: State, u: State, src: Store, types: Address, values: Address, t: Address, v: Address)
    requires WellFormedUnionVector(src, types, values) && UnionVectorCloned(s, u, src, types, values, t, v) && t != 0
    ensures IsUnionVector(u.out, t, v)
    ensures UnionVectorMeaning(u.out, t, v) == UnionVectorMeaning(src, types, values)
  {
    assert Copies(u.out[t], src[types], u.origin, LateOf(u.late, t));
    assert Copies(u.out[v], src[values], u.origin, LateOf(u.late, v));
    hide Copies, Consistent, Grew, Exact, WellFormedUnionVector;
    forall i | 0 <= i < |src[types].data|
      ensures ElementMeaning(u.out, u.out[t].data[i], u.out[v].values[i])
           == ElementMeaning(src, src[types].data[i], src[values].values[i])
    {
      var m := UnionMember(src[types].data[i]);
      if m.Some? {
        MembersRankBelowUnion(src[types].data[i]);
        CopyMeansTheSame(src, u.out, u.origin, u.late, TableKind(m.value), u.out[v].values[i]);
      }
    }
  }

  /** Unless a primitive fails, a union vector is cloned exactly if its values were cloned before or no element
      reads as NONE. */
  lemma ClonedUnlessNone(s: State, u: State, src: Store, types: Address, values: Address, t: Address, v: Address)
    requires WellFormedUnionVector(src, types, values) && UnionVectorCloned(s, u, src, types, values, t, v)
    requires u.budget > 0
    ensures t != 0 <==> s.Find(values) != 0 || FirstNone(src[types].data) == |src[types].data|
    ensures t == 0 ==> LeftOpen(s, u, FirstNone(src[types].data))
  {
    hide Consistent, Grew, Exact, FirstNone;
  }

  /** A vector of a single NONE is one of those that are not cloned: no failed primitive, two null references as for
      an absent vector, and an offset vector left open. */
  lemma SingleNone(s: State, u: State, t: Address, v: Address)
    requires s.Find(2) == 0 && u.budget > 0
    ensures var src := map[1 := Bytes([0]), 2 := UnionVec([0])];
      && WellFormedStore(src) && WellFormedUnionVector(src, 1, 2)
      && (UnionVectorCloned(s, u, src, 1, 2, t, v) ==> t == 0 && v == 0 && LeftOpen(s, u, 0))
  {
    var src := map[1 := Bytes([0]), 2 := UnionVec([0])];
    if UnionVectorCloned(s, u, src, 1, 2, t, v) {
      ClonedUnlessNone(s, u, src, 1, 2, t, v);
    }
  }
}
