/** The generated clone functions: schema-directed recursion with a memo of what was already cloned. */
module Clone {
  import opened Wrappers
  import opened Memory
  import opened Schema
  import opened Builders
  import opened Walks

  // ---------- What cloning keeps ----------

  /** Every emitted copy copies its origin, and every (non-null) refmap entry leads to a copy of its source. */
  ghost predicate Consistent(t: State, src: Store) {
    && t.Valid()
    && Simulates(src, t.out, t.origin, t.late)
    && (t.refmap.Some? ==>
          forall a :: a in t.refmap.value && t.refmap.value[a] != 0 ==>
            t.refmap.value[a] in t.origin && t.origin[t.refmap.value[a]] == a)
  }

  /** The refmap is the inverse of the origins but for the object `e`, the only copy of `a`. */
  ghost predicate ExactBut(t: State, e: Address, a: Address) {
    && t.refmap.Some?
    && (forall x :: x in t.refmap.value ==> t.refmap.value[x] != 0)
    && (forall r :: r in t.origin && r != e ==>
          t.origin[r] != a && t.origin[r] in t.refmap.value && t.refmap.value[t.origin[r]] == r)
  }

  /** The refmap is the inverse of the origins: every source object was copied at most once. */
  ghost predicate Exact(t: State) {
    && t.refmap.Some?
    && (forall x :: x in t.refmap.value ==> t.refmap.value[x] != 0)
    && (forall r :: r in t.origin ==> t.origin[r] in t.refmap.value && t.refmap.value[t.origin[r]] == r)
  }

  function RankAt(src: Store, a: Address): nat
    requires a in src
  {
    Rank(KindOf(src[a]))
  }

  /** From `s` to `t` nothing emitted was lost or changed, and only as many primitives as before can still succeed. */
  ghost predicate Extends(s: State, t: State) {
    && (forall r :: r in s.out ==> r in t.out && t.out[r] == s.out[r] && LateOf(t.late, r) == LateOf(s.late, r))
    && (forall r :: r in s.origin ==>
          r in t.origin && t.origin[r] == s.origin[r] && LateOf(t.late, r) == LateOf(s.late, r))
    && (t.refmap.Some? <==> s.refmap.Some?)
    && t.budget <= s.budget && t.moves == s.moves && t.residues == s.residues
  }

  /** The emitted object `r` is a copy of an object of a rank below `bound`. */
  ghost predicate IsNewCopy(s: State, t: State, src: Store, bound: nat, r: Address) {
    r in t.origin && r !in s.out && t.origin[r] in src && RankAt(src, t.origin[r]) < bound
  }

  /** Every new object is such a copy. */
  ghost predicate NewAreCopies(s: State, t: State, src: Store, bound: nat) {
    && (forall r :: r in t.out && r !in s.out ==> r in t.origin)
    && (forall r :: r in t.origin && r !in s.origin ==> IsNewCopy(s, t, src, bound, r))
  }

  /** From `s` to `t` the builder only gained copies of objects of a rank below `bound`. */
  ghost predicate Grew(s: State, t: State, src: Store, bound: nat) {
    Extends(s, t) && NewAreCopies(s, t, src, bound)
  }

  /** The outcome of cloning the object at `a`: a reference to a copy of it, or 0 after a failed primitive. */
  ghost predicate Cloned(s: State, t: State, src: Store, a: Address, r: Address)
    requires a in src
  {
    && Consistent(t, src) && Grew(s, t, src, RankAt(src, a) + 1)
    && (r != 0 ==>
          && r in t.origin && t.origin[r] == a
          && t.frames == s.frames
          && (Exact(s) ==> Exact(t)))
    && (r == 0 ==> t.budget == 0 && s.frames <= t.frames)
  }

  lemma CopiesGrow(o: Object, p: Object, origin: map<Address, Address>, origin': map<Address, Address>, late: Late)
    requires Copies(o, p, origin, late)
    requires forall r :: r in origin ==> r in origin' && origin'[r] == origin[r]
    ensures Copies(o, p, origin', late)
  {
    if o.Table? {
      forall id | id in o.fields
        ensures FieldCopiesBut(o.fields[id], p.fields[id], origin', id, late)
      {
        assert FieldCopiesBut(o.fields[id], p.fields[id], origin, id, late);
      }
    }
  }

  /** Emitting a copy of the object at `a` keeps every copy a copy. */
  lemma EmittedIsConsistent(s: State, t: State, src: Store, o: Object, late: Late, a: Address, r: Address)
    requires Consistent(s, src) && Emitted(s, t, o, late, Some(a), r) && a in src
    requires r != 0 ==> Copies(o, src[a], s.origin, late)
    ensures Consistent(t, src)
  {
    if r != 0 {
      forall x | x in t.origin
        ensures x in t.out && t.origin[x] in src && Copies(t.out[x], src[t.origin[x]], t.origin, LateOf(t.late, x))
      {
        if x != r {
          assert Copies(t.out[x], src[t.origin[x]], s.origin, LateOf(s.late, x));
        }
        CopiesGrow(t.out[x], src[t.origin[x]], s.origin, t.origin, LateOf(t.late, x));
      }
    }
  }

  lemma LateIsKept(t: State, u: State, o: Object, late: Late, from: Option<Address>, r: Address)
    requires t.Valid() && Emitted(t, u, o, late, from, r)
    ensures forall x :: x in t.out ==> LateOf(u.late, x) == LateOf(t.late, x)
    ensures r != 0 ==> LateOf(u.late, r) == late
  {
  }

  lemma EmittedExtends(s: State, t: State, u: State, o: Object, late: Late, a: Address, r: Address)
    requires t.Valid() && Extends(s, t) && Emitted(t, u, o, late, Some(a), r)
    ensures Extends(s, u)
    ensures forall x :: x in t.origin ==>
      x in u.origin && u.origin[x] == t.origin[x] && LateOf(u.late, x) == LateOf(t.late, x)
    ensures r != 0 ==> LateOf(u.late, r) == late
  {
    LateIsKept(t, u, o, late, Some(a), r);
    hide LateOf;
  }

  /** From `s` over `t` to the emission of a copy of the object at `a`. */
  lemma EmittedGrew(s: State, t: State, u: State, src: Store, o: Object, late: Late, a: Address, r: Address)
    requires a in src && t.Valid() && Grew(s, t, src, RankAt(src, a))
    requires Emitted(t, u, o, late, Some(a), r)
    ensures Grew(s, u, src, RankAt(src, a) + 1)
    ensures forall x :: x in t.origin ==> x in u.origin && u.origin[x] == t.origin[x]
  {
    hide RankAt;
    EmittedExtends(s, t, u, o, late, a, r);
    hide LateOf;
    assert Extends(s, t) && Extends(s, u);
    forall x | x in u.origin && x !in s.origin
      ensures IsNewCopy(s, u, src, RankAt(src, a) + 1, x)
    {
      if x in t.origin {
        assert IsNewCopy(s, t, src, RankAt(src, a), x);
      } else {
        assert x == r && x !in t.out;
      }
    }
    hide IsNewCopy, RankAt;
  }

  /** An address the refmap does not know has no copy yet, so its first copy is its only one. */
  lemma FirstCopyIsOnlyCopy(s: State, t: State, src: Store, o: Object, late: Late, a: Address, r: Address)
    requires Consistent(s, src) && Emitted(s, t, o, late, Some(a), r) && r != 0
    requires Exact(s) && s.Find(a) == 0
    ensures ExactBut(t, r, a)
  {
  }

  lemma GrewTrans(s: State, t: State, u: State, src: Store, bound: nat, bound': nat)
    requires Grew(s, t, src, bound) && Grew(t, u, src, bound') && bound <= bound'
    ensures Grew(s, u, src, bound')
  {
    hide LateOf, RankAt;
    forall r | r in u.origin && r !in s.origin
      ensures IsNewCopy(s, u, src, bound', r)
    {
      if r in t.origin {
        assert IsNewCopy(s, t, src, bound, r);
      } else {
        assert IsNewCopy(t, u, src, bound', r);
      }
    }
    hide IsNewCopy;
  }

  lemma GrewMore(s: State, t: State, src: Store, bound: nat, bound': nat)
    requires Grew(s, t, src, bound) && bound <= bound'
    ensures Grew(s, t, src, bound')
  {
    hide LateOf, RankAt;
    forall r | r in t.origin && r !in s.origin
      ensures IsNewCopy(s, t, src, bound', r)
    {
      assert IsNewCopy(s, t, src, bound, r);
    }
    hide IsNewCopy;
  }

  lemma GrewNothing(s: State, src: Store, bound: nat)
    ensures Grew(s, s, src, bound)
  {
  }

  /** Cloning objects of lower rank does not memoise `a`. */
  lemma StillUnknown(s: State, t: State, src: Store, a: Address)
    requires Consistent(s, src) && Exact(s) && s.Find(a) == 0
    requires a in src && Consistent(t, src) && Grew(s, t, src, RankAt(src, a))
    ensures t.refmap.Some? ==> t.Find(a) == 0
  {
  }

  lemma ConsistentIsValid(t: State, src: Store)
    requires Consistent(t, src)
    ensures t.Valid()
  {
  }

  /** From `s`, where `a` was unknown, over `t`, where everything below `a` is cloned, to the emitted copy of `a`. */
  lemma CopyEmitted(s: State, t: State, u: State, src: Store, o: Object, late: Late, a: Address, e: Address)
    requires a in src && Consistent(s, src) && s.Find(a) == 0
    requires Consistent(t, src) && Grew(s, t, src, RankAt(src, a)) && (Exact(s) ==> Exact(t))
    requires Emitted(t, u, o, late, Some(a), e) && (e != 0 ==> Copies(o, src[a], t.origin, late))
    ensures Consistent(u, src) && Grew(s, u, src, RankAt(src, a) + 1)
    ensures e != 0 && Exact(s) ==> ExactBut(u, e, a)
    ensures if e == 0 then u.budget == 0 else e in u.origin && u.origin[e] == a
    ensures forall x :: x in t.origin ==> x in u.origin && u.origin[x] == t.origin[x]
  {
    hide Consistent, Exact, Grew, ExactBut, Copies;
    EmittedIsConsistent(t, u, src, o, late, a, e);
    ConsistentIsValid(t, src);
    EmittedGrew(s, t, u, src, o, late, a, e);
    if e != 0 && Exact(s) {
      StillUnknown(s, t, src, a);
      assert t.refmap.Some? ==> t.Find(a) == 0;
      FirstCopyIsOnlyCopy(t, u, src, o, late, a, e);
    }
  }

  // ---------- What cloning spends ----------

  /** The clone of the object at `a` succeeded exactly if enough primitives did, spent and memoised what its walk says,
      and lost the union type its walk says. */
  ghost predicate Walked(s: State, t: State, src: Store, a: Address, r: Address)
    requires a in src
  {
    var v := Walk(src, KindOf(src[a]), a, CourseOf(s));
    if r == 0 then v.course.left < 0 else v == Visit(CourseOf(t), LateOf(t.late, r))
  }

  lemma MemoisedIsWalked(s: State, src: Store, a: Address)
    requires a in src && s.Find(a) != 0
    ensures Walked(s, s, src, a, s.Find(a))
  {
    assert CourseOf(s).Knows(a);
  }

  lemma NotStartedIsWalked(s: State, t: State, src: Store, a: Address)
    requires a in src && !src[a].UnionVec? && s.Find(a) == 0 && s.budget == 0
    ensures Walked(s, t, src, a, 0)
  {
    hide WalkPicks, WalkElements;
    assert !CourseOf(s).Knows(a);
  }

  lemma FramesKeepCourse(t: State, u: State)
    requires OnlyFrames(t, u)
    ensures CourseOf(u) == CourseOf(t).(left := u.budget)
  {
  }

  lemma EmittedCourse(t: State, u: State, src: Store, o: Object, late: Late, from: Option<Address>, e: Address)
    requires Consistent(t, src) && Emitted(t, u, o, late, from, e) && e != 0
    ensures CourseOf(u) == CourseOf(t).Spend(1) && LateOf(u.late, e) == late
  {
    hide Simulates;
    if t.refmap.Some? {
      forall x | x in t.refmap.value && t.refmap.value[x] != 0
        ensures LateOf(u.late, t.refmap.value[x]) == LateOf(t.late, t.refmap.value[x])
      {
        assert t.refmap.value[x] in t.out;
      }
      assert KnownTo(u).value == KnownTo(t).value;
    }
  }

  /** `__flatbuffers_memoize_end` of the emitted reference `e` to a copy of the object at `a`. */
  ghost predicate Kept(u: State, w: State, a: Address, e: Address, r: Address) {
    if e == 0 || (u.refmap.Some? && u.budget == 0) then r == 0 else
    && r == e
    && w == if u.refmap.None? then u
            else u.(refmap := Some(u.refmap.value[a := e]), budget := u.budget - 1)
  }

  lemma KeptCourse(u: State, w: State, a: Address, e: Address, r: Address)
    requires Kept(u, w, a, e, r) && r != 0
    ensures Visit(CourseOf(w), LateOf(w.late, r)) == Visit(CourseOf(u), LateOf(u.late, e)).Memoised(a)
  {
    if u.refmap.Some? {
      assert KnownTo(w).value == KnownTo(u).value[a := LateOf(u.late, e)];
    }
  }

  /** The end of a clone, from the state `t` in which all parts are cloned: the copy is emitted and memoised. */
  ghost predicate Ended(t: State, w: State, late: Late, a: Address, r: Address) {
    var v := Visit(CourseOf(t).Spend(1), late).Memoised(a);
    if r == 0 then v.course.left < 0 else v == Visit(CourseOf(w), LateOf(w.late, r))
  }

  lemma CopyEnds(t: State, u: State, w: State, src: Store, o: Object, late: Late, a: Address, e: Address, r: Address)
    requires Consistent(t, src) && Emitted(t, u, o, late, Some(a), e) && Kept(u, w, a, e, r)
    ensures Ended(t, w, late, a, r)
  {
    if e != 0 {
      EmittedCourse(t, u, src, o, late, Some(a), e);
      if r != 0 {
        hide Consistent, Emitted, Kept;
        KeptCourse(u, w, a, e, r);
      }
    }
  }

  /** The clone of a string or a byte vector. */
  lemma LeafIsWalked(s: State, w: State, src: Store, a: Address, r: Address)
    requires a in src && (src[a].Str? || src[a].Bytes?) && s.Find(a) == 0 && Ended(s, w, map[], a, r)
    ensures Walked(s, w, src, a, r)
  {
    assert !CourseOf(s).Knows(a);
  }

  /** The memo entry closes the invariant, or fails with 0. */
  lemma KeptIsCloned(s: State, u: State, w: State, src: Store, a: Address, e: Address, r: Address)
    requires a in src && a != 0 && Consistent(u, src) && Grew(s, u, src, RankAt(src, a) + 1)
    requires e == 0 ==> u.budget == 0 && s.frames <= u.frames
    requires e != 0 ==> e in u.origin && u.origin[e] == a && u.frames == s.frames
    requires e != 0 && Exact(s) ==> ExactBut(u, e, a)
    requires Kept(u, w, a, e, r) && (r == 0 ==> w == u)
    ensures Cloned(s, w, src, a, r)
  {
    hide Simulates, NewAreCopies;
    assert Extends(s, w);
    assert NewAreCopies(s, w, src, RankAt(src, a) + 1) by { KeptAreCopies(s, u, w, src, RankAt(src, a) + 1); }
  }

  lemma KeptAreCopies(s: State, u: State, w: State, src: Store, bound: nat)
    requires NewAreCopies(s, u, src, bound) && w.out == u.out && w.origin == u.origin
    ensures NewAreCopies(s, w, src, bound)
  {
    forall r | r in w.origin && r !in s.origin
      ensures IsNewCopy(s, w, src, bound, r)
    {
      assert IsNewCopy(s, u, src, bound, r);
    }
  }

  /** `__flatbuffers_memoize_end` of the emitted reference `e`; `s` is the state in which cloning `a` began. */
  method Memoize(b: Builder, src: Store, a: Address, e: Address, ghost s: State) returns (r: Address)
    requires a in src && a != 0 && Consistent(b.Get(), src) && Grew(s, b.Get(), src, RankAt(src, a) + 1)
    requires e == 0 ==> b.budget == 0 && s.frames <= b.frames
    requires e != 0 ==> e in b.origin && b.origin[e] == a && b.frames == s.frames
    requires e != 0 && Exact(s) ==> ExactBut(b.Get(), e, a)
    modifies b`refmap, b`budget
    ensures Cloned(s, b.Get(), src, a, r) && Kept(old(b.Get()), b.Get(), a, e, r)
  {
    hide Consistent, Grew, Exact, ExactBut, Cloned;
    ghost var u := b.Get();
    r := b.RefmapInsert(a, e);
    KeptIsCloned(s, u, b.Get(), src, a, e, r);
  }

  // ---------- Strings and byte vectors ----------

  /** `flatbuffers_string_clone`. */
  method CloneString(b: Builder, src: Store, a: Address) returns (r: Address)
    requires Consistent(b.Get(), src) && Leads(src, StringKind, a)
    modifies b
    ensures Cloned(old(b.Get()), b.Get(), src, a, r) && Walked(old(b.Get()), b.Get(), src, a, r)
  {
    ghost var s := b.Get();
    GrewNothing(s, src, RankAt(src, a));
    GrewNothing(s, src, RankAt(src, a) + 1);
    r := b.RefmapFind(a);
    if r != 0 {
      MemoisedIsWalked(s, src, a);
      return;
    }
    hide Consistent, Exact, Grew, ExactBut, Cloned, Walked, Ended;
    var e := b.CreateString(src[a].chars, Some(a));
    ghost var u := b.Get();
    CopyEmitted(s, s, u, src, Str(src[a].chars), map[], a, e);
    r := Memoize(b, src, a, e, s);
    CopyEnds(s, u, b.Get(), src, Str(src[a].chars), map[], a, e, r);
    LeafIsWalked(s, b.Get(), src, a, r);
  }

  /** `flatbuffers_uint8_vec_clone`. */
  method CloneBytes(b: Builder, src: Store, a: Address) returns (r: Address)
    requires Consistent(b.Get(), src) && Leads(src, BytesKind, a)
    modifies b
    ensures Cloned(old(b.Get()), b.Get(), src, a, r) && Walked(old(b.Get()), b.Get(), src, a, r)
  {
    ghost var s := b.Get();
    GrewNothing(s, src, RankAt(src, a));
    GrewNothing(s, src, RankAt(src, a) + 1);
    r := b.RefmapFind(a);
    if r != 0 {
      MemoisedIsWalked(s, src, a);
      return;
    }
    hide Consistent, Exact, Grew, ExactBut, Cloned, Walked, Ended;
    var e := b.CreateVector(src[a].data, Some(a));
    ghost var u := b.Get();
    CopyEmitted(s, s, u, src, Bytes(src[a].data), map[], a, e);
    r := Memoize(b, src, a, e, s);
    CopyEnds(s, u, b.Get(), src, Bytes(src[a].data), map[], a, e, r);
    LeafIsWalked(s, b.Get(), src, a, r);
  }

  // ---------- Tables ----------

  /** The fields one pick is responsible for. */
  function Covered(ty: TableType, id: nat): set<nat> {
    if ty == Message && id == 1 then {0, 1} else {id}
  }

  function CoveredUpTo(ty: TableType, n: nat): set<nat>
    requires n <= |PickOrder(ty)|
  {
    set j, id | 0 <= j < n && id in Covered(ty, PickOrder(ty)[j]) :: id
  }

  /** Each field of the schema is picked by exactly one pick. */
  lemma PicksPartitionFields(ty: TableType)
    ensures forall id: nat :: id in CoveredUpTo(ty, |PickOrder(ty)|) <==> id < |Fields(ty)|
    ensures forall i :: 0 <= i < |PickOrder(ty)| ==>
      PickOrder(ty)[i] < |Fields(ty)| && Covered(ty, PickOrder(ty)[i]) !! CoveredUpTo(ty, i)
  {
    var o := PickOrder(ty);
    forall id | 0 <= id < |Fields(ty)|
      ensures id in CoveredUpTo(ty, |o|)
    {
      var j := match ty
        case CheckContract => [0, 3, 4, 1, 5, 7, 2, 6][id]
        case Message => [0, 0, 2, 1][id]
        case _ => id;
      assert id in Covered(ty, o[j]);
    }
  }

  /** The bytes a field takes in its table. */
  function FieldSize(ty: TableType, id: nat): nat {
    match ty
    case CheckContract => if id in {0, 3, 6} then 8 else if id == 5 then 1 else 4
    case GetMe => if id == 4 then 1 else 4
    case Message => if id == 2 then 1 else 4
    case _ => 4
  }

  /** The larger fields are picked first, fields of one size in the order of the schema. */
  lemma PicksBySize(ty: TableType, i: nat, j: nat)
    requires i < j < |PickOrder(ty)|
    ensures var a, b := PickOrder(ty)[i], PickOrder(ty)[j];
      FieldSize(ty, a) > FieldSize(ty, b) || (FieldSize(ty, a) == FieldSize(ty, b) && a < b)
  {
    match ty
    case CheckContract =>
    case _ =>
  }

  /** `fs'` is `fs` with copies of the fields `ids` of the source table added. */
  ghost predicate Adds(fs: map<nat, Field>, fs': map<nat, Field>, ids: set<nat>, gs: map<nat, Field>,
                       origin: map<Address, Address>, late: Late)
    requires ids <= gs.Keys
  {
    && fs'.Keys == fs.Keys + ids
    && (forall id :: id in fs ==> fs'[id] == fs[id])
    && (forall id :: id in ids ==> FieldCopiesBut(fs'[id], gs[id], origin, id, late))
  }

  /** The pick of this field adds a union. */
  predicate PicksUnion(ty: TableType, id: nat, gs: map<nat, Field>) {
    ty == Message && id == 1 && UnionMember(UnionType(gs)).Some?
  }

  /** Only the union type of the open table can have been stored too late. */
  ghost predicate LateIsType(f: Frame) {
    f.TableFrame? && f.late.Keys <= f.fields.Keys * LateFields(f.ty)
  }

  /** The outcome of picking field `id` of a source table with fields `gs` into the open table: 0 or -1. */
  ghost predicate Picked(s: State, t: State, src: Store, gs: map<nat, Field>, id: nat, rc: int)
    requires s.frames != [] && s.Top().TableFrame?
  {
    var ty := s.Top().ty;
    && Consistent(t, src) && Grew(s, t, src, TableRank(ty))
    && (rc == 0 ==>
          && t.frames != [] && t.Top().TableFrame? && t.Top().ty == ty && t.Below() == s.Below()
          && Adds(s.Top().fields, t.Top().fields, Covered(ty, id) * Visible(ty, gs), gs, t.origin, t.Top().late)
          && (if PicksUnion(ty, id, gs) then t.Top().late.Keys <= {0} else t.Top().late == s.Top().late)
          && (Exact(s) ==> Exact(t)))
    && (rc != 0 ==> t.budget == 0 && s.Below() <= t.frames)
  }

  /** The pick succeeded exactly if enough primitives did, and did what its walk says. */
  ghost predicate PickWalked(s: State, t: State, src: Store, gs: map<nat, Field>, id: nat, rc: int)
    requires s.frames != [] && s.Top().TableFrame?
  {
    var v := WalkPick(src, s.Top().ty, gs, id, CourseOf(s));
    if rc != 0 then v.course.left < 0 else
    && v.course == CourseOf(t)
    && t.frames != [] && t.Top().TableFrame? && t.Top().late == s.Top().late + v.late
  }

  /** A step that changes the open frames only. */
  ghost predicate OnlyFrames(t: State, u: State) {
    u == t.(frames := u.frames, budget := u.budget, moved := u.moved) && u.budget <= t.budget
  }

  lemma OnlyFramesKeeps(s: State, t: State, u: State, src: Store, bound: nat)
    requires Consistent(t, src) && Grew(s, t, src, bound) && OnlyFrames(t, u)
    ensures Consistent(u, src) && Grew(s, u, src, bound) && (Exact(t) ==> Exact(u))
  {
  }

  /** Adding a field to the open table after the object it refers to, if any, was cloned. */
  lemma AddedIsPicked(s: State, t: State, u: State, src: Store, gs: map<nat, Field>, id: nat, f: Field, rc: int)
    requires s.frames != [] && s.Top().TableFrame? && t.frames == s.frames && OnlyFrames(t, u)
    requires Consistent(t, src) && Grew(s, t, src, TableRank(s.Top().ty)) && (Exact(s) ==> Exact(t))
    requires Covered(s.Top().ty, id) * Visible(s.Top().ty, gs) == {id} && id in gs && FieldCopies(f, gs[id], t.origin)
    requires id !in s.Top().fields && LateIsType(s.Top()) && !PicksUnion(s.Top().ty, id, gs)
    requires if rc == 0 then u.frames == s.Below() + [s.Top().(fields := s.Top().fields[id := f])]
             else u.budget == 0 && u.frames == t.frames
    ensures Picked(s, u, src, gs, id, rc)
  {
    hide Consistent, Grew, Exact, FieldCopies;
    OnlyFramesKeeps(s, t, u, src, TableRank(s.Top().ty));
  }

  lemma {:induction false} ScalarIsWalked(s: State, u: State, src: Store, gs: map<nat, Field>, id: nat, rc: int)
    requires s.frames != [] && s.Top().TableFrame? && OnlyFrames(s, u) && (rc == 0 <==> s.budget > 0)
    requires id in gs && id < |Fields(s.Top().ty)| && Fields(s.Top().ty)[id].ScalarField?
    requires rc == 0 ==>
      u.budget == s.budget - 1 && u.frames != [] && u.Top().TableFrame? && u.Top().late == s.Top().late
    ensures PickWalked(s, u, src, gs, id, rc)
  {
    FramesKeepCourse(s, u);
    hide Fields;
  }

  /** Cloning what a field refers to, and adding it. */
  lemma {:induction false} ReferenceIsWalked(s: State, t: State, u: State, src: Store, gs: map<nat, Field>, id: nat,
                                             r: Address, rc: int)
    requires s.frames != [] && s.Top().TableFrame? && OnlyFrames(t, u)
    requires id in gs && gs[id].Ref? && id < |Fields(s.Top().ty)| && Fields(s.Top().ty)[id].RefField?
    requires gs[id].to in src && KindOf(src[gs[id].to]) == Fields(s.Top().ty)[id].kind
    requires Walked(s, t, src, gs[id].to, r) && (rc == 0 <==> r != 0 && t.budget > 0)
    requires rc == 0 ==>
      u.budget == t.budget - 1 && u.frames != [] && u.Top().TableFrame? && u.Top().late == s.Top().late
    ensures PickWalked(s, u, src, gs, id, rc)
  {
    FramesKeepCourse(t, u);
    hide Fields, Walk, OnlyFrames, KnownTo;
  }

  /** A field that is not stored is picked by doing nothing. */
  lemma AbsentIsPicked(s: State, src: Store, gs: map<nat, Field>, id: nat)
    requires s.frames != [] && s.Top().TableFrame? && Consistent(s, src)
    requires Covered(s.Top().ty, id) * Visible(s.Top().ty, gs) == {} && !PicksUnion(s.Top().ty, id, gs)
    ensures Picked(s, s, src, gs, id, 0)
  {
    hide Consistent, Exact;
    GrewNothing(s, src, TableRank(s.Top().ty));
  }

  /** A clone that failed fails the pick. */
  lemma FailedIsPicked(s: State, t: State, src: Store, gs: map<nat, Field>, id: nat, bound: nat)
    requires s.frames != [] && s.Top().TableFrame? && bound <= TableRank(s.Top().ty)
    requires Consistent(t, src) && Grew(s, t, src, bound) && t.budget == 0 && s.Below() <= t.frames
    ensures Picked(s, t, src, gs, id, -1)
  {
    hide Consistent, Exact;
  }

  /** A finished clone, as a step of the clone of an object of higher rank. */
  lemma ClonedBelow(s: State, t: State, src: Store, a: Address, r: Address, bound: nat)
    requires a in src && Cloned(s, t, src, a, r) && RankAt(src, a) < bound
    ensures Consistent(t, src) && Grew(s, t, src, bound)
    ensures r != 0 ==> t.frames == s.frames && (Exact(s) ==> Exact(t)) && FieldCopies(Ref(r), Ref(a), t.origin)
    ensures r == 0 ==> t.budget == 0 && s.frames <= t.frames
  {
    hide Consistent, Exact;
  }

  /** An ordinary field is picked alone. */
  lemma PickOfField(ty: TableType, gs: map<nat, Field>, id: nat)
    requires id in PickOrder(ty) && id < |Fields(ty)| && !Fields(ty)[id].UnionValueField?
    ensures !PicksUnion(ty, id, gs)
    ensures Fields(ty)[id].ScalarField? || (Fields(ty)[id].RefField? && Fields(ty)[id].kind != UnionValuesKind)
    ensures Covered(ty, id) * Visible(ty, gs) == if id in gs then {id} else {}
    ensures RefKind(ty, gs, id) == if Fields(ty)[id].RefField? then Some(Fields(ty)[id].kind) else None
  {
  }

  lemma PickOfUnion(ty: TableType, id: nat)
    requires id < |Fields(ty)| && Fields(ty)[id].UnionValueField?
    ensures ty == Message && id == 1
  {
  }

  /** What a stored, visible field of a well-formed table holds. */
  lemma FieldLeads(src: Store, ty: TableType, gs: map<nat, Field>, id: nat)
    requires WellFormed(src, Table(ty, gs)) && id in Visible(ty, gs)
    ensures var k := RefKind(ty, gs, id);
      if k.Some? then gs[id].Ref? && Leads(src, k.value, gs[id].to) else gs[id].Scalar?
  {
  }

  lemma {:induction false} NothingIsWalked(s: State, src: Store, gs: map<nat, Field>, id: nat)
    requires s.frames != [] && s.Top().TableFrame? && id < |Fields(s.Top().ty)|
    requires id !in gs || (Fields(s.Top().ty)[id].UnionValueField? && UnionMember(UnionType(gs)).None?)
    ensures PickWalked(s, s, src, gs, id, 0)
  {
    hide Fields, UnionMember;
  }

  /** The generated `X_field_pick`: a missing field is left missing, a stored one is copied, default or not. */
  method Pick(b: Builder, src: Store, ty: TableType, gs: map<nat, Field>, id: nat) returns (rc: int)
    requires Consistent(b.Get(), src) && WellFormedStore(src) && WellFormed(src, Table(ty, gs))
    requires b.frames != [] && b.Get().Top().TableFrame? && b.Get().Top().ty == ty
    requires id in PickOrder(ty) && Covered(ty, id) !! b.Get().Top().fields.Keys && LateIsType(b.Get().Top())
    modifies b
    ensures Picked(old(b.Get()), b.Get(), src, gs, id, rc)
    ensures PickWalked(old(b.Get()), b.Get(), src, gs, id, rc)
    decreases TableRank(ty), 1
  {
    hide Consistent, Grew, Exact, Picked, Cloned, Fields, PickOrder, WellFormed, WellFormedStore, Visible, RefKind;
    hide PicksUnion, LateIsType, Walked, PickWalked;
    PicksPartitionFields(ty);
    ghost var s := b.Get();
    var kind := Fields(ty)[id];
    if kind.UnionValueField? {
      PickOfUnion(ty, id);
      rc := PickUnion(b, src, gs);
      return;
    }
    PickOfField(ty, gs, id);
    if id !in gs {
      AbsentIsPicked(s, src, gs, id);
      NothingIsWalked(s, src, gs, id);
      return 0;
    }
    FieldLeads(src, ty, gs, id);
    if kind.ScalarField? {
      GrewNothing(s, src, TableRank(ty));
      rc := b.TableAdd(id, gs[id]);
      AddedIsPicked(s, s, b.Get(), src, gs, id, gs[id], rc);
      ScalarIsWalked(s, b.Get(), src, gs, id, rc);
    } else {
      var r := CloneReference(b, src, kind.kind, gs[id].to);
      ghost var t := b.Get();
      ClonedBelow(s, t, src, gs[id].to, r, TableRank(ty));
      if r == 0 {
        FailedIsPicked(s, t, src, gs, id, TableRank(ty));
        FramesOnly(t, t);
        ReferenceIsWalked(s, t, t, src, gs, id, r, -1);
        return -1;
      }
      rc := b.TableAdd(id, Ref(r));
      AddedIsPicked(s, t, b.Get(), src, gs, id, Ref(r), rc);
      ReferenceIsWalked(s, t, b.Get(), src, gs, id, r, rc);
    }
  }

  lemma UnionFields(src: Store, gs: map<nat, Field>)
    requires WellFormed(src, Table(Message, gs))
    ensures var m := UnionMember(UnionType(gs));
      if m.None? then {0, 1} * Visible(Message, gs) == {} && !PicksUnion(Message, 1, gs)
      else
        && {0, 1} <= Visible(Message, gs) && {0, 1} <= gs.Keys && PicksUnion(Message, 1, gs)
        && gs[0] == Scalar(UnionType(gs)) && UnionType(gs) != 0
        && gs[1].Ref? && Leads(src, TableKind(m.value), gs[1].to) && TableRank(m.value) < TableRank(Message)
  {
    var m := UnionMember(UnionType(gs));
    if m.Some? {
      assert RefKind(Message, gs, 1) == Some(TableKind(m.value));
      FieldLeads(src, Message, gs, 1);
    }
  }

  /** The open message after its union was added. The add of the value may move the stack; the type, added before it
      and stored after it, then keeps the byte its field held. */
  function UnionAdded(s: State, utype: int, value: Address): Frame
    requires s.frames != [] && s.Top().TableFrame?
  {
    var top, residue := s.Top(), Residue(s.residues, s.budget);
    if s.budget - 1 in s.moves then
      TableFrame(top.ty, top.fields[0 := Scalar(residue)][1 := Ref(value)], top.late[0 := residue])
    else
      TableFrame(top.ty, top.fields[0 := Scalar(utype)][1 := Ref(value)], top.late)
  }

  lemma StoredTwice(fields: map<nat, Field>, f0: Field, f1: Field, g0: Field, g1: Field)
    ensures fields[0 := f0][1 := f1][0 := g0][1 := g1] == fields[0 := g0][1 := g1]
    ensures fields[0 := f0][1 := f1][1 := g1] == fields[0 := f0][1 := g1]
  {
  }

  /** `Message_msg_add`: both adds come before both stores. */
  method AddUnion(b: Builder, utype: int, value: Address) returns (rc: int)
    requires b.frames != [] && b.Get().Top().TableFrame? && b.Get().Top().ty == Message
    requires {0, 1} !! b.Get().Top().fields.Keys
    modifies b`frames, b`budget, b`moved
    ensures utype == 0 ==> rc == 0 && b.Get() == old(b.Get())
    ensures utype != 0 && value == 0 ==> rc == -1 && b.Get() == old(b.Get())
    ensures utype != 0 && value != 0 ==>
      if old(b.budget) >= 2
      then
        && rc == 0 && b.budget == old(b.budget) - 2
        && b.frames == old(b.Get().Below()) + [UnionAdded(old(b.Get()), utype, value)]
      else rc == -1 && b.budget == 0 && b.frames != [] && b.Get().Below() == old(b.Get().Below())
  {
    if utype == 0 { return 0; }
    if value == 0 { return -1; }
    MessageFields();
    hide Fields, Residue;
    ghost var s := b.Get();
    var typeSlot := b.AddSlot(0);
    if typeSlot.Null? { return -1; }
    var valueSlot := b.AddSlot(1);
    if valueSlot.Null? { return -1; }
    ghost var x, y := Residue(s.residues, s.budget), Residue(s.residues, s.budget - 1);
    StoreUnion(b, typeSlot, valueSlot, utype, value, s, x, y);
    rc := 0;
  }

  /** Both stores, after both adds. */
  method StoreUnion(b: Builder, typeSlot: Slot, valueSlot: Slot, utype: int, value: Address,
                    ghost s: State, ghost x: byte, ghost y: byte)
    requires s.frames != [] && s.Top().TableFrame? && typeSlot.Slot? && typeSlot.id == 0
    requires valueSlot == Slot(1, b.moved)
    requires b.frames == s.Below() + [s.Top().(fields := s.Top().fields[0 := Scalar(x)][1 := Scalar(y)])]
    modifies b`frames
    ensures var top := s.Top();
      b.frames == s.Below() + [
        if typeSlot.moved == b.moved then top.(fields := top.fields[0 := Scalar(utype)][1 := Ref(value)])
        else top.(fields := top.fields[0 := Scalar(x)][1 := Ref(value)], late := top.late[0 := x])]
  {
    StoredTwice(s.Top().fields, Scalar(x), Scalar(y), Scalar(utype), Ref(value));
    b.StoreThrough(typeSlot, Scalar(utype));
    b.StoreThrough(valueSlot, Ref(value));
  }

  /** Adding type and value of the union after its table was cloned. */
  lemma UnionIsPicked(s: State, t: State, u: State, src: Store, gs: map<nat, Field>, r: Address)
    requires s.frames != [] && s.Top().TableFrame? && s.Top().ty == Message && t.frames == s.frames && OnlyFrames(t, u)
    requires {0, 1} !! s.Top().fields.Keys && LateIsType(s.Top()) && PicksUnion(Message, 1, gs)
    requires Consistent(t, src) && Grew(s, t, src, TableRank(Message)) && (Exact(s) ==> Exact(t)) && t.budget >= 2
    requires {0, 1} <= Visible(Message, gs) && gs[0] == Scalar(UnionType(gs)) && FieldCopies(Ref(r), gs[1], t.origin)
    requires u.frames == t.Below() + [UnionAdded(t, UnionType(gs), r)]
    ensures Picked(s, u, src, gs, 1, 0)
  {
    OnlyFramesKeeps(s, t, u, src, TableRank(Message));
    TypeIsLate(t, UnionType(gs), r);
    UnionAdds(t, gs, r);
    assert Covered(Message, 1) * Visible(Message, gs) == {0, 1};
    hide Consistent, Grew, Exact, Visible, Fields, UnionMember, UnionType, Adds, UnionAdded;
    hide LateIsType, PicksUnion;
  }

  lemma {:induction false} WalkOfUnion(src: Store, gs: map<nat, Field>, c: Course)
    requires UnionMember(UnionType(gs)).Some? && 1 in gs && gs[1].Ref?
    ensures var d := Walk(src, TableKind(UnionMember(UnionType(gs)).value), gs[1].to, c).course;
      WalkPick(src, Message, gs, 1, c)
      == Visit(d.Spend(2), if d.left - 1 in d.moves then map[0 := Residue(d.residues, d.left)] else map[])
  {
    assert RefKind(Message, gs, 1) == Some(TableKind(UnionMember(UnionType(gs)).value));
    hide Walk, UnionMember, UnionType, RefKind, Residue;
  }

  lemma UnionAddedLate(s: State, t: State, utype: int, r: Address)
    requires s.frames != [] && s.Top().TableFrame? && t.frames == s.frames
    ensures UnionAdded(t, utype, r).TableFrame?
    ensures UnionAdded(t, utype, r).late
         == s.Top().late + if t.budget - 1 in t.moves then map[0 := Residue(t.residues, t.budget)] else map[]
  {
  }

  /** Cloning the table of a union, and adding type and value. */
  lemma {:induction false} UnionIsWalked(s: State, t: State, u: State, src: Store, gs: map<nat, Field>, r: Address,
                                         rc: int)
    requires s.frames != [] && s.Top().TableFrame? && s.Top().ty == Message && OnlyFrames(t, u)
    requires UnionMember(UnionType(gs)).Some? && 1 in gs && gs[1].Ref?
    requires gs[1].to in src && KindOf(src[gs[1].to]) == TableKind(UnionMember(UnionType(gs)).value)
    requires Walked(s, t, src, gs[1].to, r) && (rc == 0 <==> r != 0 && t.budget >= 2)
    requires rc == 0 ==>
      && t.frames == s.frames && u.budget == t.budget - 2
      && u.frames != [] && u.Top() == UnionAdded(t, UnionType(gs), r)
    ensures PickWalked(s, u, src, gs, 1, rc)
  {
    FramesKeepCourse(t, u);
    WalkOfUnion(src, gs, CourseOf(s));
    if rc == 0 { UnionAddedLate(s, t, UnionType(gs), r); }
    hide Walk, WalkPick, UnionMember, UnionType, OnlyFrames, KnownTo, Residue, UnionAdded, KindOf, LateOf;
  }

  lemma UnionAdds(t: State, gs: map<nat, Field>, r: Address)
    requires t.frames != [] && t.Top().TableFrame? && t.Top().ty == Message
    requires {0, 1} !! t.Top().fields.Keys && LateIsType(t.Top()) && {0, 1} <= gs.Keys
    requires gs[0] == Scalar(UnionType(gs)) && FieldCopies(Ref(r), gs[1], t.origin)
    ensures var f := UnionAdded(t, UnionType(gs), r);
      && f.TableFrame? && f.ty == Message
      && Adds(t.Top().fields, f.fields, {0, 1}, gs, t.origin, f.late)
  {
    hide UnionType, Fields, Visible;
    assert t.Top().late == map[];
  }

  lemma TypeIsLate(t: State, utype: int, r: Address)
    requires t.frames != [] && t.Top().TableFrame? && t.Top().ty == Message
    requires {0, 1} !! t.Top().fields.Keys && LateIsType(t.Top())
    ensures UnionAdded(t, utype, r).late.Keys <= {0}
  {
    assert t.Top().late == map[];
  }

  /** `Message_msg_pick`, with `MessageType_clone`: a union of type NONE or of an unknown type is left out; the type of
      any other is lost if the add of its value moves the stack. */
  method PickUnion(b: Builder, src: Store, gs: map<nat, Field>) returns (rc: int)
    requires Consistent(b.Get(), src) && WellFormedStore(src) && WellFormed(src, Table(Message, gs))
    requires b.frames != [] && b.Get().Top().TableFrame? && b.Get().Top().ty == Message
    requires {0, 1} !! b.Get().Top().fields.Keys && LateIsType(b.Get().Top())
    modifies b
    ensures Picked(old(b.Get()), b.Get(), src, gs, 1, rc)
    ensures PickWalked(old(b.Get()), b.Get(), src, gs, 1, rc)
    decreases TableRank(Message), 0
  {
    hide Consistent, Grew, Exact, Picked, Cloned, WellFormed, WellFormedStore, Visible, UnionMember, UnionType;
    hide PicksUnion, LateIsType, UnionAdded, Walked, PickWalked;
    ghost var s := b.Get();
    UnionFields(src, gs);
    var uType := UnionType(gs);
    var m := UnionMember(uType);
    if m.None? {
      AbsentIsPicked(s, src, gs, 1);
      NothingIsWalked(s, src, gs, 1);
      return 0;
    }
    var r := CloneTable(b, src, m.value, gs[1].to);
    ghost var t := b.Get();
    ClonedBelow(s, t, src, gs[1].to, r, TableRank(Message));
    if r == 0 {
      FailedIsPicked(s, t, src, gs, 1, TableRank(Message));
      FramesOnly(t, t);
      UnionIsWalked(s, t, t, src, gs, r, -1);
      return -1;
    }
    rc := AddUnion(b, uType, r);
    FramesOnly(t, b.Get());
    UnionIsWalked(s, t, b.Get(), src, gs, r, rc);
    OnlyFramesKeeps(s, t, b.Get(), src, TableRank(Message));
    if rc != 0 {
      FailedIsPicked(s, b.Get(), src, gs, 1, TableRank(Message));
      return;
    }
    UnionIsPicked(s, t, b.Get(), src, gs, r);
  }

  lemma MessageFields()
    ensures |Fields(Message)| == 4
  {
  }

  method CloneReference(b: Builder, src: Store, k: Kind, a: Address) returns (r: Address)
    requires Consistent(b.Get(), src) && WellFormedStore(src) && Leads(src, k, a) && k != UnionValuesKind
    modifies b
    ensures Cloned(old(b.Get()), b.Get(), src, a, r) && Walked(old(b.Get()), b.Get(), src, a, r)
    decreases Rank(k), 3
  {
    hide Consistent, Cloned, WellFormedStore;
    match k
    case StringKind => r := CloneString(b, src, a);
    case BytesKind => r := CloneBytes(b, src, a);
    case TableKind(ty) => r := CloneTable(b, src, ty, a);
    case VectorKind(ty) => r := CloneVector(b, src, ty, a);
  }

  /** The fields of the open table `f` after `n` picks. */
  ghost predicate FieldsPicked(f: Frame, ty: TableType, gs: map<nat, Field>, origin: map<Address, Address>, n: nat)
    requires n <= |PickOrder(ty)|
  {
    && f.TableFrame? && f.ty == ty && LateIsType(f)
    && f.fields.Keys == CoveredUpTo(ty, n) * Visible(ty, gs)
    && forall id :: id in f.fields ==> FieldCopiesBut(f.fields[id], gs[id], origin, id, f.late)
  }

  /** The table under construction after `n` picks. */
  ghost predicate PickedUpTo(s: State, t: State, src: Store, ty: TableType, gs: map<nat, Field>, n: nat)
    requires n <= |PickOrder(ty)|
  {
    && Consistent(t, src) && Grew(s, t, src, TableRank(ty))
    && (Exact(s) ==> Exact(t))
    && t.frames != [] && t.Below() == s.frames && FieldsPicked(t.Top(), ty, gs, t.origin, n)
  }

  /** The table under construction after `n` picks went as its walk says. */
  ghost predicate Walking(s: State, t: State, src: Store, ty: TableType, gs: map<nat, Field>, n: nat)
    requires n <= |PickOrder(ty)|
  {
    && t.frames != [] && t.Top().TableFrame? && t.Top().ty == ty
    && WalkPicks(src, ty, gs, n, CourseOf(s).Spend(1)) == Visit(CourseOf(t), t.Top().late)
  }

  lemma WalkStarts(s: State, t: State, src: Store, ty: TableType, gs: map<nat, Field>)
    requires OnlyFrames(s, t) && t.frames == s.frames + [TableFrame(ty, map[], map[])] && t.budget == s.budget - 1
    ensures Walking(s, t, src, ty, gs, 0)
  {
    FramesKeepCourse(s, t);
  }

  lemma {:induction false} WalkGoesOn(s: State, t: State, u: State, src: Store, ty: TableType, gs: map<nat, Field>,
                                      n: nat)
    requires n < |PickOrder(ty)| && Walking(s, t, src, ty, gs, n)
    requires PickWalked(t, u, src, gs, PickOrder(ty)[n], 0) && u.frames != [] && u.Top().TableFrame? && u.Top().ty == ty
    ensures Walking(s, u, src, ty, gs, n + 1)
  {
    hide PickOrder, WalkPick, KnownTo;
  }

  lemma {:induction false} WalkStops(s: State, t: State, u: State, src: Store, a: Address, n: nat, rc: int)
    requires a in src && src[a].Table? && s.Find(a) == 0
    requires n < |PickOrder(src[a].ty)| && Walking(s, t, src, src[a].ty, src[a].fields, n)
    requires PickWalked(t, u, src, src[a].fields, PickOrder(src[a].ty)[n], rc) && rc != 0
    ensures Walked(s, u, src, a, 0)
  {
    hide PickOrder, WalkPick;
    var ty, gs, c := src[a].ty, src[a].fields, CourseOf(s).Spend(1);
    assert !CourseOf(s).Knows(a);
    assert WalkPicks(src, ty, gs, n + 1, c).course.left < 0;
    hide KnownTo, Walk, WalkPicks;
    WalkOfTable(src, a, CourseOf(s));
    PicksSpend(src, ty, gs, n + 1, |PickOrder(ty)|, c);
  }

  lemma {:induction false} WalkEnds(s: State, t: State, w: State, src: Store, a: Address, r: Address)
    requires a in src && src[a].Table? && s.Find(a) == 0
    requires Walking(s, t, src, src[a].ty, src[a].fields, |PickOrder(src[a].ty)|)
    requires Ended(t, w, t.Top().late, a, r)
    ensures Walked(s, w, src, a, r)
  {
    assert !CourseOf(s).Knows(a);
    hide PickOrder, WalkPicks, Walk, KnownTo;
    WalkOfTable(src, a, CourseOf(s));
  }

  lemma NothingPicked(s: State, t: State, src: Store, ty: TableType, gs: map<nat, Field>)
    requires Consistent(s, src) && OnlyFrames(s, t) && t.frames == s.frames + [TableFrame(ty, map[], map[])]
    ensures PickedUpTo(s, t, src, ty, gs, 0)
  {
    hide Consistent, Exact;
    GrewNothing(s, src, TableRank(ty));
    OnlyFramesKeeps(s, s, t, src, TableRank(ty));
  }

  lemma NextPick(s: State, t: State, u: State, src: Store, ty: TableType, gs: map<nat, Field>, n: nat)
    requires n < |PickOrder(ty)| && PickedUpTo(s, t, src, ty, gs, n)
    requires Picked(t, u, src, gs, PickOrder(ty)[n], 0)
    ensures PickedUpTo(s, u, src, ty, gs, n + 1)
  {
    hide Consistent, Exact, Fields, FieldCopiesBut, LateIsType, PickOrder;
    hide CoveredUpTo, Covered, Adds;
    GrewTrans(s, t, u, src, TableRank(ty), TableRank(ty));
    NextPickIsFree(s, t, src, ty, gs, n);
    LateAfterPick(s, t, u, src, ty, gs, n);
    OriginsGrow(t, u, src, TableRank(ty));
    NextFields(t.Top(), u.Top(), ty, gs, t.origin, u.origin, n);
    hide Grew, FieldsPicked;
  }

  lemma OriginsGrow(t: State, u: State, src: Store, bound: nat)
    requires Grew(t, u, src, bound)
    ensures forall r :: r in t.origin ==> r in u.origin && u.origin[r] == t.origin[r]
  {
  }

  lemma NextFields(f: Frame, g: Frame, ty: TableType, gs: map<nat, Field>, origin: map<Address, Address>,
                   origin': map<Address, Address>, n: nat)
    requires n < |PickOrder(ty)| && FieldsPicked(f, ty, gs, origin, n) && g.TableFrame? && g.ty == ty && LateIsType(g)
    requires Adds(f.fields, g.fields, Covered(ty, PickOrder(ty)[n]) * Visible(ty, gs), gs, origin', g.late)
    requires forall r :: r in origin ==> r in origin' && origin'[r] == origin[r]
    requires forall x :: x in f.fields ==> (x in f.late <==> x in g.late) && (x in f.late ==> f.late[x] == g.late[x])
    ensures FieldsPicked(g, ty, gs, origin', n + 1)
  {
    hide FieldCopiesBut, LateIsType, PickOrder, Covered, Visible;
    assert CoveredUpTo(ty, n + 1) == CoveredUpTo(ty, n) + Covered(ty, PickOrder(ty)[n]);
    hide CoveredUpTo;
    forall x | x in g.fields
      ensures x in gs && FieldCopiesBut(g.fields[x], gs[x], origin', x, g.late)
    {
      VisibleIsStored(ty, gs);
      if x in f.fields {
        FieldCopiesGrow(f.fields[x], gs[x], origin, origin', x, f.late);
      }
    }
  }

  lemma TypeIsVisible(gs: map<nat, Field>)
    requires UnionMember(UnionType(gs)).Some?
    ensures 0 in Visible(Message, gs)
  {
  }

  /** Only the pick of a union adds to the fields stored too late, and only the type of that union. */
  lemma LateAfterPick(s: State, t: State, u: State, src: Store, ty: TableType, gs: map<nat, Field>, n: nat)
    requires n < |PickOrder(ty)| && PickedUpTo(s, t, src, ty, gs, n)
    requires Picked(t, u, src, gs, PickOrder(ty)[n], 0) && Covered(ty, PickOrder(ty)[n]) !! t.Top().fields.Keys
    ensures LateIsType(u.Top())
    ensures forall x :: x in t.Top().fields ==>
      (x in t.Top().late <==> x in u.Top().late) && (x in t.Top().late ==> t.Top().late[x] == u.Top().late[x])
  {
    hide Consistent, Exact, FieldCopiesBut, CoveredUpTo, Fields;
    if PicksUnion(ty, PickOrder(ty)[n], gs) {
      TypeIsVisible(gs);
      assert u.Top().late.Keys <= {0} && 0 in Covered(ty, PickOrder(ty)[n]);
    }
  }

  lemma FieldCopiesGrow(f: Field, g: Field, origin: map<Address, Address>, origin': map<Address, Address>,
                        id: nat, late: Late)
    requires FieldCopiesBut(f, g, origin, id, late)
    requires forall r :: r in origin ==> r in origin' && origin'[r] == origin[r]
    ensures FieldCopiesBut(f, g, origin', id, late)
    ensures forall late': Late :: (id in late <==> id in late') && (id in late ==> late[id] == late'[id]) ==>
      FieldCopiesBut(f, g, origin', id, late')
  {
  }

  /** A table whose last pick failed is not cloned. */
  lemma FailedPick(s: State, t: State, u: State, src: Store, a: Address, gs: map<nat, Field>, n: nat, rc: int)
    requires a in src && src[a].Table? && n < |PickOrder(src[a].ty)| && PickedUpTo(s, t, src, src[a].ty, gs, n)
    requires Picked(t, u, src, gs, PickOrder(src[a].ty)[n], rc) && rc != 0
    ensures Cloned(s, u, src, a, 0)
  {
    hide Consistent, Exact;
    GrewTrans(s, t, u, src, TableRank(src[a].ty), TableRank(src[a].ty) + 1);
  }

  /** When every field was picked, the open table is a copy of the source table, required fields included. */
  lemma AllPicked(s: State, t: State, src: Store, a: Address)
    requires a in src && src[a].Table? && WellFormed(src, src[a])
    requires var ty := src[a].ty; PickedUpTo(s, t, src, ty, src[a].fields, |PickOrder(ty)|)
    ensures Copies(Table(src[a].ty, t.Top().fields), src[a], t.origin, t.Top().late)
    ensures Required(src[a].ty) <= t.Top().fields.Keys
  {
    hide Consistent, Exact, Grew, FieldCopiesBut;
    PicksPartitionFields(src[a].ty);
    RequiredAreVisible(src[a].ty, src[a].fields);
  }

  /** The generated `X_clone` of a table: memo lookup, the picks in the generated order, end, memo entry. */
  method CloneTable(b: Builder, src: Store, ty: TableType, a: Address) returns (r: Address)
    requires Consistent(b.Get(), src) && WellFormedStore(src) && Leads(src, TableKind(ty), a)
    modifies b
    ensures Cloned(old(b.Get()), b.Get(), src, a, r) && Walked(old(b.Get()), b.Get(), src, a, r)
    decreases TableRank(ty), 2
  {
    hide Consistent, Exact, Grew, ExactBut, Cloned, WellFormed, PickedUpTo, Picked, Copies, PickOrder;
    hide Required, Emitted, Walked, Walking, PickWalked, Kept, Ended;
    ghost var s := b.Get();
    r := b.RefmapFind(a);
    if r != 0 {
      MemoisedIsCloned(s, src, a);
      MemoisedIsWalked(s, src, a);
      return;
    }
    var gs, order := src[a].fields, PickOrder(ty);
    var rc := b.StartTable(ty);
    if rc != 0 {
      NotStartedIsNotCloned(s, b.Get(), src, a);
      NotStartedIsWalked(s, b.Get(), src, a);
      return 0;
    }
    NothingPicked(s, b.Get(), src, ty, gs);
    WalkStarts(s, b.Get(), src, ty, gs);
    var i := 0;
    while i < |order|
      invariant 0 <= i <= |order|
      invariant PickedUpTo(s, b.Get(), src, ty, gs, i)
      invariant Walking(s, b.Get(), src, ty, gs, i)
    {
      ghost var t := b.Get();
      NextPickIsFree(s, t, src, ty, gs, i);
      rc := Pick(b, src, ty, gs, order[i]);
      if rc != 0 {
        FailedPick(s, t, b.Get(), src, a, gs, i, rc);
        WalkStops(s, t, b.Get(), src, a, i, rc);
        return 0;
      }
      NextPick(s, t, b.Get(), src, ty, gs, i);
      OpenTable(s, b.Get(), src, ty, gs, i + 1);
      WalkGoesOn(s, t, b.Get(), src, ty, gs, i);
      i := i + 1;
    }
    ghost var t := b.Get();
    AllPicked(s, t, src, a);
    AllPickedState(s, t, src, ty, gs);
    var e := b.EndTable(Some(a));
    ghost var u := b.Get();
    CopyEmitted(s, t, u, src, Table(ty, t.Top().fields), t.Top().late, a, e);
    r := Memoize(b, src, a, e, s);
    CopyEnds(t, u, b.Get(), src, Table(ty, t.Top().fields), t.Top().late, a, e, r);
    WalkEnds(s, t, b.Get(), src, a, r);
  }

  /** What the loop of a table clone knows of its state. */
  lemma AllPickedState(s: State, t: State, src: Store, ty: TableType, gs: map<nat, Field>)
    requires PickedUpTo(s, t, src, ty, gs, |PickOrder(ty)|)
    ensures t.Valid() && Consistent(t, src) && Grew(s, t, src, TableRank(ty)) && (Exact(s) ==> Exact(t))
    ensures t.frames != [] && t.Below() == s.frames && t.Top().TableFrame? && t.Top().ty == ty && s.frames <= t.frames
  {
    hide Exact, Grew;
  }

  lemma OpenTable(s: State, t: State, src: Store, ty: TableType, gs: map<nat, Field>, n: nat)
    requires n <= |PickOrder(ty)| && PickedUpTo(s, t, src, ty, gs, n)
    ensures t.frames != [] && t.Top().TableFrame? && t.Top().ty == ty
  {
    hide Consistent, Exact, Grew, PickOrder;
  }

  lemma NextPickIsFree(s: State, t: State, src: Store, ty: TableType, gs: map<nat, Field>, n: nat)
    requires n < |PickOrder(ty)| && PickedUpTo(s, t, src, ty, gs, n)
    ensures Consistent(t, src)
    ensures t.frames != [] && t.Top().TableFrame? && t.Top().ty == ty
    ensures Covered(ty, PickOrder(ty)[n]) !! t.Top().fields.Keys && LateIsType(t.Top())
  {
    hide Consistent, Exact, Grew;
    PicksPartitionFields(ty);
  }

  /** A memo hit is a clone: the refmap leads to a copy of the same source object. */
  lemma MemoisedIsCloned(s: State, src: Store, a: Address)
    requires a in src && Consistent(s, src) && s.Find(a) != 0
    ensures Cloned(s, s, src, a, s.Find(a))
  {
  }

  lemma NotStartedIsNotCloned(s: State, t: State, src: Store, a: Address)
    requires a in src && Consistent(s, src) && OnlyFrames(s, t) && t.frames == s.frames && t.budget == 0
    ensures Cloned(s, t, src, a, 0)
  {
    hide Consistent, Exact;
    GrewNothing(s, src, RankAt(src, a) + 1);
    OnlyFramesKeeps(s, s, t, src, RankAt(src, a) + 1);
  }

  // ---------- Vectors of tables ----------

  /** The vector under construction after `n` elements, all of a rank below `bound`. */
  ghost predicate PushedUpTo(s: State, t: State, src: Store, bound: nat, elems: seq<Address>, n: nat) {
    && n <= |elems|
    && Consistent(t, src) && Grew(s, t, src, bound)
    && (Exact(s) ==> Exact(t))
    && t.frames != [] && t.Below() == s.frames && t.Top().VectorFrame?
    && ElementsCopy(t.Top().elems, elems[..n], t.origin)
  }

  /** Of the state `t` in which the vector is started. */
  lemma NothingPushed(s: State, t: State, u: State, src: Store, bound: nat, elems: seq<Address>)
    requires Consistent(t, src) && Grew(s, t, src, bound) && (Exact(s) ==> Exact(t)) && t.frames == s.frames
    requires OnlyFrames(t, u) && u.frames == t.frames + [VectorFrame([])]
    ensures PushedUpTo(s, u, src, bound, elems, 0)
  {
    hide Consistent, Exact, Grew;
    OnlyFramesKeeps(s, t, u, src, bound);
  }

  /** Cloning the next element, whether or not it is then pushed. */
  lemma NextElement(s: State, t: State, u: State, v: State, src: Store, bound: nat,
                    elems: seq<Address>, n: nat, e: Address)
    requires n < |elems| && PushedUpTo(s, t, src, bound, elems, n)
    requires elems[n] in src && RankAt(src, elems[n]) < bound && Cloned(t, u, src, elems[n], e) && OnlyFrames(u, v)
    ensures Consistent(v, src) && Grew(s, v, src, bound) && Grew(t, v, src, bound)
    ensures e == 0 ==> u.budget == 0 && s.frames <= u.frames
    ensures e != 0 ==> u.frames == t.frames
    ensures e != 0 && v.frames == u.Below() + [VectorFrame(u.Top().elems + [e])] ==>
      PushedUpTo(s, v, src, bound, elems, n + 1)
  {
    hide Consistent, Exact;
    GrewMore(t, u, src, RankAt(src, elems[n]) + 1, bound);
    GrewTrans(s, t, u, src, bound, bound);
    OnlyFramesKeeps(s, u, v, src, bound);
    OnlyFramesKeeps(t, u, v, src, bound);
    hide Grew;
    assert elems[..n + 1] == elems[..n] + [elems[n]];
  }

  lemma FailedElement(s: State, v: State, src: Store, a: Address)
    requires a in src && Consistent(v, src) && Grew(s, v, src, RankAt(src, a)) && v.budget == 0 && s.frames <= v.frames
    ensures Cloned(s, v, src, a, 0)
  {
    hide Consistent, Exact;
  }

  lemma AllPushed(s: State, t: State, src: Store, bound: nat, elems: seq<Address>)
    requires PushedUpTo(s, t, src, bound, elems, |elems|)
    ensures t.Valid() && Consistent(t, src) && Grew(s, t, src, bound) && (Exact(s) ==> Exact(t))
    ensures t.frames != [] && t.Below() == s.frames && t.Top().VectorFrame? && s.frames <= t.frames
    ensures ElementsCopy(t.Top().elems, elems, t.origin)
  {
    hide Exact, Grew;
    assert elems[..|elems|] == elems;
  }

  /** Clones one element and pushes its reference. */
  method PushClone(b: Builder, src: Store, ty: TableType, elems: seq<Address>, i: nat, ghost s: State, ghost bound: nat)
    returns (ok: bool)
    requires WellFormedStore(src) && i < |elems| && Leads(src, TableKind(ty), elems[i]) && TableRank(ty) < bound
    requires PushedUpTo(s, b.Get(), src, bound, elems, i)
    modifies b
    ensures ok ==> PushedUpTo(s, b.Get(), src, bound, elems, i + 1)
    ensures Grew(old(b.Get()), b.Get(), src, bound)
    ensures old(b.frames) != [] && old(b.Get().Top()).VectorFrame?
    ensures ElementWalked(old(b.Get()), b.Get(), src, ty, elems[i], ok)
    ensures !ok ==> Consistent(b.Get(), src) && Grew(s, b.Get(), src, bound) && b.budget == 0 && s.frames <= b.frames
    decreases TableRank(ty), 3
  {
    hide Consistent, Exact, Grew, Cloned, PushedUpTo, WellFormedStore, Walked, ElementWalked;
    ghost var t := b.Get();
    OpenVector(s, t, src, bound, elems, i);
    var e := CloneTable(b, src, ty, elems[i]);
    ghost var u := b.Get();
    NextElement(s, t, u, u, src, bound, elems, i, e);
    if e == 0 {
      FramesOnly(u, u);
      PushIsWalked(t, u, u, src, ty, elems[i], e, false);
      return false;
    }
    ok := b.OffsetVectorPush(e);
    PushIsWalked(t, u, b.Get(), src, ty, elems[i], e, ok);
    NextElement(s, t, u, b.Get(), src, bound, elems, i, e);
  }

  /** The element was cloned as its walk says, and pushed if a primitive was left for it. */
  ghost predicate ElementWalked(s: State, t: State, src: Store, ty: TableType, a: Address, ok: bool)
    requires s.frames != [] && s.Top().VectorFrame?
  {
    var v, n := Walk(src, TableKind(ty), a, CourseOf(s)), |s.Top().elems|;
    if !ok then v.course.left < 1 else
    && v.course.Spend(1) == CourseOf(t)
    && t.frames != [] && t.Top().VectorFrame? && |t.Top().elems| == n + 1 && t.Top().elems[..n] == s.Top().elems
    && LateOf(t.late, t.Top().elems[n]) == v.late
  }

  /** The clone of an element, and its push. */
  lemma {:induction false} PushIsWalked(s: State, t: State, u: State, src: Store, ty: TableType, a: Address,
                                        e: Address, ok: bool)
    requires s.frames != [] && s.Top().VectorFrame? && a in src && KindOf(src[a]) == TableKind(ty)
    requires Walked(s, t, src, a, e) && OnlyFrames(t, u) && (ok <==> e != 0 && t.budget > 0)
    requires ok ==> u.budget == t.budget - 1 && u.frames == s.Below() + [VectorFrame(s.Top().elems + [e])]
    ensures ElementWalked(s, u, src, ty, a, ok)
  {
    FramesKeepCourse(t, u);
    hide Walk, KnownTo, LateOf;
  }

  lemma OpenVector(s: State, t: State, src: Store, bound: nat, elems: seq<Address>, n: nat)
    requires PushedUpTo(s, t, src, bound, elems, n)
    ensures Consistent(t, src)
    ensures t.frames != [] && t.Top().VectorFrame? && t.Below() == s.frames && s.frames <= t.frames
  {
    hide Consistent, Exact, Grew;
  }

  lemma ElementsLead(src: Store, ty: TableType, a: Address)
    requires WellFormedStore(src) && Leads(src, VectorKind(ty), a)
    ensures src[a].elemType == ty && forall i :: 0 <= i < |src[a].elems| ==> Leads(src, TableKind(ty), src[a].elems[i])
  {
    assert WellFormed(src, src[a]);
  }

  lemma CopyOfVector(src: Store, a: Address, ty: Option<TableType>, es: seq<Address>, rs: seq<Address>,
                     origin: map<Address, Address>)
    requires a in src && src[a] == OffsetVector(ty, es) && ElementsCopy(rs, es, origin)
    ensures Copies(OffsetVector(ty, rs), src[a], origin, map[])
  {
  }

  /** What the walk says was stored too late in the clone of element `i` of a vector. */
  function ElementLate(s: State, src: Store, ty: TableType, elems: seq<Address>, i: nat): Late
    requires i < |elems|
  {
    Walk(src, TableKind(ty), elems[i], WalkElements(src, ty, elems, i, CourseOf(s).Spend(1))).late
  }

  /** The vector under construction after `n` elements went as its walk says. */
  ghost predicate VectorWalking(s: State, t: State, src: Store, ty: TableType, elems: seq<Address>, n: nat) {
    && n <= |elems| && t.frames != [] && t.Top().VectorFrame? && |t.Top().elems| == n
    && WalkElements(src, ty, elems, n, CourseOf(s).Spend(1)) == CourseOf(t)
    && forall i :: 0 <= i < n ==> LateOf(t.late, t.Top().elems[i]) == ElementLate(s, src, ty, elems, i)
  }

  /** Each element of the vector emitted at `r` lost the union type its walk says. */
  ghost predicate ElementsWalked(s: State, t: State, src: Store, a: Address, r: Address)
    requires a in src && src[a].TableVec?
  {
    && r in t.out && t.out[r].TableVec? && |t.out[r].elems| == |src[a].elems|
    && forall i :: 0 <= i < |src[a].elems| ==>
         LateOf(t.late, t.out[r].elems[i]) == ElementLate(s, src, src[a].elemType, src[a].elems, i)
  }

  lemma VectorWalkStarts(s: State, t: State, src: Store, ty: TableType, elems: seq<Address>)
    requires OnlyFrames(s, t) && t.frames == s.frames + [VectorFrame([])] && t.budget == s.budget - 1
    ensures VectorWalking(s, t, src, ty, elems, 0)
  {
    FramesKeepCourse(s, t);
  }

  lemma {:induction false} VectorWalkGoesOn(s: State, t: State, u: State, src: Store, ty: TableType,
                                            elems: seq<Address>, n: nat, bound: nat)
    requires n < |elems| && VectorWalking(s, t, src, ty, elems, n) && ElementWalked(t, u, src, ty, elems[n], true)
    requires PushedUpTo(s, t, src, bound, elems, n) && Grew(t, u, src, bound)
    ensures VectorWalking(s, u, src, ty, elems, n + 1)
  {
    hide Walk, CourseOf, Consistent, Exact, NewAreCopies;
    forall i | 0 <= i < n
      ensures LateOf(u.late, u.Top().elems[i]) == ElementLate(s, src, ty, elems, i)
    {
      assert t.Top().elems[i] in t.origin;
      assert u.Top().elems[..n][i] == t.Top().elems[i];
    }
    hide LateOf;
  }

  lemma {:induction false} VectorWalkStops(s: State, t: State, u: State, src: Store, a: Address, n: nat)
    requires a in src && src[a].TableVec? && s.Find(a) == 0 && n < |src[a].elems|
    requires VectorWalking(s, t, src, src[a].elemType, src[a].elems, n)
    requires ElementWalked(t, u, src, src[a].elemType, src[a].elems[n], false)
    ensures Walked(s, u, src, a, 0)
  {
    var ty, es, c := src[a].elemType, src[a].elems, CourseOf(s).Spend(1);
    assert !CourseOf(s).Knows(a);
    hide KnownTo, Walk;
    assert WalkElements(src, ty, es, n + 1, c).left < 0;
    hide WalkElements;
    WalkOfVector(src, a, CourseOf(s));
    ElementsSpend(src, ty, es, n + 1, |es|, c);
  }

  lemma {:induction false} VectorWalkEnds(s: State, t: State, w: State, src: Store, a: Address, r: Address)
    requires a in src && src[a].TableVec? && s.Find(a) == 0
    requires VectorWalking(s, t, src, src[a].elemType, src[a].elems, |src[a].elems|) && Ended(t, w, map[], a, r)
    ensures Walked(s, w, src, a, r)
  {
    assert !CourseOf(s).Knows(a);
    hide WalkElements, KnownTo, Walk;
    WalkOfVector(src, a, CourseOf(s));
  }

  lemma {:induction false} VectorElementsWalked(s: State, t: State, w: State, src: Store, a: Address, r: Address,
                                                bound: nat)
    requires a in src && src[a].TableVec? && PushedUpTo(s, t, src, bound, src[a].elems, |src[a].elems|)
    requires VectorWalking(s, t, src, src[a].elemType, src[a].elems, |src[a].elems|)
    requires r in w.out && w.out[r] == TableVec(src[a].elemType, t.Top().elems)
    requires forall x :: x in t.origin ==> LateOf(w.late, x) == LateOf(t.late, x)
    ensures ElementsWalked(s, w, src, a, r)
  {
    hide Consistent, Grew, Exact, WalkElements, ElementLate, LateOf, CourseOf;
  }

  /** Ends the vector once all elements are pushed, and memoises it. */
  method EndVector(b: Builder, src: Store, a: Address, ty: Option<TableType>, elems: seq<Address>, ghost s: State)
    returns (r: Address)
    requires a in src && a != 0 && src[a] == OffsetVector(ty, elems)
    requires Consistent(s, src) && s.Find(a) == 0 && PushedUpTo(s, b.Get(), src, RankAt(src, a), elems, |elems|)
    modifies b
    ensures Cloned(s, b.Get(), src, a, r)
    ensures forall x :: x in old(b.origin) ==>
      x in b.origin && b.origin[x] == old(b.origin)[x] && LateOf(b.late, x) == LateOf(old(b.late), x)
    ensures Ended(old(b.Get()), b.Get(), map[], a, r)
    ensures old(b.frames) != [] && old(b.Get().Top()).VectorFrame?
    ensures r != 0 ==> r in b.out && b.out[r] == OffsetVector(ty, old(b.Get().Top()).elems)
  {
    hide Consistent, Exact, Grew, ExactBut, Cloned, PushedUpTo, Copies, ElementsCopy, Emitted, OffsetVector, Ended;
    hide LateOf;
    ghost var t := b.Get();
    AllPushed(s, t, src, RankAt(src, a), elems);
    CopyOfVector(src, a, ty, elems, t.Top().elems, t.origin);
    var e := b.EndOffsetVector(ty, Some(a));
    ghost var u := b.Get();
    CopyEmitted(s, t, u, src, OffsetVector(ty, t.Top().elems), map[], a, e);
    r := Memoize(b, src, a, e, s);
    CopyEnds(t, u, b.Get(), src, OffsetVector(ty, t.Top().elems), map[], a, e, r);
    VectorEmitted(t, u, b.Get(), OffsetVector(ty, t.Top().elems), a, e, r);
  }

  lemma VectorEmitted(t: State, u: State, w: State, o: Object, a: Address, e: Address, r: Address)
    requires t.Valid() && Emitted(t, u, o, map[], Some(a), e) && w.late == u.late && w.out == u.out
    requires Kept(u, w, a, e, r)
    ensures forall x :: x in t.origin ==> LateOf(w.late, x) == LateOf(t.late, x)
    ensures r != 0 ==> r in w.out && w.out[r] == o
  {
  }

  /** The loop over the elements. */
  method PushClones(b: Builder, src: Store, ty: TableType, a: Address, ghost s: State) returns (ok: bool)
    requires WellFormedStore(src) && Leads(src, VectorKind(ty), a) && s.Find(a) == 0
    requires PushedUpTo(s, b.Get(), src, TableRank(ty) + 1, src[a].elems, 0)
    requires VectorWalking(s, b.Get(), src, ty, src[a].elems, 0)
    modifies b
    ensures ok ==>
      && PushedUpTo(s, b.Get(), src, TableRank(ty) + 1, src[a].elems, |src[a].elems|)
      && VectorWalking(s, b.Get(), src, ty, src[a].elems, |src[a].elems|)
    ensures !ok ==> Cloned(s, b.Get(), src, a, 0) && Walked(s, b.Get(), src, a, 0)
    decreases TableRank(ty) + 1, 1
  {
    ElementsLead(src, ty, a);
    hide Consistent, Exact, Grew, Cloned, PushedUpTo, WellFormedStore, Walked, ElementWalked, VectorWalking;
    var elems := src[a].elems;
    var i := 0;
    while i < |elems|
      invariant 0 <= i <= |elems|
      invariant PushedUpTo(s, b.Get(), src, TableRank(ty) + 1, elems, i)
      invariant VectorWalking(s, b.Get(), src, ty, elems, i)
    {
      ghost var t := b.Get();
      ok := PushClone(b, src, ty, elems, i, s, TableRank(ty) + 1);
      if !ok {
        FailedElement(s, b.Get(), src, a);
        VectorWalkStops(s, t, b.Get(), src, a, i);
        return;
      }
      VectorWalkGoesOn(s, t, b.Get(), src, ty, elems, i, TableRank(ty) + 1);
      i := i + 1;
    }
    ok := true;
  }

  /** The generated `X_vec_clone`: each element cloned and pushed in order. */
  method CloneVector(b: Builder, src: Store, ty: TableType, a: Address) returns (r: Address)
    requires Consistent(b.Get(), src) && WellFormedStore(src) && Leads(src, VectorKind(ty), a)
    modifies b
    ensures Cloned(old(b.Get()), b.Get(), src, a, r) && Walked(old(b.Get()), b.Get(), src, a, r)
    ensures r != 0 && old(b.Get()).Find(a) == 0 ==> ElementsWalked(old(b.Get()), b.Get(), src, a, r)
    decreases TableRank(ty) + 1, 2
  {
    ElementsLead(src, ty, a);
    hide Consistent, Exact, Grew, ExactBut, Cloned, PushedUpTo, Copies, WellFormedStore, ElementsCopy;
    hide OnlyFrames, Emitted, Walked, ElementWalked, VectorWalking, ElementsWalked, Ended, LateOf;
    ghost var s := b.Get();
    r := b.RefmapFind(a);
    if r != 0 {
      MemoisedIsCloned(s, src, a);
      MemoisedIsWalked(s, src, a);
      return;
    }
    var elems := src[a].elems;
    var rc := b.StartOffsetVector();
    FramesOnly(s, b.Get());
    if rc != 0 {
      NotStartedIsNotCloned(s, b.Get(), src, a);
      NotStartedIsWalked(s, b.Get(), src, a);
      return 0;
    }
    GrewNothing(s, src, TableRank(ty) + 1);
    NothingPushed(s, s, b.Get(), src, TableRank(ty) + 1, elems);
    VectorWalkStarts(s, b.Get(), src, ty, elems);
    var ok := PushClones(b, src, ty, a, s);
    if !ok { return 0; }
    ghost var t := b.Get();
    r := EndVector(b, src, a, Some(ty), elems, s);
    VectorWalkEnds(s, t, b.Get(), src, a, r);
    if r != 0 { VectorElementsWalked(s, t, b.Get(), src, a, r, TableRank(ty) + 1); }
  }

  lemma FramesOnly(t: State, u: State)
    requires u == t.(frames := u.frames, budget := u.budget, moved := u.moved) && u.budget <= t.budget
    ensures OnlyFrames(t, u)
  {
  }
}
