/** What a finished clone is worth: meaning, well-formedness, and sharing. */
module CloneLaws {
  import opened Wrappers
  import opened Schema
  import opened Readings
  import opened Builders
  import opened Walks
  import opened Clone

  /** In a copied message, and in every message of a copied vector of messages, the union type is right. */
  ghost predicate TypesIntact(t: State, src: Store, r: Address)
    requires Simulates(src, t.out, t.origin, t.late) && r in t.origin
  {
    SameKind(t, src, r);
    match t.out[r]
    case TableVec(ty, rs) => forall i :: 0 <= i < |rs| ==> ElementIntact(t, src, ty, rs[i])
    case _ => Intact(src[t.origin[r]], LateOf(t.late, r))
  }

  ghost predicate ElementIntact(t: State, src: Store, ty: TableType, e: Address)
    requires Simulates(src, t.out, t.origin, t.late) && e in t.origin
  {
    SameKind(t, src, e);
    KindOf(t.out[e]) == TableKind(ty) ==> Intact(src[t.origin[e]], LateOf(t.late, e))
  }

  lemma SameKind(t: State, src: Store, r: Address)
    requires Simulates(src, t.out, t.origin, t.late) && r in t.origin
    ensures r in t.out && t.origin[r] in src && KindOf(t.out[r]) == KindOf(src[t.origin[r]])
    ensures t.out[r].TableVec? ==> ElementsCopy(t.out[r].elems, src[t.origin[r]].elems, t.origin)
    ensures t.out[r].UnionVec? ==> ElementsCopy(t.out[r].values, src[t.origin[r]].values, t.origin)
    ensures KindOf(t.out[r]) != TableKind(Message) ==> LateOf(t.late, r) == map[]
  {
    assert Copies(t.out[r], src[t.origin[r]], t.origin, LateOf(t.late, r));
  }

  /** The clone of an object means what the object means, with or without a refmap, exactly if no union type in it was
      lost; only messages have one. */
  lemma CloneKeepsMeaning(s: State, t: State, src: Store, k: Kind, a: Address, r: Address)
    requires a in src && Cloned(s, t, src, a, r) && r != 0
    ensures MeaningAt(t.out, k, r) == MeaningAt(src, k, a) <==> (k == KindOf(src[a]) ==> TypesIntact(t, src, r))
    ensures k != TableKind(Message) && k != VectorKind(Message) ==> MeaningAt(t.out, k, r) == MeaningAt(src, k, a)
  {
    hide Simulates, Grew, Exact, MeaningAt, TypesIntact, KindOf;
    if k == KindOf(src[a]) {
      SameKindMeaning(t, src, r);
    } else {
      OtherKindMeaning(t, src, k, r);
    }
  }

  lemma OtherKindMeaning(t: State, src: Store, k: Kind, r: Address)
    requires Simulates(src, t.out, t.origin, t.late) && r in t.origin && k != KindOf(src[t.origin[r]])
    ensures MeaningAt(t.out, k, r) == MeaningAt(src, k, t.origin[r]) == Dangling
  {
    SameKind(t, src, r);
    hide Simulates;
  }

  lemma SameKindMeaning(t: State, src: Store, r: Address)
    requires Simulates(src, t.out, t.origin, t.late) && r in t.origin
    ensures var k := KindOf(src[t.origin[r]]);
      && (MeaningAt(t.out, k, r) == MeaningAt(src, k, t.origin[r]) <==> TypesIntact(t, src, r))
      && (k != TableKind(Message) && k != VectorKind(Message) ==> TypesIntact(t, src, r))
  {
    SameKind(t, src, r);
    hide Simulates, FieldMeaning;
    match t.out[r]
    case TableVec(_, _) => VectorMeansTheSame(t, src, r);
    case UnionVec(_) =>
    case Table(Message, _) => MessageMeansTheSame(src, t.out, t.origin, t.late, r);
    case _ => CopyMeansTheSame(src, t.out, t.origin, t.late, KindOf(t.out[r]), r);
  }

  lemma VectorMeansTheSame(t: State, src: Store, r: Address)
    requires Simulates(src, t.out, t.origin, t.late) && r in t.origin && t.out[r].TableVec?
    ensures var k := KindOf(t.out[r]);
      && (MeaningAt(t.out, k, r) == MeaningAt(src, k, t.origin[r]) <==> TypesIntact(t, src, r))
      && (k != VectorKind(Message) ==> TypesIntact(t, src, r))
  {
    SameKind(t, src, r);
    var ty, rs, es := t.out[r].elemType, t.out[r].elems, src[t.origin[r]].elems;
    forall i | 0 <= i < |rs|
      ensures MeaningAt(t.out, TableKind(ty), rs[i]) == MeaningAt(src, TableKind(ty), es[i])
         <==> ElementIntact(t, src, ty, rs[i])
      ensures ty != Message ==> ElementIntact(t, src, ty, rs[i])
    {
      ElementMeansTheSame(t, src, ty, rs[i]);
    }
    hide Simulates, ElementIntact;
    var m, n := MeaningAt(t.out, VectorKind(ty), r), MeaningAt(src, VectorKind(ty), t.origin[r]);
    assert m == VectorOf(ty, m.elems) && n == VectorOf(ty, n.elems) && |m.elems| == |n.elems| == |rs|;
    assert forall i :: 0 <= i < |rs| ==> (m.elems[i] == n.elems[i] <==> ElementIntact(t, src, ty, rs[i]));
    if TypesIntact(t, src, r) {
      assert m.elems == n.elems;
    }
  }

  lemma ElementMeansTheSame(t: State, src: Store, ty: TableType, e: Address)
    requires Simulates(src, t.out, t.origin, t.late) && e in t.origin
    ensures MeaningAt(t.out, TableKind(ty), e) == MeaningAt(src, TableKind(ty), t.origin[e])
       <==> ElementIntact(t, src, ty, e)
    ensures ty != Message ==> ElementIntact(t, src, ty, e)
  {
    SameKind(t, src, e);
    hide Simulates;
    if KindOf(t.out[e]) == TableKind(ty) {
      if ty == Message {
        MessageMeansTheSame(src, t.out, t.origin, t.late, e);
      } else {
        CopyMeansTheSame(src, t.out, t.origin, t.late, TableKind(ty), e);
      }
    }
  }

  /** The clone of a table that lost no union type reads as the source does: in every table of the schema each stored
      field is there with its value and each missing one is missing, and a message has the type and the table of its
      union exactly if the type is one of the seven. */
  lemma CloneIsRead(s: State, t: State, src: Store, a: Address, r: Address)
    requires WellFormedStore(src) && a in src && src[a].Table? && Cloned(s, t, src, a, r) && r != 0
    requires Intact(src[a], LateOf(t.late, r))
    ensures ReadAs(src, src[a].ty, src[a].fields, MeaningAt(t.out, TableKind(src[a].ty), r))
  {
    TableIsRead(src, a);
    SameKind(t, src, r);
    hide WellFormedStore, MeaningAt, ReadAs, Simulates, Grew, Exact;
    CloneKeepsMeaning(s, t, src, TableKind(src[a].ty), a, r);
  }

  // ---------- When the type of a union is lost ----------

  /** A message whose union is not absent. */
  predicate HasUnion(o: Object) {
    o.Table? && o.ty == Message && UnionMember(UnionType(o.fields)).Some?
  }

  /** How many primitives are left when the type of the union of a message is added: the message was started, and the
      table of its union cloned. */
  function LeftForUnion(s: State, src: Store, fields: map<nat, Field>): int
    requires UnionMember(UnionType(fields)).Some? && 1 in fields && fields[1].Ref?
  {
    Walk(src, TableKind(UnionMember(UnionType(fields)).value), fields[1].to, CourseOf(s).Spend(1)).course.left
  }

  lemma UnionIsStored(src: Store, o: Object)
    requires HasUnion(o) && WellFormed(src, o)
    ensures 1 in o.fields && o.fields[1].Ref? && o.fields[0] == Scalar(UnionType(o.fields))
  {
    UnionFields(src, o.fields);
  }

  /** In a message not cloned before, the type is stored too late exactly if the add of the value, the second of the
      two, moves the stack. */
  lemma {:induction false} MessageWalk(s: State, src: Store, a: Address)
    requires a in src && s.Find(a) == 0 && HasUnion(src[a]) && WellFormed(src, src[a])
    ensures 1 in src[a].fields && src[a].fields[1].Ref?
    ensures var v, n := Walk(src, TableKind(Message), a, CourseOf(s)), LeftForUnion(s, src, src[a].fields);
      && v.course.left <= n - 3
      && v.late == if n - 1 in s.moves then map[0 := Residue(s.residues, n)] else map[]
  {
    hide WellFormed, Walk, CourseOf, UnionMember, UnionType, Residue, PickOrder, KindOf, State.Find;
    UnionIsStored(src, src[a]);
    CourseOfState(s, a);
    WalkOfMessage(src, a, src[a].fields, CourseOf(s));
  }

  lemma {:induction false} WalkOfMessage(src: Store, a: Address, gs: map<nat, Field>, c: Course)
    requires a in src && src[a] == Table(Message, gs) && !c.Knows(a)
    requires UnionMember(UnionType(gs)).Some? && 1 in gs && gs[1].Ref?
    ensures var v := Walk(src, TableKind(Message), a, c);
      var n := Walk(src, TableKind(UnionMember(UnionType(gs)).value), gs[1].to, c.Spend(1)).course.left;
      && v.course.left <= n - 3
      && v.late == if n - 1 in c.moves then map[0 := Residue(c.residues, n)] else map[]
  {
    MessagePicks();
    hide Walk, WalkPicks, PickOrder, UnionMember, UnionType, Residue;
    WalkOfTable(src, a, c);
    PicksOfMessage(src, gs, c.Spend(1));
  }

  lemma CourseOfState(s: State, a: Address)
    ensures var c := CourseOf(s);
      c.left == s.budget && c.moves == s.moves && c.residues == s.residues && (c.Knows(a) <==> s.Find(a) != 0)
  {
  }

  lemma MessagePicks()
    ensures |PickOrder(Message)| == 3
  {
  }

  lemma {:induction false} PicksOfMessage(src: Store, gs: map<nat, Field>, c: Course)
    requires UnionMember(UnionType(gs)).Some? && 1 in gs && gs[1].Ref?
    ensures var v, n := WalkPicks(src, Message, gs, 3, c),
                        Walk(src, TableKind(UnionMember(UnionType(gs)).value), gs[1].to, c).course.left;
      && v.course.left <= n - 2
      && v.late == if n - 1 in c.moves then map[0 := Residue(c.residues, n)] else map[]
  {
    hide Walk, WalkPicks, WalkPick, UnionMember, UnionType, Residue;
    WalkOfUnion(src, gs, c);
    FirstPick(src, gs, c);
    OtherPicks(src, gs, c);
    PicksSpend(src, Message, gs, 1, 3, c);
  }

  lemma {:induction false} FirstPick(src: Store, gs: map<nat, Field>, c: Course)
    ensures WalkPicks(src, Message, gs, 1, c) == WalkPick(src, Message, gs, 1, c)
  {
    hide WalkPick;
    assert WalkPicks(src, Message, gs, 0, c) == Visit(c, map[]);
  }

  /** The picks after that of the union store nothing too late. */
  lemma {:induction false} OtherPicks(src: Store, gs: map<nat, Field>, c: Course)
    ensures WalkPicks(src, Message, gs, 3, c).late == WalkPicks(src, Message, gs, 1, c).late
  {
    var v := WalkPicks(src, Message, gs, 1, c);
    var w := WalkPicks(src, Message, gs, 2, c);
    PlainPick(src, gs, 3, v.course);
    PlainPick(src, gs, 2, w.course);
    hide WalkPick;
  }

  lemma PlainPick(src: Store, gs: map<nat, Field>, id: nat, c: Course)
    requires id == 2 || id == 3
    ensures WalkPick(src, Message, gs, id, c).late == map[]
  {
    hide Walk;
  }

  lemma IntactType(s: State, p: Object, n: int, late: Late)
    requires HasUnion(p) && late == if n - 1 in s.moves then map[0 := Residue(s.residues, n)] else map[]
    ensures Intact(p, late) <==> (n - 1 in s.moves ==> UnionType(p.fields) == Residue(s.residues, n))
  {
    assert n - 1 in s.moves ==> 0 in late;
  }

  /** A message with a union, not cloned before: its clone means the same if and only if the add of the value does not
      move the stack, or the byte left in the field of the type happens to be that type. */
  lemma {:induction false} MessageKeepsMeaning(s: State, t: State, src: Store, a: Address, r: Address)
    requires a in src && HasUnion(src[a]) && WellFormed(src, src[a]) && s.Find(a) == 0
    requires Cloned(s, t, src, a, r) && Walked(s, t, src, a, r) && r != 0
    ensures 1 in src[a].fields && src[a].fields[1].Ref?
    ensures var n := LeftForUnion(s, src, src[a].fields);
      && n >= 3
      && (MeaningAt(t.out, TableKind(Message), r) == MeaningAt(src, TableKind(Message), a)
          <==> (n - 1 in s.moves ==> UnionType(src[a].fields) == Residue(s.residues, n)))
  {
    hide WellFormed, Grew, Exact, MeaningAt, Simulates, Walk, UnionMember, UnionType, CourseOf, Residue, Intact;
    hide LeftForUnion;
    MessageWalk(s, src, a);
    SameKind(t, src, r);
    MessageMeansTheSame(src, t.out, t.origin, t.late, r);
    IntactType(s, src[a], LeftForUnion(s, src, src[a].fields), LateOf(t.late, r));
    assert CourseOf(t).left >= 0 by { CourseOfState(t, a); }
  }

  /** A vector of messages, not cloned before: its clone means the same if and only if what the walk of the vector says
      was stored too late in each of them, the memoised ones included, is what it should be. */
  lemma {:induction false} MessagesKeepMeaning(s: State, t: State, src: Store, a: Address, r: Address)
    requires a in src && KindOf(src[a]) == VectorKind(Message) && WellFormed(src, src[a]) && r != 0
    requires Cloned(s, t, src, a, r) && ElementsWalked(s, t, src, a, r)
    ensures MeaningAt(t.out, VectorKind(Message), r) == MeaningAt(src, VectorKind(Message), a)
       <==> forall i :: 0 <= i < |src[a].elems| ==>
              Intact(src[src[a].elems[i]], ElementLate(s, src, Message, src[a].elems, i))
  {
    SameKind(t, src, r);
    VectorMeansTheSame(t, src, r);
    var rs, es := t.out[r].elems, src[a].elems;
    forall i | 0 <= i < |es|
      ensures ElementIntact(t, src, Message, rs[i]) <==> Intact(src[es[i]], ElementLate(s, src, Message, es, i))
    {
      SameKind(t, src, rs[i]);
    }
    hide ElementIntact, ElementLate, Intact, MeaningAt, Simulates, Grew, Exact, WellFormed;
  }

  /** A message without a union, or whose union reads as absent, is cloned without a condition. */
  lemma AbsentUnionKeepsMeaning(s: State, t: State, src: Store, a: Address, r: Address)
    requires a in src && KindOf(src[a]) == TableKind(Message) && !HasUnion(src[a]) && Cloned(s, t, src, a, r) && r != 0
    ensures MeaningAt(t.out, TableKind(Message), r) == MeaningAt(src, TableKind(Message), a)
  {
    assert Copies(t.out[r], src[a], t.origin, LateOf(t.late, r));
    assert LateOf(t.late, r) == map[];
    hide Grew, Exact, Copies;
    MessageMeansTheSame(src, t.out, t.origin, t.late, r);
  }

  /** A message with a login result. */
  const LOGIN_MESSAGE: Store := map[
    1 := Str([]),
    2 := Table(Login, map[0 := Ref(1)]),
    3 := Table(Message, map[0 := Scalar(1), 1 := Ref(2)])]

  /** Without a refmap, a table with one string in its only field spends four primitives. */
  lemma {:induction false} WalkOfOneString(src: Store, a: Address, c: Course)
    requires a in src && src[a].Table? && PickOrder(src[a].ty) == [0] && c.known.None?
    requires RefKind(src[a].ty, src[a].fields, 0) == Some(StringKind) && !Fields(src[a].ty)[0].UnionValueField?
    requires 0 in src[a].fields && src[a].fields[0].Ref? && Leads(src, StringKind, src[a].fields[0].to)
    ensures Walk(src, KindOf(src[a]), a, c) == Visit(c.Spend(4), map[])
  {
    var ty, gs, d := src[a].ty, src[a].fields, c.Spend(1);
    assert Walk(src, StringKind, gs[0].to, d) == Visit(d.Spend(1), map[]);
    hide Walk, PickOrder, Fields, RefKind;
    WalkOfTable(src, a, c);
    OnlyPick(src, ty, gs, d);
    hide WalkPicks;
  }

  lemma OnlyPick(src: Store, ty: TableType, gs: map<nat, Field>, c: Course)
    requires PickOrder(ty) == [0]
    ensures WalkPicks(src, ty, gs, 1, c) == WalkPick(src, ty, gs, 0, c)
  {
    hide WalkPick;
    assert WalkPicks(src, ty, gs, 0, c) == Visit(c, map[]);
  }

  /** A message with nothing but its union. */
  lemma {:induction false} WalkOfUnionOnly(src: Store, gs: map<nat, Field>, c: Course)
    requires UnionMember(UnionType(gs)).Some? && 1 in gs && gs[1].Ref? && 2 !in gs && 3 !in gs
    ensures WalkPicks(src, Message, gs, 3, c).course
         == Walk(src, TableKind(UnionMember(UnionType(gs)).value), gs[1].to, c).course.Spend(2)
  {
    WalkOfUnion(src, gs, c);
    FirstPick(src, gs, c);
    NoMorePicks(src, gs, c);
    hide WalkPicks, WalkPick, Walk, UnionMember, UnionType;
  }

  /** A message with nothing but a union whose table has one string. */
  lemma {:induction false} WalkOfLogin(src: Store, a: Address, gs: map<nat, Field>, c: Course)
    requires a in src && src[a] == Table(Message, gs) && c.known.None? && 2 !in gs && 3 !in gs
    requires UnionMember(UnionType(gs)) == Some(Login) && 1 in gs && gs[1].Ref?
    requires Leads(src, TableKind(Login), gs[1].to)
    requires 0 in src[gs[1].to].fields && src[gs[1].to].fields[0].Ref?
    requires Leads(src, StringKind, src[gs[1].to].fields[0].to)
    ensures Walk(src, TableKind(Login), gs[1].to, c.Spend(1)).course.left == c.left - 5
    ensures Walk(src, TableKind(Message), a, c).course.left == c.left - 8
  {
    hide UnionMember, UnionType, WalkPicks, Walk;
    LoginFields(src[gs[1].to].fields);
    WalkOfOneString(src, gs[1].to, c.Spend(1));
    WalkOfUnionOnly(src, gs, c.Spend(1));
    WalkOfTable(src, a, c);
  }

  lemma LoginFields(gs: map<nat, Field>)
    ensures PickOrder(Login) == [0] && RefKind(Login, gs, 0) == Some(StringKind)
    ensures |Fields(Login)| == 1 && !Fields(Login)[0].UnionValueField?
  {
  }

  /** What the clone of the message with a login result does to a builder without a refmap: of eight primitives the
      sixth and seventh add the union. */
  lemma LoginWalk(s: State)
    requires s.refmap.None?
    ensures LeftForUnion(s, LOGIN_MESSAGE, LOGIN_MESSAGE[3].fields) == s.budget - 5
    ensures Walk(LOGIN_MESSAGE, TableKind(Message), 3, CourseOf(s)).course.left == s.budget - 8
  {
    assert UnionMember(UnionType(LOGIN_MESSAGE[3].fields)) == Some(Login);
    hide Walk, UnionMember, UnionType;
    WalkOfLogin(LOGIN_MESSAGE, 3, LOGIN_MESSAGE[3].fields, CourseOf(s));
  }

  lemma NoMorePicks(src: Store, gs: map<nat, Field>, c: Course)
    requires 2 !in gs && 3 !in gs
    ensures WalkPicks(src, Message, gs, 3, c).course == WalkPicks(src, Message, gs, 1, c).course
  {
    hide Walk;
    assert WalkPicks(src, Message, gs, 2, c).course == WalkPicks(src, Message, gs, 1, c).course;
  }

  /** That message, cloned by a builder without a refmap that leaves a zero in the field of the type: the clone means
      the same if the seventh primitive does not move the stack, and otherwise it is well-formed and reads as a message
      with nothing in it. */
  lemma TypeLost(s: State, t: State, r: Address)
    requires s.refmap.None? && Residue(s.residues, s.budget - 5) == 0 && r != 0
    ensures var src := LOGIN_MESSAGE;
      && WellFormedStore(src) && MeaningAt(src, TableKind(Message), 3).fields.Keys == {0, 1}
      && (Cloned(s, t, src, 3, r) && Walked(s, t, src, 3, r) ==>
            MeaningAt(t.out, TableKind(Message), r)
            == if s.budget - 6 in s.moves then TableOf(Message, map[]) else MeaningAt(src, TableKind(Message), 3))
  {
    LoginIsWellFormed();
    hide WellFormedStore, Walk, MeaningAt;
    if Cloned(s, t, LOGIN_MESSAGE, 3, r) && Walked(s, t, LOGIN_MESSAGE, 3, r) {
      LoginKept(s, t, r);
      if s.budget - 6 in s.moves { LoginLost(s, t, r); }
    }
  }

  lemma LoginKept(s: State, t: State, r: Address)
    requires s.refmap.None? && Residue(s.residues, s.budget - 5) == 0 && r != 0
    requires Cloned(s, t, LOGIN_MESSAGE, 3, r) && Walked(s, t, LOGIN_MESSAGE, 3, r)
    ensures MeaningAt(t.out, TableKind(Message), r) == MeaningAt(LOGIN_MESSAGE, TableKind(Message), 3)
       <==> s.budget - 6 !in s.moves
  {
    LoginIsWellFormed();
    LoginWalk(s);
    hide WellFormedStore, WellFormed, Cloned, Walked, MeaningAt, LeftForUnion, Walk, UnionType, UnionMember;
    MessageKeepsMeaning(s, t, LOGIN_MESSAGE, 3, r);
  }

  lemma LoginLost(s: State, t: State, r: Address)
    requires s.refmap.None? && Residue(s.residues, s.budget - 5) == 0 && r != 0 && s.budget - 6 in s.moves
    requires Cloned(s, t, LOGIN_MESSAGE, 3, r) && Walked(s, t, LOGIN_MESSAGE, 3, r)
    ensures MeaningAt(t.out, TableKind(Message), r) == TableOf(Message, map[])
  {
    LoginIsWellFormed();
    LoginWalk(s);
    hide WellFormedStore, WellFormed, Grew, Exact, Simulates, MeaningAt, LeftForUnion, Walk, UnionType, UnionMember;
    hide Visible;
    MessageWalk(s, LOGIN_MESSAGE, 3);
    ReadsAsEmpty(t, LOGIN_MESSAGE, r);
  }

  lemma NewIsConsistent(s: State, src: Store)
    requires s.out == map[] && s.origin == map[] && s.late == map[] && (s.refmap.Some? ==> s.refmap.value == map[])
    ensures Consistent(s, src) && (s.refmap.Some? ==> Exact(s))
  {
  }

  /** The clone carried out on a new builder. */
  method CloneLogin(moves: set<nat>) returns (b: Builder, r: Address)
    ensures r != 0
    ensures MeaningAt(b.out, TableKind(Message), r)
         == if 2 in moves then TableOf(Message, map[]) else MeaningAt(LOGIN_MESSAGE, TableKind(Message), 3)
  {
    b := new Builder(8, moves, map[], false);
    ghost var s := b.Get();
    NewIsConsistent(s, LOGIN_MESSAGE);
    LoginIsWellFormed();
    LoginWalk(s);
    hide WellFormedStore, Walk, MeaningAt, LeftForUnion, Consistent, Cloned, WellFormed, HasUnion, CourseOf, UnionType;
    hide Visible;
    r := CloneTable(b, LOGIN_MESSAGE, Message, 3);
    TypeLost(s, b.Get(), r);
  }

  lemma LoginIsWellFormed()
    ensures var src := LOGIN_MESSAGE;
      && WellFormedStore(src) && HasUnion(src[3]) && Visible(Message, src[3].fields) == {0, 1}
      && KindOf(src[3]) == TableKind(Message) && UnionType(src[3].fields) == 1 && WellFormed(src, src[3])
      && MeaningAt(src, TableKind(Message), 3).fields.Keys == {0, 1}
  {
    var src := LOGIN_MESSAGE;
    assert RefKind(Message, src[3].fields, 1) == Some(TableKind(Login));
    assert RefKind(Login, src[2].fields, 0) == Some(StringKind);
    assert Visible(Login, src[2].fields) == {0};
    assert WellFormed(src, src[2]) && WellFormed(src, src[3]);
  }

  lemma ReadsAsEmpty(t: State, src: Store, r: Address)
    requires Simulates(src, t.out, t.origin, t.late) && r in t.origin && KindOf(src[t.origin[r]]) == TableKind(Message)
    requires Visible(Message, src[t.origin[r]].fields) == {0, 1} && LateOf(t.late, r) == map[0 := 0]
    ensures MeaningAt(t.out, TableKind(Message), r) == TableOf(Message, map[])
  {
    assert Copies(t.out[r], src[t.origin[r]], t.origin, LateOf(t.late, r));
    var fs := t.out[r].fields;
    assert FieldCopiesBut(fs[0], src[t.origin[r]].fields[0], t.origin, 0, LateOf(t.late, r));
    assert Visible(Message, fs) == {};
  }

  /** A later clone does not change what an earlier clone means. */
  lemma CloneKeepsEarlierClones(s: State, t: State, src: Store, k: Kind, a: Address, r: Address, x: Address)
    requires a in src && Consistent(s, src) && Cloned(s, t, src, a, r) && x in s.origin
    ensures MeaningAt(t.out, k, x) == MeaningAt(s.out, k, x)
  {
    MeaningUnchanged(s, t, src, k, x);
  }

  lemma {:induction false} MeaningUnchanged(s: State, t: State, src: Store, k: Kind, x: Address)
    requires Consistent(s, src) && Extends(s, t) && x in s.origin
    ensures MeaningAt(t.out, k, x) == MeaningAt(s.out, k, x)
    decreases Rank(k), 2
  {
    assert x in s.out && t.out[x] == s.out[x];
    SameKind(s, src, x);
    hide Consistent, Extends, FieldMeaning, Visible, RefKind;
    if KindOf(s.out[x]) == k {
      match s.out[x]
      case Table(ty, _) => TableUnchanged(s, t, src, x);
      case TableVec(ty, rs) =>
        forall i | 0 <= i < |rs|
          ensures MeaningAt(t.out, TableKind(ty), rs[i]) == MeaningAt(s.out, TableKind(ty), rs[i])
        {
          MeaningUnchanged(s, t, src, TableKind(ty), rs[i]);
        }
      case _ =>
    }
  }

  lemma SameFields(s: Store, s': Store, x: Address)
    requires x in s && x in s' && s[x] == s'[x] && s[x].Table?
    requires forall id :: id in Visible(s[x].ty, s[x].fields) ==>
      FieldMeaning(s, s[x].ty, s[x].fields, id) == FieldMeaning(s', s[x].ty, s[x].fields, id)
    ensures MeaningAt(s, TableKind(s[x].ty), x) == MeaningAt(s', TableKind(s[x].ty), x)
  {
    hide FieldMeaning, Visible;
  }

  lemma {:induction false} TableUnchanged(s: State, t: State, src: Store, x: Address)
    requires Consistent(s, src) && Extends(s, t) && x in s.origin && s.out[x].Table?
    ensures MeaningAt(t.out, TableKind(s.out[x].ty), x) == MeaningAt(s.out, TableKind(s.out[x].ty), x)
    decreases TableRank(s.out[x].ty), 1
  {
    assert x in s.out && t.out[x] == s.out[x];
    hide Consistent, Extends, FieldMeaning, MeaningAt, Visible, RefKind;
    var ty, fs := s.out[x].ty, s.out[x].fields;
    forall id | id in Visible(ty, fs)
      ensures id in fs && FieldMeaning(t.out, ty, fs, id) == FieldMeaning(s.out, ty, fs, id)
    {
      VisibleIsStored(ty, fs);
      FieldUnchanged(s, t, src, x, id);
    }
    SameFields(s.out, t.out, x);
  }

  lemma {:induction false} FieldUnchanged(s: State, t: State, src: Store, x: Address, id: nat)
    requires Consistent(s, src) && Extends(s, t) && x in s.origin && s.out[x].Table? && id in s.out[x].fields
    ensures FieldMeaning(t.out, s.out[x].ty, s.out[x].fields, id)
         == FieldMeaning(s.out, s.out[x].ty, s.out[x].fields, id)
    decreases TableRank(s.out[x].ty), 0
  {
    var ty, fs := s.out[x].ty, s.out[x].fields;
    if fs[id].Ref? && RefKind(ty, fs, id).Some? {
      FieldOfCopy(s, src, x, id);
      hide Consistent, Extends, MeaningAt, RefKind;
      MeaningUnchanged(s, t, src, RefKind(ty, fs, id).value, fs[id].to);
    }
  }

  /** With a refmap, two copies are the same object exactly when they copy the same object. */
  lemma CopiesAreShared(t: State, r: Address, r': Address)
    requires Exact(t) && r in t.origin && r' in t.origin
    ensures r == r' <==> t.origin[r] == t.origin[r']
  {
    assert t.refmap.value[t.origin[r]] == r && t.refmap.value[t.origin[r']] == r';
  }

  /** What an emitted field refers to is a copy of what the field it copies refers to. */
  lemma FieldOfCopy(t: State, src: Store, r: Address, id: nat)
    requires Consistent(t, src) && r in t.origin
    requires t.out[r].Table? && id in t.out[r].fields && t.out[r].fields[id].Ref?
    ensures var o := src[t.origin[r]];
      && o.Table? && id in o.fields && o.fields[id].Ref?
      && t.out[r].fields[id].to in t.origin && t.origin[t.out[r].fields[id].to] == o.fields[id].to
  {
    assert Copies(t.out[r], src[t.origin[r]], t.origin, LateOf(t.late, r));
    assert FieldCopiesBut(t.out[r].fields[id], src[t.origin[r]].fields[id], t.origin, id, LateOf(t.late, r));
  }

  /** What an emitted vector element refers to is a copy of what the element it copies refers to. */
  lemma ElementOfCopy(t: State, src: Store, r: Address, i: nat)
    requires Consistent(t, src) && r in t.origin && t.out[r].TableVec? && i < |t.out[r].elems|
    ensures var o := src[t.origin[r]];
      && o.TableVec? && i < |o.elems|
      && t.out[r].elems[i] in t.origin && t.origin[t.out[r].elems[i]] == o.elems[i]
  {
    SameKind(t, src, r);
  }

  /** With a refmap, two emitted fields lead to the same object exactly when the fields they copy do. */
  lemma SharingIsPreserved(t: State, src: Store, r: Address, id: nat, r': Address, id': nat)
    requires Consistent(t, src) && Exact(t) && r in t.origin && r' in t.origin
    requires t.out[r].Table? && id in t.out[r].fields && t.out[r].fields[id].Ref?
    requires t.out[r'].Table? && id' in t.out[r'].fields && t.out[r'].fields[id'].Ref?
    ensures src[t.origin[r]].Table? && id in src[t.origin[r]].fields && src[t.origin[r]].fields[id].Ref?
    ensures src[t.origin[r']].Table? && id' in src[t.origin[r']].fields && src[t.origin[r']].fields[id'].Ref?
    ensures t.out[r].fields[id] == t.out[r'].fields[id']
       <==> src[t.origin[r]].fields[id] == src[t.origin[r']].fields[id']
  {
    FieldOfCopy(t, src, r, id);
    FieldOfCopy(t, src, r', id');
    hide Consistent, Exact;
    CopiesAreShared(t, t.out[r].fields[id].to, t.out[r'].fields[id'].to);
  }

  /** The same for two elements of emitted vectors. */
  lemma SharingIsPreservedInVectors(t: State, src: Store, r: Address, i: nat, r': Address, i': nat)
    requires Consistent(t, src) && Exact(t) && r in t.origin && r' in t.origin
    requires t.out[r].TableVec? && i < |t.out[r].elems| && t.out[r'].TableVec? && i' < |t.out[r'].elems|
    ensures src[t.origin[r]].TableVec? && i < |src[t.origin[r]].elems|
    ensures src[t.origin[r']].TableVec? && i' < |src[t.origin[r']].elems|
    ensures t.out[r].elems[i] == t.out[r'].elems[i'] <==> src[t.origin[r]].elems[i] == src[t.origin[r']].elems[i']
  {
    ElementOfCopy(t, src, r, i);
    ElementOfCopy(t, src, r', i');
    hide Consistent, Exact;
    CopiesAreShared(t, t.out[r].elems[i], t.out[r'].elems[i']);
  }

  /** The same for a field and an element of a vector: a contract may be in a list and in another message. */
  lemma SharingIsPreservedAcross(t: State, src: Store, r: Address, id: nat, r': Address, i: nat)
    requires Consistent(t, src) && Exact(t) && r in t.origin && r' in t.origin
    requires t.out[r].Table? && id in t.out[r].fields && t.out[r].fields[id].Ref?
    requires t.out[r'].TableVec? && i < |t.out[r'].elems|
    ensures src[t.origin[r]].Table? && id in src[t.origin[r]].fields && src[t.origin[r]].fields[id].Ref?
    ensures src[t.origin[r']].TableVec? && i < |src[t.origin[r']].elems|
    ensures t.out[r].fields[id].to == t.out[r'].elems[i]
       <==> src[t.origin[r]].fields[id].to == src[t.origin[r']].elems[i]
  {
    FieldOfCopy(t, src, r, id);
    ElementOfCopy(t, src, r', i);
    hide Consistent, Exact;
    CopiesAreShared(t, t.out[r].fields[id].to, t.out[r'].elems[i]);
  }

  /** The source addresses of a set of copies. */
  ghost function Origins(t: State, rs: set<Address>): set<Address>
    requires rs <= t.origin.Keys
  {
    set r | r in rs :: t.origin[r]
  }

  lemma {:induction false} DistinctOrigins(t: State, rs: set<Address>)
    requires Exact(t) && rs <= t.origin.Keys
    ensures |Origins(t, rs)| == |rs|
  {
    if rs != {} {
      var r :| r in rs;
      DistinctOrigins(t, rs - {r});
      assert Origins(t, rs) == Origins(t, rs - {r}) + {t.origin[r]};
      assert t.origin[r] !in Origins(t, rs - {r});
    }
  }

  /** With a refmap, a clone emits exactly one object for each source object it newly copies,
      and it copies none that was copied before. */
  lemma OneObjectPerSource(s: State, t: State, src: Store, a: Address, r: Address)
    requires a in src && Consistent(s, src) && Exact(s) && Cloned(s, t, src, a, r) && r != 0
    ensures t.out.Keys - s.out.Keys <= t.origin.Keys
    ensures |t.out.Keys - s.out.Keys| == |Origins(t, t.out.Keys - s.out.Keys)|
    ensures Origins(t, t.out.Keys - s.out.Keys) !! Origins(t, s.origin.Keys)
  {
    DistinctOrigins(t, t.out.Keys - s.out.Keys);
  }

  /** `Message_clone`: on a builder in any consistent state it succeeds exactly if as many primitives do as the walk of
      the message spends. The result is a message that means the same exactly if the type of its union is not lost, and
      in which nothing dangles exactly if the type is not lost to another one, both as the walk says. Everything cloned
      so far is a well-formed buffer exactly if the latter holds of every message. */
  method CloneMessage(b: Builder, src: Store, a: Address) returns (r: Address)
    requires Consistent(b.Get(), src) && WellFormedStore(src) && Leads(src, TableKind(Message), a)
    modifies b
    ensures Consistent(b.Get(), src)
    ensures var v := Walk(src, TableKind(Message), a, CourseOf(old(b.Get())));
      if r == 0 then v.course.left < 0 && b.budget == 0 else
      && v == Visit(CourseOf(b.Get()), LateOf(b.late, r))
      && r in b.origin && b.origin[r] == a && b.frames == old(b.frames)
      && (MeaningAt(b.out, TableKind(Message), r) == MeaningAt(src, TableKind(Message), a) <==> Intact(src[a], v.late))
      && (Intact(src[a], v.late) ==>
            ReadAs(src, Message, src[a].fields, MeaningAt(b.out, TableKind(Message), r)))
      && (Whole(MeaningAt(b.out, TableKind(Message), r)) <==> Sound(src[a], v.late))
      && (WellFormedStore(CopiedStore(b.out, b.origin)) <==>
            forall x :: x in b.origin ==> Sound(src[b.origin[x]], LateOf(b.late, x)))
    ensures r != 0 && !HasUnion(src[a]) ==> LateOf(b.late, r) == map[]
    ensures r != 0 && old(Exact(b.Get())) ==> Exact(b.Get()) && b.Get().Find(a) == r
  {
    ghost var s := b.Get();
    hide Simulates, MeaningAt, Whole, WellFormed, Sound, Intact, HasUnion, Walk, KnownTo, ReadAs;
    r := CloneTable(b, src, Message, a);
    if r != 0 {
      AfterMessage(s, b.Get(), src, a, r);
      TableIsRead(src, a);
    }
  }

  lemma AfterMessage(s: State, t: State, src: Store, a: Address, r: Address)
    requires WellFormedStore(src) && Leads(src, TableKind(Message), a) && Cloned(s, t, src, a, r) && r != 0
    ensures MeaningAt(t.out, TableKind(Message), r) == MeaningAt(src, TableKind(Message), a)
       <==> Intact(src[a], LateOf(t.late, r))
    ensures Whole(MeaningAt(t.out, TableKind(Message), r)) <==> Sound(src[a], LateOf(t.late, r))
    ensures t.origin.Keys <= t.out.Keys && (forall x :: x in t.origin ==> t.origin[x] in src)
    ensures WellFormedStore(CopiedStore(t.out, t.origin))
       <==> forall x :: x in t.origin ==> Sound(src[t.origin[x]], LateOf(t.late, x))
    ensures !HasUnion(src[a]) ==> LateOf(t.late, r) == map[]
  {
    hide MeaningAt, Whole, WellFormed, Sound, Intact, HasUnion, Exact;
    SameKind(t, src, r);
    NoUnionNothingLate(t, src, r);
    hide Simulates;
    MessageMeansTheSame(src, t.out, t.origin, t.late, r);
    CopyIsWhole(src, t.out, t.origin, t.late, r);
    CopyIsWellFormed(src, t.out, t.origin, t.late);
  }

  lemma NoUnionNothingLate(t: State, src: Store, r: Address)
    requires Simulates(src, t.out, t.origin, t.late) && r in t.origin && KindOf(src[t.origin[r]]) == TableKind(Message)
    ensures !HasUnion(src[t.origin[r]]) ==> LateOf(t.late, r) == map[]
  {
    assert Copies(t.out[r], src[t.origin[r]], t.origin, LateOf(t.late, r));
  }

  /** The memo knows addresses only. Should another object `o` lie at the address of a cloned one, as a table does
      behind an empty vector, then its clone is the memoised reference, which is no object of its kind exactly if the
      kinds differ. */
  lemma {:induction false} MemoIsByAddress(s: State, t: State, src: Store, a: Address, r: Address, o: Object)
    requires a in src && Exact(s) && Cloned(s, t, src, a, r) && r != 0 && WellFormedStore(src[a := o])
    ensures t.Find(a) == r
    ensures Whole(MeaningAt(src[a := o], KindOf(o), a))
    ensures MeaningAt(t.out, KindOf(o), r) == Dangling <==> KindOf(o) != KindOf(src[a])
  {
    assert Leads(src[a := o], KindOf(o), a);
    hide Simulates, Grew, WellFormedStore, WellFormed, Whole;
    WellFormedIsWhole(src[a := o], KindOf(o), a);
    SameKind(t, src, r);
  }
}
