/** The response schema, stores of FlatBuffers objects, and what an object in a store means. */
module Schema {
  import opened Wrappers
  import opened Memory

  /** An address of an object in a source buffer, or a reference to an emitted object; 0 is null. */
  type Address = nat

  datatype TableType =
    | User | CheckContract | ListContracts | RequestContract | GetMe | Login | Register | EditMe | Message

  datatype Kind = StringKind | BytesKind | TableKind(ty: TableType) | VectorKind(ty: TableType) | UnionValuesKind

  datatype FieldKind = ScalarField | RefField(kind: Kind) | UnionTypeField | UnionValueField

  /** The fields of each table type, by field id. */
  function Fields(ty: TableType): (f: seq<FieldKind>)
    ensures |f| <= 8
  {
    var s := RefField(StringKind);
    match ty
    case User => [s, s, s]
    case CheckContract =>
      [ScalarField, s, s, ScalarField, RefField(BytesKind), ScalarField, ScalarField, RefField(TableKind(User))]
    case ListContracts => [RefField(VectorKind(CheckContract))]
    case RequestContract => [RefField(TableKind(CheckContract))]
    case GetMe => [s, s, s, s, ScalarField]
    case Login => [s]
    case Register => [s]
    case EditMe => [s]
    case Message => [UnionTypeField, UnionValueField, ScalarField, s]
  }

  /** The `__X_required` ids. */
  function Required(ty: TableType): set<nat> {
    match ty
    case User => {0, 1, 2}
    case CheckContract => {1, 7}
    case GetMe => {0, 1, 2, 3}
    case Message => {}
    case _ => {0}
  }

  /** The union members of `MessageType`; every other type value is NONE or unknown. */
  function UnionMember(t: int): Option<TableType> {
    match t
    case 1 => Some(Login)
    case 2 => Some(Register)
    case 3 => Some(GetMe)
    case 4 => Some(EditMe)
    case 5 => Some(RequestContract)
    case 6 => Some(ListContracts)
    case 7 => Some(CheckContract)
    case _ => None
  }

  /** References only ever lead to kinds of lower rank: the schema is not recursive. */
  function Rank(k: Kind): nat {
    match k
    case StringKind => 0
    case BytesKind => 0
    case TableKind(ty) => TableRank(ty)
    case VectorKind(ty) => TableRank(ty) + 1
    case UnionValuesKind => UNION_RANK
  }

  /** The rank of a message, and of a vector of the tables a message can hold. */
  const UNION_RANK := 5

  function TableRank(ty: TableType): nat {
    match ty
    case CheckContract => 2
    case ListContracts => 4
    case RequestContract => 4
    case Message => UNION_RANK
    case _ => 1
  }

  // ---------- Objects ----------

  /** A stored field: the raw bits of a scalar, or the address its offset leads to. */
  datatype Field = Scalar(bits: int) | Ref(to: Address)

  datatype Object =
    | Str(chars: seq<byte>)
    | Bytes(data: seq<byte>)
    | Table(ty: TableType, fields: map<nat, Field>)
    | TableVec(elemType: TableType, elems: seq<Address>)
    /** The values of a union vector; their types are in a byte vector beside it. */
    | UnionVec(values: seq<Address>)

  type Store = map<Address, Object>

  function KindOf(o: Object): Kind {
    match o
    case Str(_) => StringKind
    case Bytes(_) => BytesKind
    case Table(ty, _) => TableKind(ty)
    case TableVec(ty, _) => VectorKind(ty)
    case UnionVec(_) => UnionValuesKind
  }

  /** The `_type_get` of the message union: an absent type reads as NONE. */
  function UnionType(fields: map<nat, Field>): int {
    if 0 in fields && fields[0].Scalar? then fields[0].bits else 0
  }

  /** What the field with this id refers to in this table, if it is a reference. */
  function RefKind(ty: TableType, fields: map<nat, Field>, id: nat): (k: Option<Kind>)
    ensures k.Some? ==> Rank(k.value) < TableRank(ty) && k.value != UnionValuesKind
  {
    if id >= |Fields(ty)| then None else
    match Fields(ty)[id]
    case RefField(k) => Some(k)
    case UnionValueField =>
      var m := UnionMember(UnionType(fields));
      if m.Some? then Some(TableKind(m.value)) else None
    case _ => None
  }

  function IsUnionId(ty: TableType, id: nat): bool {
    ty == Message && id <= 1
  }

  /** The stored fields a reader of this schema sees: ids beyond the schema are ignored, and a union whose
      type is NONE or unknown is absent. */
  function Visible(ty: TableType, fields: map<nat, Field>): set<nat> {
    set id | id in fields && id < |Fields(ty)| && (IsUnionId(ty, id) ==> UnionMember(UnionType(fields)).Some?)
  }

  lemma VisibleIsStored(ty: TableType, gs: map<nat, Field>)
    ensures Visible(ty, gs) <= gs.Keys
  {
  }

  // ---------- Meaning ----------

  /** What a reader can learn from an object, addresses forgotten. */
  datatype Meaning =
    | StringOf(chars: seq<byte>)
    | BytesOf(data: seq<byte>)
    | TableOf(ty: TableType, fields: map<nat, Meaning>)
    | VectorOf(ty: TableType, elems: seq<Meaning>)
    /** Without the types no more than the length is known. */
    | ValuesOf(length: nat)
    | ScalarOf(bits: int)
    | Dangling

  function MeaningAt(s: Store, k: Kind, a: Address): Meaning
    decreases Rank(k), 1
  {
    if a !in s || KindOf(s[a]) != k then Dangling else
    match s[a]
    case Str(b) => StringOf(b)
    case Bytes(b) => BytesOf(b)
    case Table(ty, fields) => TableOf(ty, map id | id in Visible(ty, fields) :: FieldMeaning(s, ty, fields, id))
    case TableVec(ty, elems) =>
      VectorOf(ty, seq(|elems|, i requires 0 <= i < |elems| => MeaningAt(s, TableKind(ty), elems[i])))
    case UnionVec(values) => ValuesOf(|values|)
  }

  function FieldMeaning(s: Store, ty: TableType, fields: map<nat, Field>, id: nat): Meaning
    requires id in fields
    decreases TableRank(ty), 0
  {
    match (fields[id], RefKind(ty, fields, id))
    case (Scalar(v), None) => ScalarOf(v)
    case (Ref(a), Some(k)) => MeaningAt(s, k, a)
    case _ => Dangling
  }

  // ---------- Well-formed sources ----------

  /** Reference to a present object of the right kind. */
  predicate Leads(s: Store, k: Kind, a: Address) {
    a != 0 && a in s && KindOf(s[a]) == k
  }

  ghost predicate WellFormed(s: Store, o: Object) {
    match o
    case Table(ty, fields) =>
      && Required(ty) <= fields.Keys
      && (ty == Message && UnionMember(UnionType(fields)).Some? ==> 1 in fields)
      && forall id :: id in Visible(ty, fields) ==>
           var k := RefKind(ty, fields, id);
           if k.None? then fields[id].Scalar? else fields[id].Ref? && Leads(s, k.value, fields[id].to)
    case TableVec(ty, elems) => forall i :: 0 <= i < |elems| ==> Leads(s, TableKind(ty), elems[i])
    case _ => true
  }

  /** A buffer that passed verification: required fields present, every reference leads to an object of its kind. */
  ghost predicate WellFormedStore(s: Store) {
    0 !in s && forall a :: a in s ==> WellFormed(s, s[a])
  }

  /** No reference reachable in the meaning dangles. */
  ghost predicate Whole(m: Meaning) {
    match m
    case Dangling => false
    case TableOf(_, fields) => forall id :: id in fields ==> Whole(fields[id])
    case VectorOf(_, elems) => forall i :: 0 <= i < |elems| ==> Whole(elems[i])
    case _ => true
  }

  lemma {:induction false} WellFormedIsWhole(s: Store, k: Kind, a: Address)
    requires WellFormedStore(s) && Leads(s, k, a)
    ensures Whole(MeaningAt(s, k, a))
    decreases Rank(k)
  {
    match s[a]
    case Table(ty, fields) =>
      forall id | id in Visible(ty, fields)
        ensures Whole(FieldMeaning(s, ty, fields, id))
      {
        assert WellFormed(s, s[a]);
        if fields[id].Ref? {
          WellFormedIsWhole(s, RefKind(ty, fields, id).value, fields[id].to);
        }
      }
    case TableVec(ty, elems) =>
      forall i | 0 <= i < |elems|
        ensures Whole(MeaningAt(s, TableKind(ty), elems[i]))
      {
        assert WellFormed(s, s[a]);
        WellFormedIsWhole(s, TableKind(ty), elems[i]);
      }
    case _ =>
  }

  // ---------- Copies ----------

  /** The emitted field says what the source field says, when references are traced back to their origin. */
  ghost predicate FieldCopies(f: Field, g: Field, origin: map<Address, Address>) {
    match (f, g)
    case (Scalar(v), Scalar(w)) => v == w
    case (Ref(r), Ref(a)) => r in origin && origin[r] == a
    case _ => false
  }

  ghost predicate ElementsCopy(rs: seq<Address>, es: seq<Address>, origin: map<Address, Address>) {
    |rs| == |es| && forall i :: 0 <= i < |rs| ==> rs[i] in origin && origin[rs[i]] == es[i]
  }

  /** The fields of a table whose value was stored too late, with the byte each was left with. */
  type Late = map<nat, byte>

  function LateOf(late: map<Address, Late>, r: Address): Late {
    if r in late then late[r] else map[]
  }

  /** The fields of a table that generated code may store too late. */
  function LateFields(ty: TableType): set<nat> {
    if ty == Message then {0} else {}
  }

  /** A field of a copy, unless it was stored too late. */
  ghost predicate FieldCopiesBut(f: Field, g: Field, origin: map<Address, Address>, id: nat, late: Late) {
    if id in late then f == Scalar(late[id]) else FieldCopies(f, g, origin)
  }

  ghost predicate FieldsCopy(ty: TableType, fs: map<nat, Field>, gs: map<nat, Field>,
                             origin: map<Address, Address>, late: Late)
  {
    && fs.Keys == Visible(ty, gs)
    && late.Keys <= fs.Keys * LateFields(ty)
    && forall id :: id in fs ==> FieldCopiesBut(fs[id], gs[id], origin, id, late)
  }

  ghost predicate Copies(o: Object, p: Object, origin: map<Address, Address>, late: Late) {
    match (o, p)
    case (Str(b), Str(c)) => b == c && late == map[]
    case (Bytes(b), Bytes(c)) => b == c && late == map[]
    case (Table(ty, fs), Table(tz, gs)) => ty == tz && FieldsCopy(ty, fs, gs, origin, late)
    case (TableVec(ty, rs), TableVec(tz, es)) => ty == tz && ElementsCopy(rs, es, origin) && late == map[]
    case (UnionVec(rs), UnionVec(es)) => ElementsCopy(rs, es, origin) && late == map[]
    case _ => false
  }

  /** Every emitted object with an origin is a copy of the source object it originates from. */
  ghost predicate Simulates(src: Store, out: Store, origin: map<Address, Address>, late: map<Address, Late>) {
    forall r :: r in origin ==> r in out && origin[r] in src && Copies(out[r], src[origin[r]], origin, LateOf(late, r))
  }

  /** The bytes left in the fields stored too late happen to be the values of the source. */
  predicate Intact(p: Object, late: Late) {
    forall id :: id in late ==> p.Table? && id in p.fields && p.fields[id] == Scalar(late[id])
  }

  /** Each of them is right, or makes the union read as absent. */
  predicate Sound(p: Object, late: Late) {
    forall id :: id in late ==>
      p.Table? && id in p.fields && (p.fields[id] == Scalar(late[id]) || UnionMember(late[id]).None?)
  }

  lemma VisibleOfCopy(ty: TableType, fs: map<nat, Field>, gs: map<nat, Field>, origin: map<Address, Address>)
    requires fs.Keys == Visible(ty, gs) && forall id :: id in fs ==> FieldCopies(fs[id], gs[id], origin)
    ensures Visible(ty, fs) == Visible(ty, gs) == fs.Keys <= gs.Keys
    ensures forall id :: id in fs ==> RefKind(ty, fs, id) == RefKind(ty, gs, id)
    ensures ty == Message ==> UnionMember(UnionType(fs)) == UnionMember(UnionType(gs))
  {
    if ty == Message {
      assert UnionMember(UnionType(gs)).Some? ==> 0 in gs && 0 in Visible(ty, gs);
      assert 0 in fs ==> FieldCopies(fs[0], gs[0], origin);
    }
  }

  /** A table in which nothing was stored too late, or to no effect, is a copy in every field. */
  lemma IntactIsCopy(o: Object, p: Object, origin: map<Address, Address>, late: Late)
    requires o.Table? && Copies(o, p, origin, late) && Intact(p, late)
    ensures o.ty == p.ty && o.fields.Keys == Visible(o.ty, p.fields)
    ensures forall id :: id in o.fields ==> FieldCopies(o.fields[id], p.fields[id], origin)
  {
    forall id | id in o.fields
      ensures FieldCopies(o.fields[id], p.fields[id], origin)
    {
      assert FieldCopiesBut(o.fields[id], p.fields[id], origin, id, late);
    }
  }

  /** Only messages have fields that may be stored too late. */
  lemma NothingLate(o: Object, p: Object, origin: map<Address, Address>, late: Late)
    requires Copies(o, p, origin, late) && KindOf(o) != TableKind(Message)
    ensures late == map[]
  {
  }

  /** A copy of anything below a message means what its origin means: same values, same presence, same order, at
      every depth. */
  lemma {:induction false} CopyMeansTheSame(src: Store, out: Store, origin: map<Address, Address>,
                                            late: map<Address, Late>, k: Kind, r: Address)
    requires Simulates(src, out, origin, late) && r in origin && Rank(k) < UNION_RANK
    ensures MeaningAt(out, k, r) == MeaningAt(src, k, origin[r])
    decreases Rank(k), 2
  {
    hide FieldMeaning, Visible, RefKind;
    var o, p := out[r], src[origin[r]];
    assert Copies(o, p, origin, LateOf(late, r));
    if KindOf(o) == k {
      NothingLate(o, p, origin, LateOf(late, r));
      match o
      case Table(ty, fs) =>
        IntactIsCopy(o, p, origin, LateOf(late, r));
        IntactTableMeansTheSame(src, out, origin, late, r);
      case TableVec(ty, rs) =>
        forall i | 0 <= i < |rs|
          ensures MeaningAt(out, TableKind(ty), rs[i]) == MeaningAt(src, TableKind(ty), p.elems[i])
        {
          CopyMeansTheSame(src, out, origin, late, TableKind(ty), rs[i]);
        }
      case _ =>
    }
  }

  lemma {:induction false} IntactTableMeansTheSame(src: Store, out: Store, origin: map<Address, Address>,
                                                   late: map<Address, Late>, r: Address)
    requires Simulates(src, out, origin, late) && r in origin && out[r].Table?
    requires Intact(src[origin[r]], LateOf(late, r))
    ensures MeaningAt(out, KindOf(out[r]), r) == MeaningAt(src, KindOf(out[r]), origin[r])
    decreases TableRank(out[r].ty), 1
  {
    hide FieldMeaning, Visible, RefKind;
    var ty, fs, p := out[r].ty, out[r].fields, src[origin[r]];
    IntactIsCopy(out[r], p, origin, LateOf(late, r));
    VisibleOfCopy(ty, fs, p.fields, origin);
    forall id | id in Visible(ty, fs)
      ensures id in fs && id in p.fields && FieldMeaning(out, ty, fs, id) == FieldMeaning(src, ty, p.fields, id)
    {
      FieldCopyMeansTheSame(src, out, origin, late, ty, fs, p.fields, id);
    }
  }

  lemma {:induction false} FieldCopyMeansTheSame(src: Store, out: Store, origin: map<Address, Address>,
                                                 late: map<Address, Late>, ty: TableType,
                                                 fs: map<nat, Field>, gs: map<nat, Field>, id: nat)
    requires Simulates(src, out, origin, late) && id in fs && id in gs
    requires FieldCopies(fs[id], gs[id], origin) && RefKind(ty, fs, id) == RefKind(ty, gs, id)
    ensures FieldMeaning(out, ty, fs, id) == FieldMeaning(src, ty, gs, id)
    decreases TableRank(ty), 0
  {
    hide RefKind, MeaningAt, Copies;
    if fs[id].Ref? && RefKind(ty, fs, id).Some? {
      CopyMeansTheSame(src, out, origin, late, RefKind(ty, fs, id).value, fs[id].to);
    }
  }

  /** A copied message means what its origin means exactly if the type of its union was not lost. */
  lemma MessageMeansTheSame(src: Store, out: Store, origin: map<Address, Address>, late: map<Address, Late>, r: Address)
    requires Simulates(src, out, origin, late) && r in origin && KindOf(out[r]) == TableKind(Message)
    ensures MeaningAt(out, TableKind(Message), r) == MeaningAt(src, TableKind(Message), origin[r])
       <==> Intact(src[origin[r]], LateOf(late, r))
  {
    var p, l := src[origin[r]], LateOf(late, r);
    if Intact(p, l) {
      IntactTableMeansTheSame(src, out, origin, late, r);
    } else {
      LostTypeIsSeen(src, out, origin, r, l);
    }
  }

  lemma LostTypeIsSeen(src: Store, out: Store, origin: map<Address, Address>, r: Address, late: Late)
    requires r in origin && r in out && origin[r] in src && KindOf(out[r]) == TableKind(Message)
    requires Copies(out[r], src[origin[r]], origin, late) && !Intact(src[origin[r]], late)
    ensures MeaningAt(out, TableKind(Message), r) != MeaningAt(src, TableKind(Message), origin[r])
  {
    var fs, gs := out[r].fields, src[origin[r]].fields;
    assert 0 in fs && 0 in late && 0 in Visible(Message, gs);
    assert FieldCopiesBut(fs[0], gs[0], origin, 0, late);
    var m, n := MeaningAt(out, TableKind(Message), r), MeaningAt(src, TableKind(Message), origin[r]);
    assert 0 in n.fields && n.fields[0] == FieldMeaning(src, Message, gs, 0);
    assert 0 in m.fields ==> m.fields[0] == ScalarOf(late[0]);
  }

  lemma RequiredAreVisible(ty: TableType, fields: map<nat, Field>)
    requires Required(ty) <= fields.Keys
    ensures Required(ty) <= Visible(ty, fields)
    ensures ty == Message && UnionMember(UnionType(fields)).Some? && 1 in fields ==> {0, 1} <= Visible(ty, fields)
  {
  }

  /** The copies among the emitted objects. */
  function CopiedStore(out: Store, origin: map<Address, Address>): Store
    requires origin.Keys <= out.Keys
  {
    map r | r in origin :: out[r]
  }

  lemma ClonedKinds(src: Store, out: Store, origin: map<Address, Address>, late: map<Address, Late>)
    requires Simulates(src, out, origin, late)
    ensures origin.Keys <= out.Keys
    ensures forall x :: x in origin ==>
      x in CopiedStore(out, origin) && KindOf(CopiedStore(out, origin)[x]) == KindOf(src[origin[x]])
  {
    forall x | x in origin
      ensures x in out && KindOf(out[x]) == KindOf(src[origin[x]])
    {
      assert Copies(out[x], src[origin[x]], origin, LateOf(late, x));
    }
  }

  /** A copied object in which nothing was lost is well-formed among the copied objects. */
  lemma IntactIsWellFormed(src: Store, out: Store, origin: map<Address, Address>, late: map<Address, Late>, r: Address)
    requires Simulates(src, out, origin, late) && WellFormedStore(src) && 0 !in origin && r in origin
    requires Intact(src[origin[r]], LateOf(late, r))
    ensures origin.Keys <= out.Keys && WellFormed(CopiedStore(out, origin), out[r])
  {
    hide Fields, UnionMember, Required;
    var o, p := out[r], src[origin[r]];
    assert Copies(o, p, origin, LateOf(late, r)) && WellFormed(src, p);
    ClonedKinds(src, out, origin, late);
    if o.Table? {
      IntactIsCopy(o, p, origin, LateOf(late, r));
      VisibleOfCopy(o.ty, o.fields, p.fields, origin);
      RequiredAreVisible(o.ty, p.fields);
      assert forall id :: id in o.fields ==> FieldCopies(o.fields[id], p.fields[id], origin);
    }
  }

  lemma MembersDiffer(t: int, u: int)
    requires UnionMember(t).Some? && UnionMember(t) == UnionMember(u)
    ensures t == u
  {
  }

  /** What is left of the fields `gs` of a message whose union type was lost. */
  ghost predicate Lost(out: Store, origin: map<Address, Address>, fs: map<nat, Field>, gs: map<nat, Field>,
                       utype: byte)
  {
    && {0, 1} <= fs.Keys == Visible(Message, gs)
    && UnionType(fs) == utype != UnionType(gs)
    && UnionMember(UnionType(gs)).Some? && UnionMember(utype) != UnionMember(UnionType(gs))
    && fs[1].Ref? && fs[1].to in origin && fs[1].to in out
    && KindOf(out[fs[1].to]) == TableKind(UnionMember(UnionType(gs)).value)
    && fs[0].Scalar?
    && forall id :: id in fs && id != 0 ==> FieldCopies(fs[id], gs[id], origin)
  }

  lemma LostMessage(src: Store, out: Store, origin: map<Address, Address>, late: map<Address, Late>, r: Address)
    requires Simulates(src, out, origin, late) && WellFormedStore(src) && r in origin
    requires !Intact(src[origin[r]], LateOf(late, r))
    ensures KindOf(out[r]) == KindOf(src[origin[r]]) == TableKind(Message) && LateOf(late, r).Keys == {0}
    ensures Lost(out, origin, out[r].fields, src[origin[r]].fields, LateOf(late, r)[0])
    ensures Sound(src[origin[r]], LateOf(late, r)) <==> UnionMember(LateOf(late, r)[0]).None?
  {
    var fs, p, l := out[r].fields, src[origin[r]], LateOf(late, r);
    assert Copies(out[r], p, origin, l) && WellFormed(src, p);
    assert l.Keys == {0} && 0 in fs;
    assert 1 in Visible(Message, p.fields);
    forall id | id in fs && id != 0
      ensures FieldCopies(fs[id], p.fields[id], origin)
    {
      assert FieldCopiesBut(fs[id], p.fields[id], origin, id, l);
    }
    assert FieldCopiesBut(fs[0], p.fields[0], origin, 0, l);
    if UnionMember(l[0]) == UnionMember(UnionType(p.fields)) { MembersDiffer(UnionType(p.fields), l[0]); }
    hide UnionMember;
    assert RefKind(Message, p.fields, 1) == Some(TableKind(UnionMember(UnionType(p.fields)).value));
    assert FieldCopies(fs[1], p.fields[1], origin);
    ClonedKinds(src, out, origin, late);
  }

  /** The fields of such a message that a reader sees if its type is unknown, or another one. */
  lemma LostFields(out: Store, origin: map<Address, Address>, fs: map<nat, Field>, gs: map<nat, Field>, utype: byte)
    requires Lost(out, origin, fs, gs, utype)
    ensures if UnionMember(utype).Some?
      then 1 in Visible(Message, fs) && RefKind(Message, fs, 1) == Some(TableKind(UnionMember(utype).value))
      else Visible(Message, fs) <= {2, 3} * Visible(Message, gs)
    ensures RefKind(Message, fs, 2) == RefKind(Message, gs, 2) == None
    ensures RefKind(Message, fs, 3) == RefKind(Message, gs, 3) == Some(StringKind)
  {
    hide UnionMember;
  }

  /** It is well-formed exactly if the byte left in its type makes the union read as absent. */
  lemma LostIsWellFormed(src: Store, out: Store, origin: map<Address, Address>, late: map<Address, Late>, r: Address)
    requires Simulates(src, out, origin, late) && WellFormedStore(src) && 0 !in origin && r in origin
    requires !Intact(src[origin[r]], LateOf(late, r))
    ensures origin.Keys <= out.Keys
    ensures WellFormed(CopiedStore(out, origin), out[r]) <==> Sound(src[origin[r]], LateOf(late, r))
  {
    LostMessage(src, out, origin, late, r);
    ClonedKinds(src, out, origin, late);
    var fs, gs, l := out[r].fields, src[origin[r]].fields, LateOf(late, r);
    LostFields(out, origin, fs, gs, l[0]);
    if UnionMember(l[0]).None? {
      assert WellFormed(src, src[origin[r]]);
      hide UnionMember, Visible, RefKind, UnionType, Fields, Simulates, Intact, Sound;
      LostStaysWellFormed(src, out, origin, fs, gs, l[0]);
    } else {
      hide UnionMember, Visible, RefKind, Fields, Simulates, Intact, Sound;
    }
  }

  lemma LostStaysWellFormed(src: Store, out: Store, origin: map<Address, Address>,
                            fs: map<nat, Field>, gs: map<nat, Field>, utype: byte)
    requires Lost(out, origin, fs, gs, utype) && UnionMember(utype).None? && WellFormed(src, Table(Message, gs))
    requires origin.Keys <= out.Keys && 0 !in origin
    requires forall x :: x in origin ==> origin[x] in src && KindOf(out[x]) == KindOf(src[origin[x]])
    ensures WellFormed(CopiedStore(out, origin), Table(Message, fs))
  {
    LostFields(out, origin, fs, gs, utype);
    hide Visible, Fields, RefKind;
    forall id | id in Visible(Message, fs)
      ensures FieldCopies(fs[id], gs[id], origin)
    {
      assert id in {2, 3};
    }
  }

  /** The copies form a well-formed buffer exactly if in each of them the union type was kept or reads as absent. */
  lemma CopyIsWellFormed(src: Store, out: Store, origin: map<Address, Address>, late: map<Address, Late>)
    requires Simulates(src, out, origin, late) && WellFormedStore(src) && 0 !in origin
    ensures origin.Keys <= out.Keys
    ensures WellFormedStore(CopiedStore(out, origin))
       <==> forall r :: r in origin ==> Sound(src[origin[r]], LateOf(late, r))
  {
    ClonedKinds(src, out, origin, late);
    forall r | r in origin
      ensures CopiedStore(out, origin)[r] == out[r]
      ensures WellFormed(CopiedStore(out, origin), out[r]) <==> Sound(src[origin[r]], LateOf(late, r))
    {
      if Intact(src[origin[r]], LateOf(late, r)) {
        IntactIsWellFormed(src, out, origin, late, r);
      } else {
        LostIsWellFormed(src, out, origin, late, r);
      }
    }
    hide WellFormed, Sound, Simulates;
  }

  /** Nothing in the meaning of a copied message dangles exactly if its union type was kept or reads as absent. */
  lemma CopyIsWhole(src: Store, out: Store, origin: map<Address, Address>, late: map<Address, Late>, r: Address)
    requires Simulates(src, out, origin, late) && WellFormedStore(src) && r in origin
    requires Leads(src, TableKind(Message), origin[r])
    ensures Whole(MeaningAt(out, TableKind(Message), r)) <==> Sound(src[origin[r]], LateOf(late, r))
  {
    ClonedKinds(src, out, origin, late);
    WellFormedIsWhole(src, TableKind(Message), origin[r]);
    if Intact(src[origin[r]], LateOf(late, r)) {
      MessageMeansTheSame(src, out, origin, late, r);
    } else {
      LostIsWhole(src, out, origin, late, r);
    }
  }

  lemma LostIsWhole(src: Store, out: Store, origin: map<Address, Address>, late: map<Address, Late>, r: Address)
    requires Simulates(src, out, origin, late) && WellFormedStore(src) && r in origin
    requires !Intact(src[origin[r]], LateOf(late, r)) && Whole(MeaningAt(src, TableKind(Message), origin[r]))
    ensures Whole(MeaningAt(out, TableKind(Message), r)) <==> Sound(src[origin[r]], LateOf(late, r))
  {
    LostMessage(src, out, origin, late, r);
    var fs, gs, l := out[r].fields, src[origin[r]].fields, LateOf(late, r);
    LostFields(out, origin, fs, gs, l[0]);
    var m, n := MeaningAt(out, TableKind(Message), r), MeaningAt(src, TableKind(Message), origin[r]);
    hide UnionMember, Visible, RefKind, Fields, Intact, Sound, WellFormed;
    if UnionMember(l[0]).Some? {
      assert 1 in m.fields && m.fields[1] == FieldMeaning(out, Message, fs, 1) == Dangling;
    } else {
      forall id | id in Visible(Message, fs)
        ensures FieldMeaning(out, Message, fs, id) == n.fields[id]
      {
        assert id in {2, 3};
        FieldCopyMeansTheSame(src, out, origin, late, Message, fs, gs, id);
      }
    }
  }
}
