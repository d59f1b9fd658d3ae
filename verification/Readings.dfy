/** What a reader sees in the tables of the response schema, table by table as the schema lists them. */
module Readings {
  import opened Wrappers
  import opened Schema

  /** The scalar field `id` of a table with fields `gs`, seen if it is stored. */
  ghost predicate ScalarSeen(gs: map<nat, Field>, m: map<nat, Meaning>, id: nat) {
    if id in gs then gs[id].Scalar? && id in m && m[id] == ScalarOf(gs[id].bits) else id !in m
  }

  ghost predicate StringSeen(s: Store, gs: map<nat, Field>, m: map<nat, Meaning>, id: nat) {
    if id !in gs then id !in m else
    && gs[id].Ref? && gs[id].to in s && s[gs[id].to].Str?
    && id in m && m[id] == StringOf(s[gs[id].to].chars)
  }

  ghost predicate BytesSeen(s: Store, gs: map<nat, Field>, m: map<nat, Meaning>, id: nat) {
    if id !in gs then id !in m else
    && gs[id].Ref? && gs[id].to in s && s[gs[id].to].Bytes?
    && id in m && m[id] == BytesOf(s[gs[id].to].data)
  }

  ghost predicate TableSeen(s: Store, gs: map<nat, Field>, m: map<nat, Meaning>, id: nat, ty: TableType) {
    if id !in gs then id !in m else
    && gs[id].Ref? && gs[id].to in s && s[gs[id].to].Table? && s[gs[id].to].ty == ty
    && id in m && m[id] == MeaningAt(s, TableKind(ty), gs[id].to)
  }

  /** A vector of tables is seen element by element. */
  ghost predicate TablesSeen(s: Store, gs: map<nat, Field>, m: map<nat, Meaning>, id: nat, ty: TableType) {
    if id !in gs then id !in m else
    && gs[id].Ref? && gs[id].to in s && s[gs[id].to].TableVec? && id in m
    && var es := s[gs[id].to].elems;
    && m[id].VectorOf? && m[id].ty == ty && |m[id].elems| == |es|
    && forall i :: 0 <= i < |es| ==>
         es[i] in s && s[es[i]].Table? && s[es[i]].ty == ty && m[id].elems[i] == MeaningAt(s, TableKind(ty), es[i])
  }

  /** What the schema says of the tables a message holds. */
  ghost predicate TableRead(s: Store, ty: TableType, gs: map<nat, Field>, m: map<nat, Meaning>) {
    match ty
    case User =>
      && {0, 1, 2} <= gs.Keys && m.Keys <= {0, 1, 2}
      && StringSeen(s, gs, m, 0) && StringSeen(s, gs, m, 1) && StringSeen(s, gs, m, 2)
    case CheckContract =>
      && {1, 7} <= gs.Keys && m.Keys <= {0, 1, 2, 3, 4, 5, 6, 7}
      && ScalarSeen(gs, m, 0) && StringSeen(s, gs, m, 1) && StringSeen(s, gs, m, 2) && ScalarSeen(gs, m, 3)
      && BytesSeen(s, gs, m, 4) && ScalarSeen(gs, m, 5) && ScalarSeen(gs, m, 6) && TableSeen(s, gs, m, 7, User)
    case ListContracts => {0} <= gs.Keys && m.Keys <= {0} && TablesSeen(s, gs, m, 0, CheckContract)
    case RequestContract => {0} <= gs.Keys && m.Keys <= {0} && TableSeen(s, gs, m, 0, CheckContract)
    case GetMe =>
      && {0, 1, 2, 3} <= gs.Keys && m.Keys <= {0, 1, 2, 3, 4}
      && StringSeen(s, gs, m, 0) && StringSeen(s, gs, m, 1) && StringSeen(s, gs, m, 2) && StringSeen(s, gs, m, 3)
      && ScalarSeen(gs, m, 4)
    case Message => m.Keys <= {0, 1, 2, 3} && ScalarSeen(gs, m, 2) && StringSeen(s, gs, m, 3)
    case _ => {0} <= gs.Keys && m.Keys <= {0} && StringSeen(s, gs, m, 0)
  }

  /** The members of the union of a message, from type 1 on. */
  const MEMBERS: seq<TableType> := [Login, Register, GetMe, EditMe, RequestContract, ListContracts, CheckContract]

  /** The union of a message: type and table if the type is that of a member, nothing otherwise. */
  ghost predicate UnionRead(s: Store, gs: map<nat, Field>, m: map<nat, Meaning>) {
    if 0 in gs && gs[0].Scalar? && 1 <= gs[0].bits <= 7
    then
      && 0 in m && m[0] == ScalarOf(gs[0].bits)
      && 1 in gs && TableSeen(s, gs, m, 1, MEMBERS[gs[0].bits - 1])
    else 0 !in m && 1 !in m
  }

  lemma MembersAreMembers(t: int)
    ensures UnionMember(t) == if 1 <= t <= 7 then Some(MEMBERS[t - 1]) else None
  {
  }

  /** `m` are the meanings of the visible fields of a well-formed table. */
  ghost predicate Read(s: Store, ty: TableType, gs: map<nat, Field>, m: map<nat, Meaning>) {
    && WellFormed(s, Table(ty, gs)) && m.Keys == Visible(ty, gs)
    && forall id :: id in m ==> id in gs && m[id] == FieldMeaning(s, ty, gs, id)
  }

  lemma ScalarIsSeen(s: Store, ty: TableType, gs: map<nat, Field>, m: map<nat, Meaning>, id: nat)
    requires Read(s, ty, gs, m) && id < |Fields(ty)| && Fields(ty)[id].ScalarField?
    ensures ScalarSeen(gs, m, id)
  {
    hide Fields, UnionMember, UnionType;
    NoUnionField(ty, id);
  }

  lemma NoUnionField(ty: TableType, id: nat)
    requires id < |Fields(ty)| && (Fields(ty)[id].ScalarField? || Fields(ty)[id].RefField?)
    ensures !IsUnionId(ty, id)
  {
  }

  /** A stored reference field leads to an object of its kind, and means what that object means. */
  lemma ReferenceIsSeen(s: Store, ty: TableType, gs: map<nat, Field>, m: map<nat, Meaning>, id: nat, k: Kind)
    requires Read(s, ty, gs, m) && id < |Fields(ty)| && Fields(ty)[id] == RefField(k)
    ensures id in m <==> id in gs
    ensures id in gs ==> gs[id].Ref? && Leads(s, k, gs[id].to) && m[id] == MeaningAt(s, k, gs[id].to)
  {
    hide Fields, UnionMember, UnionType, MeaningAt;
    NoUnionField(ty, id);
  }

  lemma StringIsSeen(s: Store, ty: TableType, gs: map<nat, Field>, m: map<nat, Meaning>, id: nat)
    requires Read(s, ty, gs, m) && id < |Fields(ty)| && Fields(ty)[id] == RefField(StringKind)
    ensures StringSeen(s, gs, m, id)
  {
    ReferenceIsSeen(s, ty, gs, m, id, StringKind);
    hide Fields, Read;
  }

  lemma BytesAreSeen(s: Store, ty: TableType, gs: map<nat, Field>, m: map<nat, Meaning>, id: nat)
    requires Read(s, ty, gs, m) && id < |Fields(ty)| && Fields(ty)[id] == RefField(BytesKind)
    ensures BytesSeen(s, gs, m, id)
  {
    ReferenceIsSeen(s, ty, gs, m, id, BytesKind);
    hide Fields, Read;
  }

  lemma TableIsSeen(s: Store, ty: TableType, gs: map<nat, Field>, m: map<nat, Meaning>, id: nat, tz: TableType)
    requires Read(s, ty, gs, m) && id < |Fields(ty)| && Fields(ty)[id] == RefField(TableKind(tz))
    ensures TableSeen(s, gs, m, id, tz)
  {
    ReferenceIsSeen(s, ty, gs, m, id, TableKind(tz));
    hide Fields, Read, MeaningAt;
  }

  lemma TablesAreSeen(s: Store, ty: TableType, gs: map<nat, Field>, m: map<nat, Meaning>, id: nat, tz: TableType)
    requires Read(s, ty, gs, m) && id < |Fields(ty)| && Fields(ty)[id] == RefField(VectorKind(tz))
    requires WellFormedStore(s)
    ensures TablesSeen(s, gs, m, id, tz)
  {
    hide Fields, Read, FieldMeaning, MeaningAt, WellFormedStore;
    ReferenceIsSeen(s, ty, gs, m, id, VectorKind(tz));
    if id in gs {
      LeadsToVector(s, tz, gs[id].to);
      VectorIsSeen(s, tz, gs[id].to);
    }
  }

  lemma LeadsToVector(s: Store, ty: TableType, x: Address)
    requires Leads(s, VectorKind(ty), x)
    ensures x in s && s[x].TableVec? && s[x].elemType == ty
  {
  }

  lemma VectorIsSeen(s: Store, ty: TableType, x: Address)
    requires WellFormedStore(s) && Leads(s, VectorKind(ty), x)
    ensures s[x].TableVec?
    ensures var m, es := MeaningAt(s, VectorKind(ty), x), s[x].elems;
      && m.VectorOf? && m.ty == ty && |m.elems| == |es|
      && forall i :: 0 <= i < |es| ==>
           Leads(s, TableKind(ty), es[i]) && m.elems[i] == MeaningAt(s, TableKind(ty), es[i])
  {
    assert WellFormed(s, s[x]);
    hide WellFormedStore, FieldMeaning;
  }

  lemma UnionIsRead(s: Store, gs: map<nat, Field>, m: map<nat, Meaning>)
    requires Read(s, Message, gs, m)
    ensures UnionRead(s, gs, m)
  {
    MembersAreMembers(UnionType(gs));
    hide UnionMember, MeaningAt;
    if 0 in gs && gs[0].Scalar? && 1 <= gs[0].bits <= 7 {
      assert 0 in Visible(Message, gs) && 1 in Visible(Message, gs);
      assert RefKind(Message, gs, 1) == Some(TableKind(MEMBERS[gs[0].bits - 1]));
    }
  }

  lemma MeaningOfTable(s: Store, a: Address)
    requires a in s && s[a].Table?
    ensures var ty, gs, m := s[a].ty, s[a].fields, MeaningAt(s, TableKind(s[a].ty), a);
      && m.TableOf? && m.ty == ty && m.fields.Keys == Visible(ty, gs)
      && forall id :: id in m.fields ==> id in gs && m.fields[id] == FieldMeaning(s, ty, gs, id)
  {
    VisibleIsStored(s[a].ty, s[a].fields);
    hide FieldMeaning, Visible;
  }

  lemma IsRead(s: Store, a: Address)
    requires WellFormedStore(s) && a in s && s[a].Table?
    ensures MeaningAt(s, TableKind(s[a].ty), a).TableOf? && MeaningAt(s, TableKind(s[a].ty), a).ty == s[a].ty
    ensures Read(s, s[a].ty, s[a].fields, MeaningAt(s, TableKind(s[a].ty), a).fields)
  {
    assert WellFormed(s, s[a]);
    hide WellFormedStore, WellFormed, FieldMeaning, MeaningAt, Visible;
    MeaningOfTable(s, a);
  }

  /** The ids seen are those of fields of the schema, and the required ones are stored. */
  lemma IdsSeen(s: Store, ty: TableType, gs: map<nat, Field>, m: map<nat, Meaning>)
    requires Read(s, ty, gs, m)
    ensures Required(ty) <= gs.Keys && forall id :: id in m ==> id < |Fields(ty)|
  {
    hide Fields, Required, FieldMeaning;
  }

  lemma ContractIsRead(s: Store, gs: map<nat, Field>, m: map<nat, Meaning>)
    requires Read(s, CheckContract, gs, m)
    ensures TableRead(s, CheckContract, gs, m)
  {
    hide Read, ScalarSeen, StringSeen, BytesSeen, TableSeen;
    IdsSeen(s, CheckContract, gs, m);
    ScalarIsSeen(s, CheckContract, gs, m, 0);
    StringIsSeen(s, CheckContract, gs, m, 1);
    StringIsSeen(s, CheckContract, gs, m, 2);
    ScalarIsSeen(s, CheckContract, gs, m, 3);
    BytesAreSeen(s, CheckContract, gs, m, 4);
    ScalarIsSeen(s, CheckContract, gs, m, 5);
    ScalarIsSeen(s, CheckContract, gs, m, 6);
    TableIsSeen(s, CheckContract, gs, m, 7, User);
  }

  lemma UserIsRead(s: Store, gs: map<nat, Field>, m: map<nat, Meaning>)
    requires Read(s, User, gs, m)
    ensures TableRead(s, User, gs, m)
  {
    hide Read, ScalarSeen, StringSeen;
    IdsSeen(s, User, gs, m);
    StringIsSeen(s, User, gs, m, 0);
    StringIsSeen(s, User, gs, m, 1);
    StringIsSeen(s, User, gs, m, 2);
  }

  lemma GetMeIsRead(s: Store, gs: map<nat, Field>, m: map<nat, Meaning>)
    requires Read(s, GetMe, gs, m)
    ensures TableRead(s, GetMe, gs, m)
  {
    hide Read, ScalarSeen, StringSeen;
    IdsSeen(s, GetMe, gs, m);
    StringIsSeen(s, GetMe, gs, m, 0);
    StringIsSeen(s, GetMe, gs, m, 1);
    StringIsSeen(s, GetMe, gs, m, 2);
    StringIsSeen(s, GetMe, gs, m, 3);
    ScalarIsSeen(s, GetMe, gs, m, 4);
  }

  lemma ListContractsIsRead(s: Store, gs: map<nat, Field>, m: map<nat, Meaning>)
    requires Read(s, ListContracts, gs, m) && WellFormedStore(s)
    ensures TableRead(s, ListContracts, gs, m)
  {
    hide Read, WellFormedStore, TablesSeen;
    IdsSeen(s, ListContracts, gs, m);
    TablesAreSeen(s, ListContracts, gs, m, 0, CheckContract);
  }

  lemma RequestContractIsRead(s: Store, gs: map<nat, Field>, m: map<nat, Meaning>)
    requires Read(s, RequestContract, gs, m)
    ensures TableRead(s, RequestContract, gs, m)
  {
    hide Read, TableSeen;
    IdsSeen(s, RequestContract, gs, m);
    TableIsSeen(s, RequestContract, gs, m, 0, CheckContract);
  }

  /** The replies that consist of a token. */
  lemma TokenIsRead(s: Store, ty: TableType, gs: map<nat, Field>, m: map<nat, Meaning>)
    requires Read(s, ty, gs, m) && ty in {Login, Register, EditMe}
    ensures TableRead(s, ty, gs, m)
  {
    hide Read, StringSeen;
    IdsSeen(s, ty, gs, m);
    StringIsSeen(s, ty, gs, m, 0);
  }

  lemma MessageIsRead(s: Store, gs: map<nat, Field>, m: map<nat, Meaning>)
    requires Read(s, Message, gs, m)
    ensures TableRead(s, Message, gs, m)
  {
    hide Read, ScalarSeen, StringSeen;
    IdsSeen(s, Message, gs, m);
    ScalarIsSeen(s, Message, gs, m, 2);
    StringIsSeen(s, Message, gs, m, 3);
  }

  /** `m` is a table of this type, read as the schema says. */
  ghost predicate ReadAs(s: Store, ty: TableType, gs: map<nat, Field>, m: Meaning) {
    && m.TableOf? && m.ty == ty && TableRead(s, ty, gs, m.fields)
    && (ty == Message ==> UnionRead(s, gs, m.fields))
  }

  /** A reader of a verified buffer sees every field of the schema that is stored, as what it is, and no other. */
  lemma TableIsRead(s: Store, a: Address)
    requires WellFormedStore(s) && a in s && s[a].Table?
    ensures ReadAs(s, s[a].ty, s[a].fields, MeaningAt(s, TableKind(s[a].ty), a))
  {
    IsRead(s, a);
    hide WellFormedStore, MeaningAt, Read, TableRead, UnionRead;
    var ty, gs, m := s[a].ty, s[a].fields, MeaningAt(s, TableKind(s[a].ty), a).fields;
    match ty
    case Message =>
      MessageIsRead(s, gs, m);
      UnionIsRead(s, gs, m);
    case CheckContract => ContractIsRead(s, gs, m);
    case User => UserIsRead(s, gs, m);
    case GetMe => GetMeIsRead(s, gs, m);
    case ListContracts => ListContractsIsRead(s, gs, m);
    case RequestContract => RequestContractIsRead(s, gs, m);
    case Login => TokenIsRead(s, ty, gs, m);
    case Register => TokenIsRead(s, ty, gs, m);
    case EditMe => TokenIsRead(s, ty, gs, m);
  }
}
