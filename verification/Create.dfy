/** Building a contract field by field: scalars equal to their default are not stored, and no getter can tell. */
module Create {
  import opened Wrappers
  import opened Schema
  import opened Builders

  /** A scalar getter of the reader. */
  function GetScalar(fields: map<nat, Field>, id: nat, default: int): int {
    if id in fields && fields[id].Scalar? then fields[id].bits else default
  }

  /** The stored reference of a field, null if it is absent. */
  function GetReference(fields: map<nat, Field>, id: nat): Address {
    if id in fields && fields[id].Ref? then fields[id].to else 0
  }

  /** The fields after `_add(v)` of a scalar: a value equal to the default is skipped. */
  function AfterAdd(fields: map<nat, Field>, id: nat, v: int, default: int): (r: map<nat, Field>)
    ensures fields.Keys <= r.Keys <= fields.Keys + {id}
  {
    if v == default then fields else fields[id := Scalar(v)]
  }

  /** The innermost open table of `s` has the fields `fields` in `t`. */
  ghost predicate TopHas(s: State, t: State, fields: map<nat, Field>) {
    && s.frames != [] && s.Top().TableFrame?
    && t.frames == s.Below() + [s.Top().(fields := fields)]
  }

  /** The generated scalar `_add`: 0 or -1. */
  method AddScalar(b: Builder, id: nat, v: int, default: int) returns (rc: int)
    requires b.frames != [] && b.Get().Top().TableFrame?
    requires id !in b.Get().Top().fields && id < |Fields(b.Get().Top().ty)|
    modifies b`frames, b`budget, b`moved
    ensures if rc == 0
      then TopHas(old(b.Get()), b.Get(), AfterAdd(old(b.Get().Top().fields), id, v, default))
      else b.budget == 0 && b.frames == old(b.frames)
    ensures b.budget <= old(b.budget)
  {
    if v == default { return 0; }
    rc := b.TableAdd(id, Scalar(v));
  }

  /** The generated `_add` of a string, vector or table field: a null reference is an error. */
  method AddReference(b: Builder, id: nat, ref: Address) returns (rc: int)
    requires b.frames != [] && b.Get().Top().TableFrame?
    requires id !in b.Get().Top().fields && id < |Fields(b.Get().Top().ty)|
    modifies b`frames, b`budget, b`moved
    ensures if rc == 0
      then ref != 0 && TopHas(old(b.Get()), b.Get(), old(b.Get().Top().fields)[id := Ref(ref)])
      else (ref == 0 || b.budget == 0) && b.frames == old(b.frames)
    ensures b.budget <= old(b.budget)
  {
    if ref == 0 { return -1; }
    rc := b.TableAdd(id, Ref(ref));
  }

  /** A field to add: a scalar with the default of its field, or a reference. */
  datatype Add = ScalarAdd(id: nat, v: int, default: int) | ReferenceAdd(id: nat, ref: Address)

  /** The fields after a successful `_add`. */
  function AfterOne(fields: map<nat, Field>, add: Add): (r: map<nat, Field>)
    ensures fields.Keys <= r.Keys <= fields.Keys + {add.id}
  {
    match add
    case ScalarAdd(id, v, default) => AfterAdd(fields, id, v, default)
    case ReferenceAdd(id, ref) => fields[id := Ref(ref)]
  }

  function AfterAdds(fields: map<nat, Field>, adds: seq<Add>): map<nat, Field> {
    if adds == [] then fields else AfterOne(AfterAdds(fields, adds[..|adds| - 1]), adds[|adds| - 1])
  }

  /** The getter of the added field returns what was added, and the field is stored unless it is a scalar that has its
      default. */
  ghost predicate ReadsBack(fields: map<nat, Field>, add: Add) {
    match add
    case ScalarAdd(id, v, default) => GetScalar(fields, id, default) == v && (id in fields <==> v != default)
    case ReferenceAdd(id, ref) => GetReference(fields, id) == ref && id in fields
  }

  /** In whatever order scalars and references are added to fields not stored before, each getter returns what was
      added. */
  lemma {:induction false} GettersReturnWhatWasAdded(fields: map<nat, Field>, adds: seq<Add>, i: nat)
    requires i < |adds|
    requires forall j :: 0 <= j < |adds| ==> adds[j].id !in fields
    requires forall j, k :: 0 <= j < k < |adds| ==> adds[j].id != adds[k].id
    ensures ReadsBack(AfterAdds(fields, adds), adds[i])
  {
    var init := adds[..|adds| - 1];
    if i == |adds| - 1 {
      OthersUntouched(fields, init, adds[i].id);
    } else {
      GettersReturnWhatWasAdded(fields, init, i);
    }
  }

  lemma {:induction false} OthersUntouched(fields: map<nat, Field>, adds: seq<Add>, id: nat)
    requires forall j :: 0 <= j < |adds| ==> adds[j].id != id
    ensures id in AfterAdds(fields, adds) <==> id in fields
    ensures id in fields ==> AfterAdds(fields, adds)[id] == fields[id]
  {
    if adds != [] { OthersUntouched(fields, adds[..|adds| - 1], id); }
  }

  /** The arguments of `CheckContract_create`; scalars are given by their bits. */
  datatype Contract = Contract(id: int, name: Address, description: Address, price: int, attachment: Address,
                               status: int, createdAt: int, byUser: Address)

  /** The bits of the default price, -1.0; no other bit pattern equals it. */
  const DEFAULT_PRICE := 0xBFF0_0000_0000_0000

  /** As an IEEE 754 double: the sign bit set, the exponent that of 1, no fraction. */
  lemma DefaultPriceIsMinusOne()
    ensures DEFAULT_PRICE / 0x8000_0000_0000_0000 == 1
    ensures DEFAULT_PRICE / 0x10_0000_0000_0000 % 2048 == 1023
    ensures DEFAULT_PRICE % 0x10_0000_0000_0000 == 0
  {
  }

  /** The wide scalars, which are added first. */
  function WideScalars(c: Contract): (r: map<nat, Field>)
    ensures r.Keys <= {0, 3, 6}
  {
    AfterAdd(AfterAdd(AfterAdd(map[], 0, c.id, -1), 3, c.price, DEFAULT_PRICE), 6, c.createdAt, 0)
  }

  function WithReferences(fields: map<nat, Field>, c: Contract): (r: map<nat, Field>)
    ensures r.Keys == fields.Keys + {1, 2, 4, 7}
  {
    fields[1 := Ref(c.name)][2 := Ref(c.description)][4 := Ref(c.attachment)][7 := Ref(c.byUser)]
  }

  /** What `CheckContract_create` stores, in its order of adding. */
  function ContractFields(c: Contract): map<nat, Field> {
    AfterAdd(WithReferences(WideScalars(c), c), 5, c.status, 1)
  }

  /** Every getter returns what was passed, stored or elided. */
  lemma ContractGetters(c: Contract)
    ensures var fields := ContractFields(c);
      && GetScalar(fields, 0, -1) == c.id
      && GetReference(fields, 1) == c.name
      && GetReference(fields, 2) == c.description
      && GetScalar(fields, 3, DEFAULT_PRICE) == c.price
      && GetReference(fields, 4) == c.attachment
      && GetScalar(fields, 5, 1) == c.status
      && GetScalar(fields, 6, 0) == c.createdAt
      && GetReference(fields, 7) == c.byUser
  {
  }

  lemma ContractSchema()
    ensures |Fields(CheckContract)| == 8 && Required(CheckContract) == {1, 7}
  {
  }

  /** The open table of a contract holds `fields`. */
  ghost predicate ContractOpen(t: State, below: seq<Frame>, fields: map<nat, Field>) {
    t.frames == below + [TableFrame(CheckContract, fields, map[])]
  }

  method AddWideScalars(b: Builder, c: Contract, ghost below: seq<Frame>) returns (rc: int)
    requires ContractOpen(b.Get(), below, map[])
    modifies b`frames, b`budget, b`moved
    ensures b.budget <= old(b.budget)
    ensures if rc == 0 then ContractOpen(b.Get(), below, WideScalars(c)) else b.budget == 0
  {
    hide AfterAdd, Fields;
    ContractSchema();
    rc := AddScalar(b, 0, c.id, -1);
    if rc != 0 { return; }
    rc := AddScalar(b, 3, c.price, DEFAULT_PRICE);
    if rc != 0 { return; }
    rc := AddScalar(b, 6, c.createdAt, 0);
  }

  method AddReferences(b: Builder, c: Contract, ghost below: seq<Frame>, ghost fields: map<nat, Field>)
    returns (rc: int)
    requires ContractOpen(b.Get(), below, fields) && fields.Keys !! {1, 2, 4, 7}
    modifies b`frames, b`budget, b`moved
    ensures b.budget <= old(b.budget)
    ensures if rc == 0
      then
        && ContractOpen(b.Get(), below, WithReferences(fields, c))
        && 0 !in {c.name, c.description, c.attachment, c.byUser}
      else b.budget == 0 || 0 in {c.name, c.description, c.attachment, c.byUser}
  {
    hide Fields;
    ContractSchema();
    rc := AddReference(b, 1, c.name);
    if rc != 0 { return; }
    rc := AddReference(b, 2, c.description);
    if rc != 0 { return; }
    rc := AddReference(b, 4, c.attachment);
    if rc != 0 { return; }
    rc := AddReference(b, 7, c.byUser);
  }

  /** `CheckContract_create` succeeds, unless a primitive fails, exactly if all four references are given, the
      optional ones too. */
  method CreateContract(b: Builder, c: Contract) returns (r: Address)
    requires b.Get().Valid()
    modifies b
    ensures b.Get().Valid()
    ensures r == 0 ==> b.budget == 0 || 0 in {c.name, c.description, c.attachment, c.byUser}
    ensures r != 0 ==>
      && 0 !in {c.name, c.description, c.attachment, c.byUser}
      && b.frames == old(b.frames)
      && r !in old(b.out)
      && b.out == old(b.out)[r := Table(CheckContract, ContractFields(c))]
  {
    hide AfterAdd, WideScalars, WithReferences, Fields, Required;
    ContractSchema();
    ghost var below := b.frames;
    var rc := b.StartTable(CheckContract);
    if rc != 0 { return 0; }
    rc := AddWideScalars(b, c, below);
    if rc != 0 { return 0; }
    rc := AddReferences(b, c, below, WideScalars(c));
    if rc != 0 { return 0; }
    rc := AddScalar(b, 5, c.status, 1);
    if rc != 0 { return 0; }
    r := b.EndTable(None);
  }
}
