/** The SQL statements two request handlers assemble with chained `strlcat`, and the sizes of their buffers. */
module Queries {
  import opened Wrappers
  import opened Memory
  import opened CStrings

  // ---------- edit_me ----------

  const EDIT_SIZE := 16384

  /** The inputs of the UPDATE: the optional fields that are present, as `PQescapeLiteral` returned them, and the
      escaped new and old token. */
  datatype Edit = Edit(admin: bool, username: Option<string>, password: Option<string>,
                       firstName: Option<string>, lastName: Option<string>, newToken: string, oldToken: string)

  /** The token changes exactly when the user name or the password does. */
  predicate Regenerates(e: Edit) {
    e.username.Some? || e.password.Some?
  }

  function Assignment(column: string, value: Option<string>): string {
    if value.Some? then column + value.value else []
  }

  /** The statement the handler means to send. */
  function EditStatement(e: Edit): string {
    "UPDATE users SET admin = " + (if e.admin then "TRUE" else "FALSE")
    + Assignment(", username = ", e.username)
    + Assignment(", password = ", e.password)
    + Assignment(", firstname = ", e.firstName)
    + Assignment(", lastname = ", e.lastName)
    + Assignment(", token = ", if Regenerates(e) then Some(e.newToken) else None)
    + " WHERE token = " + e.oldToken
  }

  ghost predicate NulFree(value: Option<string>) {
    value.Some? ==> NUL !in value.value
  }

  /** Appends one optional assignment. */
  method AppendAssignment(query: array<char>, column: string, value: Option<string>, size: nat, ghost all: string)
    requires Holds(query[..], size, all) && size < TWO_TO_THE_64 && NUL !in column && NulFree(value)
    modifies query
    ensures Holds(query[..], size, all + Assignment(column, value))
  {
    if value.Some? {
      Append(query, column, size, all);
      Append(query, value.value, size, all + column);
      assert all + column + value.value == all + (column + value.value);
    } else {
      assert all + [] == all;
    }
  }

  lemma HoldsText(buf: string, size: nat, all: string)
    requires Holds(buf, size, all)
    ensures size > 0 && Text(buf) == Take(all, size - 1)
  {
  }

  method AppendCredentials(query: array<char>, e: Edit, ghost all: string) returns (regenerateToken: bool)
    requires Holds(query[..], EDIT_SIZE, all) && NulFree(e.username) && NulFree(e.password)
    modifies query
    ensures Holds(query[..], EDIT_SIZE,
                  all + Assignment(", username = ", e.username) + Assignment(", password = ", e.password))
    ensures regenerateToken <==> Regenerates(e)
  {
    hide Assignment, Holds;
    regenerateToken := false;
    AppendAssignment(query, ", username = ", e.username, EDIT_SIZE, all);
    if e.username.Some? { regenerateToken := true; }
    AppendAssignment(query, ", password = ", e.password, EDIT_SIZE, all + Assignment(", username = ", e.username));
    if e.password.Some? { regenerateToken := true; }
  }

  method AppendNames(query: array<char>, e: Edit, ghost all: string)
    requires Holds(query[..], EDIT_SIZE, all) && NulFree(e.firstName) && NulFree(e.lastName)
    modifies query
    ensures Holds(query[..], EDIT_SIZE,
                  all + Assignment(", firstname = ", e.firstName) + Assignment(", lastname = ", e.lastName))
  {
    hide Assignment, Holds;
    AppendAssignment(query, ", firstname = ", e.firstName, EDIT_SIZE, all);
    AppendAssignment(query, ", lastname = ", e.lastName, EDIT_SIZE, all + Assignment(", firstname = ", e.firstName));
  }

  /** A column of a statement with the value it is given, if any. */
  datatype Column = Column(name: string, value: Option<string>)

  /** The assignments of the columns that are given a value, each value right behind its column. */
  function Assignments(columns: seq<Column>): string {
    if columns == [] then []
    else
      var c := columns[0];
      (if c.value.Some? then ", " + c.name + " = " + c.value.value else []) + Assignments(columns[1..])
  }

  /** The columns `edit_me` may set; the token is renewed with the user name and with the password. */
  function EditColumns(e: Edit): seq<Column> {
    [Column("username", e.username), Column("password", e.password), Column("firstname", e.firstName),
     Column("lastname", e.lastName),
     Column("token", if e.username.None? && e.password.None? then None else Some(e.newToken))]
  }

  /** The statement sets the given columns, and those only, of the user with the old token. */
  ghost predicate ReadsAsEdit(t: string, e: Edit) {
    var head := "UPDATE users SET admin = " + (if e.admin then "TRUE" else "FALSE");
    var tail := " WHERE token = " + e.oldToken;
    && |head| + |tail| <= |t|
    && t[..|head|] == head && t[|t| - |tail|..] == tail
    && t[|head|..|t| - |tail|] == Assignments(EditColumns(e))
  }

  lemma Spelled(column: string, name: string, value: Option<string>, rest: seq<Column>)
    requires column == ", " + name + " = "
    ensures Assignment(column, value) + Assignments(rest) == Assignments([Column(name, value)] + rest)
  {
    var all := [Column(name, value)] + rest;
    assert all[0] == Column(name, value) && all[1..] == rest;
  }

  /** The assignments one after the other, as the handler appends them. */
  lemma AssignmentsSpelled(e: Edit)
    ensures var token := if Regenerates(e) then Some(e.newToken) else None;
      Assignments(EditColumns(e)) ==
        Assignment(", username = ", e.username)
        + (Assignment(", password = ", e.password)
           + (Assignment(", firstname = ", e.firstName)
              + (Assignment(", lastname = ", e.lastName) + (Assignment(", token = ", token) + []))))
  {
    var cs := EditColumns(e);
    assert cs[4..] == [cs[4]] + [] && cs[3..] == [cs[3]] + cs[4..] && cs[2..] == [cs[2]] + cs[3..];
    assert cs[1..] == [cs[1]] + cs[2..] && cs == [cs[0]] + cs[1..];
    hide Assignment, Assignments;
    Spelled(", token = ", "token", cs[4].value, []);
    Spelled(", lastname = ", "lastname", cs[3].value, cs[4..]);
    Spelled(", firstname = ", "firstname", cs[2].value, cs[3..]);
    Spelled(", password = ", "password", cs[1].value, cs[2..]);
    Spelled(", username = ", "username", cs[0].value, cs[1..]);
    NoAssignments();
  }

  lemma NoAssignments()
    ensures Assignments([]) == []
  {
  }

  lemma Regrouped(h0: string, h1: string, a: string, b: string, c: string, d: string, t: string, w: string, o: string)
    ensures h0 + h1 + a + b + c + d + t + w + o == (h0 + h1) + (a + (b + (c + (d + (t + []))))) + (w + o)
  {
  }

  lemma InThreeParts(t: string, head: string, middle: string, tail: string)
    requires t == head + middle + tail
    ensures |head| + |tail| <= |t| && t[..|head|] == head && t[|t| - |tail|..] == tail
    ensures t[|head|..|t| - |tail|] == middle
  {
  }

  lemma EditReads(e: Edit)
    ensures ReadsAsEdit(EditStatement(e), e)
  {
    hide Assignment, Assignments, EditColumns;
    AssignmentsSpelled(e);
    var head := "UPDATE users SET admin = " + (if e.admin then "TRUE" else "FALSE");
    Regrouped("UPDATE users SET admin = ", if e.admin then "TRUE" else "FALSE",
              Assignment(", username = ", e.username), Assignment(", password = ", e.password),
              Assignment(", firstname = ", e.firstName), Assignment(", lastname = ", e.lastName),
              Assignment(", token = ", if Regenerates(e) then Some(e.newToken) else None),
              " WHERE token = ", e.oldToken);
    InThreeParts(EditStatement(e), head, Assignments(EditColumns(e)), " WHERE token = " + e.oldToken);
  }

  lemma EditSent(t: string, e: Edit)
    requires t == Take(EditStatement(e), EDIT_SIZE - 1)
    ensures EditSizes(e) ==> ReadsAsEdit(t, e)
  {
    hide Take, EditStatement, ReadsAsEdit;
    EditReads(e);
    if EditSizes(e) { EditIsComplete(e); }
  }

  /** The query buffer `edit_me` fills and sends. */
  method AssembleEdit(e: Edit) returns (query: array<char>, regenerateToken: bool)
    requires NulFree(e.username) && NulFree(e.password) && NulFree(e.firstName) && NulFree(e.lastName)
    requires NUL !in e.newToken && NUL !in e.oldToken
    ensures regenerateToken <==> Regenerates(e)
    ensures Text(query[..]) == Take(EditStatement(e), EDIT_SIZE - 1)
    ensures EditSizes(e) ==> ReadsAsEdit(Text(query[..]), e)
  {
    hide Text, Take, Assignment, Holds, ReadsAsEdit, EditSizes;
    query := new char[EDIT_SIZE];
    Strncpy(query, "UPDATE users SET admin = ", EDIT_SIZE);
    ghost var all := "UPDATE users SET admin = ";
    Append(query, if e.admin then "TRUE" else "FALSE", EDIT_SIZE, all);
    all := all + if e.admin then "TRUE" else "FALSE";
    regenerateToken := AppendCredentials(query, e, all);
    all := all + Assignment(", username = ", e.username) + Assignment(", password = ", e.password);
    AppendNames(query, e, all);
    all := all + Assignment(", firstname = ", e.firstName) + Assignment(", lastname = ", e.lastName);
    ghost var token := if Regenerates(e) then Some(e.newToken) else None;
    AppendAssignment(query, ", token = ", if regenerateToken then Some(e.newToken) else None, EDIT_SIZE, all);
    all := all + Assignment(", token = ", token);
    Append(query, " WHERE token = ", EDIT_SIZE, all);
    Append(query, e.oldToken, EDIT_SIZE, all + " WHERE token = ");
    HoldsText(query[..], EDIT_SIZE, EditStatement(e));
    hide EditStatement;
    EditSent(Text(query[..]), e);
  }

  /** Escaping `n` bytes as a literal doubles quotes and backslashes and adds at most ` E''`. */
  ghost predicate EscapedFrom(literal: string, n: nat) {
    |literal| <= 2 * n + 4
  }

  ghost predicate OptionEscapedFrom(value: Option<string>, n: nat) {
    value.Some? ==> EscapedFrom(value.value, n)
  }

  /** What escaping may make of fields of the sizes the request's schema allows. */
  ghost predicate EditSizes(e: Edit) {
    && OptionEscapedFrom(e.username, 64) && OptionEscapedFrom(e.password, 128)
    && OptionEscapedFrom(e.firstName, 32) && OptionEscapedFrom(e.lastName, 32)
    && EscapedFrom(e.newToken, 128) && EscapedFrom(e.oldToken, 128)
  }

  /** No subset of the optional fields can make the statement outgrow the buffer; it stays below a tenth of it. */
  lemma EditIsComplete(e: Edit)
    requires EditSizes(e)
    ensures |EditStatement(e)| <= 1156
    ensures Take(EditStatement(e), EDIT_SIZE - 1) == EditStatement(e)
  {
  }

  // ---------- request_contract ----------

  const REQUEST_SIZE := 2097152

  const INSERT :=
    "INSERT INTO contracts (name, " + "description, price, attachment, " + "\"user\", created_at)\nVALUES ("

  /** An attachment as it arrives: how many bytes it has, and what `PQescapeByteaConn` makes of them. */
  datatype Attachment = Attachment(len: nat, escaped: string)

  /** The inputs of the INSERT: the raw name, the escaped description and the attachment, if present, and the
      printed price, user id and time. */
  datatype Request = Request(name: string, description: Option<string>, price: string,
                             attachment: Option<Attachment>, userId: string, time: string)

  /** An attachment is stored only if it is neither empty nor longer than 131072 bytes. */
  predicate Stored(a: Option<Attachment>) {
    a.Some? && 0 < a.value.len <= 131072
  }

  function DescriptionPart(r: Request): string {
    if r.description.Some? then ", " + r.description.value else ", NULL"
  }

  function AttachmentPart(r: Request): string {
    if Stored(r.attachment) then ", '" + r.attachment.value.escaped + "'" else ", NULL"
  }

  /** The statement the handler means to send. */
  function RequestStatement(r: Request): string {
    INSERT + "'" + r.name + "'" + DescriptionPart(r) + ", " + r.price + AttachmentPart(r)
    + ", " + r.userId + ", " + r.time + ") RETURNING id"
  }

  ghost predicate RequestNulFree(r: Request) {
    && NUL !in r.name && NulFree(r.description) && NUL !in r.price && NUL !in r.userId && NUL !in r.time
    && (r.attachment.Some? ==> NUL !in r.attachment.value.escaped)
  }

  method AppendDescription(query: array<char>, r: Request, ghost all: string)
    requires Holds(query[..], REQUEST_SIZE, all) && RequestNulFree(r)
    modifies query
    ensures Holds(query[..], REQUEST_SIZE, all + DescriptionPart(r))
  {
    if r.description.Some? {
      Append(query, ", ", REQUEST_SIZE, all);
      Append(query, r.description.value, REQUEST_SIZE, all + ", ");
      assert all + ", " + r.description.value == all + (", " + r.description.value);
    } else {
      Append(query, ", NULL", REQUEST_SIZE, all);
    }
  }

  /** The attachment branch: an empty or too long vector jumps to the branch of the absent one, which also resets
      the length that later decides whether the response carries the attachment. */
  method AppendAttachment(query: array<char>, r: Request, ghost all: string) returns (attachmentsLen: nat)
    requires Holds(query[..], REQUEST_SIZE, all) && RequestNulFree(r)
    modifies query
    ensures Holds(query[..], REQUEST_SIZE, all + AttachmentPart(r))
    ensures attachmentsLen == if Stored(r.attachment) then r.attachment.value.len else 0
  {
    attachmentsLen := 0;
    var noVec := true;
    if r.attachment.Some? {
      attachmentsLen := r.attachment.value.len;
      if attachmentsLen != 0 && attachmentsLen <= 131072 { noVec := false; }
    }
    if !noVec {
      Append(query, ", '", REQUEST_SIZE, all);
      Append(query, r.attachment.value.escaped, REQUEST_SIZE, all + ", '");
      Append(query, "'", REQUEST_SIZE, all + ", '" + r.attachment.value.escaped);
      assert all + ", '" + r.attachment.value.escaped + "'" == all + (", '" + r.attachment.value.escaped + "'");
    } else {
      Append(query, ", NULL", REQUEST_SIZE, all);
      attachmentsLen := 0;
    }
  }

  /** A literal of the statement, or NULL for an absent value. */
  function OrNull(value: Option<string>): string {
    if value.Some? then value.value else "NULL"
  }

  /** The columns of a new contract with their values; the name is quoted here, and so is the attachment, which is
      stored if it has between 1 and 131072 bytes. */
  function ContractColumns(r: Request): seq<Column> {
    var a := r.attachment;
    [Column("name", Some("'" + r.name + "'")), Column("description", r.description), Column("price", Some(r.price)),
     Column("attachment", if a.None? || a.value.len == 0 || a.value.len > 131072 then None
                          else Some("'" + a.value.escaped + "'")),
     Column("\"user\"", Some(r.userId)), Column("created_at", Some(r.time))]
  }

  function Names(columns: seq<Column>): string {
    if columns == [] then [] else ", " + columns[0].name + Names(columns[1..])
  }

  function Values(columns: seq<Column>): string {
    if columns == [] then [] else ", " + OrNull(columns[0].value) + Values(columns[1..])
  }

  /** The statement lists the columns, and in the same order their values. */
  ghost predicate ReadsAsInsert(t: string, columns: seq<Column>) {
    && columns != []
    && t == "INSERT INTO contracts (" + Names(columns)[2..] + ")\nVALUES (" + Values(columns)[2..] + ") RETURNING id"
  }

  lemma NamesStep(cs: seq<Column>, i: nat)
    requires i < |cs|
    ensures Names(cs[i..]) == ", " + cs[i].name + Names(cs[i + 1..])
  {
    assert cs[i..][1..] == cs[i + 1..];
  }

  lemma ValuesStep(cs: seq<Column>, i: nat)
    requires i < |cs|
    ensures Values(cs[i..]) == ", " + OrNull(cs[i].value) + Values(cs[i + 1..])
  {
    assert cs[i..][1..] == cs[i + 1..];
  }

  lemma FirstLiteral()
    ensures "INSERT INTO contracts (" + "name" + ", " == "INSERT INTO contracts (name, "
  {
  }

  lemma SecondLiteral()
    ensures "description" + ", " + "price" + ", " + "attachment" + ", " == "description, price, attachment, "
  {
  }

  lemma ThirdLiteral()
    ensures "\"user\"" + ", " + "created_at" + ")\nVALUES (" == "\"user\", created_at)\nVALUES ("
  {
  }

  lemma NamesRegrouped(h: string, s: string, a: string, b: string, c: string, d: string, e: string, f: string,
                       t: string)
    requires |s| == 2
    ensures h + (s + a + (s + b + (s + c + (s + d + (s + e + (s + f + []))))))[2..] + t
         == (h + a + s) + (b + s + c + s + d + s) + (e + s + f + t)
  {
  }

  lemma NamesSpelled(r: Request)
    ensures "INSERT INTO contracts (" + Names(ContractColumns(r))[2..] + ")\nVALUES (" == INSERT
  {
    var cs := ContractColumns(r);
    NamesStep(cs, 5);
    NamesStep(cs, 4);
    NamesStep(cs, 3);
    NamesStep(cs, 2);
    NamesStep(cs, 1);
    NamesStep(cs, 0);
    assert cs[0..] == cs && cs[6..] == [];
    assert Names(cs[6..]) == [];
    hide Names;
    NamesRegrouped("INSERT INTO contracts (", ", ", "name", "description", "price", "attachment", "\"user\"",
                   "created_at", ")\nVALUES (");
    FirstLiteral();
    SecondLiteral();
    ThirdLiteral();
  }

  lemma ValuesRegrouped(s: string, a: string, b: string, c: string, d: string, e: string, f: string)
    requires |s| == 2
    ensures (s + a + (s + b + (s + c + (s + d + (s + e + (s + f + []))))))[2..]
         == a + (s + b) + s + c + (s + d) + s + e + s + f
  {
  }

  lemma PartsAreValues(r: Request)
    ensures "'" + r.name + "'" == OrNull(ContractColumns(r)[0].value)
    ensures DescriptionPart(r) == ", " + OrNull(ContractColumns(r)[1].value)
    ensures AttachmentPart(r) == ", " + OrNull(ContractColumns(r)[3].value)
  {
    assert ", " + "NULL" == ", NULL";
    if Stored(r.attachment) {
      var a := r.attachment.value.escaped;
      assert ", '" == ", " + "'";
      assert ", '" + a + "'" == ", " + ("'" + a + "'");
    }
  }

  lemma ValuesSpelled(r: Request)
    ensures Values(ContractColumns(r))[2..]
         == "'" + r.name + "'" + DescriptionPart(r) + ", " + r.price + AttachmentPart(r)
            + ", " + r.userId + ", " + r.time
  {
    var cs := ContractColumns(r);
    ValuesStep(cs, 5);
    ValuesStep(cs, 4);
    ValuesStep(cs, 3);
    ValuesStep(cs, 2);
    ValuesStep(cs, 1);
    ValuesStep(cs, 0);
    assert cs[0..] == cs && cs[6..] == [];
    assert Values(cs[6..]) == [];
    assert OrNull(cs[2].value) == r.price && OrNull(cs[4].value) == r.userId && OrNull(cs[5].value) == r.time;
    PartsAreValues(r);
    hide Values, OrNull, DescriptionPart, AttachmentPart;
    ValuesRegrouped(", ", OrNull(cs[0].value), OrNull(cs[1].value), r.price, OrNull(cs[3].value), r.userId, r.time);
  }

  lemma RequestReads(r: Request)
    ensures ReadsAsInsert(RequestStatement(r), ContractColumns(r))
  {
    NamesSpelled(r);
    ValuesSpelled(r);
    hide Names, Values, DescriptionPart, AttachmentPart;
  }

  lemma RequestSent(t: string, r: Request)
    requires t == Take(RequestStatement(r), REQUEST_SIZE - 1)
    ensures RequestSizes(r) && |r.name| <= LONGEST_NAME ==> ReadsAsInsert(t, ContractColumns(r))
  {
    hide Take, RequestStatement, ReadsAsInsert;
    RequestReads(r);
    if RequestSizes(r) && |r.name| <= LONGEST_NAME { RequestIsComplete(r); }
  }

  /** The query buffer `request_contract` fills and sends. */
  method AssembleRequest(r: Request) returns (query: array<char>, attachmentsLen: nat)
    requires RequestNulFree(r)
    ensures Text(query[..]) == Take(RequestStatement(r), REQUEST_SIZE - 1)
    ensures RequestSizes(r) && |r.name| <= LONGEST_NAME ==> ReadsAsInsert(Text(query[..]), ContractColumns(r))
    ensures attachmentsLen == if Stored(r.attachment) then r.attachment.value.len else 0
  {
    hide Text, Take, Holds, DescriptionPart, AttachmentPart, Stored, ReadsAsInsert, RequestSizes;
    query := new char[REQUEST_SIZE];
    Strncpy(query, INSERT, REQUEST_SIZE);
    ghost var all := INSERT;
    Append(query, "'", REQUEST_SIZE, all);
    Append(query, r.name, REQUEST_SIZE, all + "'");
    Append(query, "'", REQUEST_SIZE, all + "'" + r.name);
    all := all + "'" + r.name + "'";
    AppendDescription(query, r, all);
    all := all + DescriptionPart(r);
    Append(query, ", ", REQUEST_SIZE, all);
    Append(query, r.price, REQUEST_SIZE, all + ", ");
    all := all + ", " + r.price;
    attachmentsLen := AppendAttachment(query, r, all);
    all := all + AttachmentPart(r);
    Append(query, ", ", REQUEST_SIZE, all);
    Append(query, r.userId, REQUEST_SIZE, all + ", ");
    all := all + ", " + r.userId;
    Append(query, ", ", REQUEST_SIZE, all);
    Append(query, r.time, REQUEST_SIZE, all + ", ");
    Append(query, ") RETURNING id", REQUEST_SIZE, all + ", " + r.time);
    HoldsText(query[..], REQUEST_SIZE, RequestStatement(r));
    hide RequestStatement;
    RequestSent(Text(query[..]), r);
  }

  /** The sizes of what is not under the user's control, and of what escaping makes of the rest. */
  ghost predicate RequestSizes(r: Request) {
    && OptionEscapedFrom(r.description, 16384)
    && (r.attachment.Some? ==> |r.attachment.value.escaped| <= 5 * r.attachment.value.len)
    && |r.price| <= 127 && |r.userId| <= 20 && |r.time| <= 63
  }

  /** The longest name that fits whatever the other fields are. */
  const LONGEST_NAME := 1408692

  /** Names up to that length are never cut off, and the buffer is no larger than that: with a longest description
      and attachment a longer name is. */
  lemma RequestIsComplete(r: Request)
    requires RequestSizes(r) && |r.name| <= LONGEST_NAME
    ensures Take(RequestStatement(r), REQUEST_SIZE - 1) == RequestStatement(r)
  {
  }

  lemma LongerNamesAreCut(r: Request)
    requires |r.name| > LONGEST_NAME && r.description.Some? && |r.description.value| == 2 * 16384 + 4
    requires r.attachment.Some? && r.attachment.value.len == 131072 && |r.attachment.value.escaped| == 5 * 131072
    requires |r.price| == 127 && |r.userId| == 20 && |r.time| == 63
    ensures Take(RequestStatement(r), REQUEST_SIZE - 1) != RequestStatement(r)
  {
  }
}
