/**
 * The server's tenant-scoped store: the `users` and `patients` tables and
 * the REST handlers over them. Every patient-row statement filters on
 * `id = $id AND tenant_id = $tenant`, which is the whole access-control
 * mechanism: the SQL statements are modelled as the functions below
 * (`Lookup`, `UpdateWhere`, `Deleted`, `OwnedBy`, `NewestFirst`), and the
 * handlers as methods of `Database` that change the tables in place.
 * Password hashing and comparison, token signing and verification are
 * external oracles passed in as functions; the clock is a parameter.
 */
module PatientStore {
  import opened Wrappers
  import Lists
  import Auth

  // HTTP status codes the handlers answer with.
  const OK := 200
  const Created := 201
  const BadRequest := 400
  const Unauthorized := 401
  const Forbidden := 403
  const NotFound := 404
  const Conflict := 409
  const ServerError := 500

  // The `error` and `message` texts of the JSON bodies.
  const MissingCredentials := "Email and password are required"
  const EmailTaken := "User with this email already exists"
  const InvalidCredentials := "Invalid credentials"
  const InvalidPatientId := "Invalid patient ID"
  const PatientNotFound := "Patient not found"
  const NotFoundOrForbidden := "Patient not found or you do not have permission to delete it"
  const PatientDeleted := "Patient deleted successfully"
  const InvalidImageIndex := "Invalid image index"
  const LastImage := "Cannot delete the last remaining image"
  const ImageUpdated := "Image updated successfully"
  const ImageDeleted := "Image deleted successfully"

  /** A row of `users`. */
  datatype User = User(id: int, email: string, passwordHash: string, createdAt: int)

  /** The thirteen columns of a patient row that create and update write. */
  datatype Fields = Fields(
    name: Option<string>,
    surname: Option<string>,
    gender: Option<string>,
    mobile: Option<string>,
    age: Option<int>,
    chiefComplaint: Option<string>,
    diagnosis: Option<string>,
    treatmentPlan: Option<string>,
    treatmentType: Option<string>,
    startDate: Option<string>,
    totalFee: Option<int>,
    images: Option<seq<string>>,
    payments: Option<string>)

  /** A row of `patients`: the serial id, the owning tenant, the insertion time and the columns. */
  datatype Row = Row(id: int, tenantId: int, createdAt: int, fields: Fields)

  datatype Body =
    | NoBody
    | Error(error: string)
    | Message(message: string)
    | Account(userId: int, email: string)
    | AccessToken(token: string)
    | Rows(rows: seq<Row>)
    | One(row: Row)
    | ImageList(note: string, images: seq<string>)
    | StorageFailure

  datatype Response = Response(status: int, body: Body)

  /** The protected routes, with the path parameters already parsed (`None` for `NaN`). */
  datatype Request =
    | List
    | Get(id: Option<int>)
    | Original(id: Option<int>)
    | Create(fields: Fields)
    | Update(id: Option<int>, fields: Fields)
    | Delete(id: Option<int>)
    | ReplaceImage(id: Option<int>, index: int, imageData: string)
    | RemoveImage(id: Option<int>, index: int)

  // ---------------------------------------------------------------- schema

  // The range of a 32-bit INT column or parameter.
  const IntMin := -0x8000_0000
  const IntMax := 0x7fff_ffff

  /**
   * An integer that binds to an INT parameter. One outside the range makes the
   * statement fail before it runs, whether or not any row would match.
   */
  predicate FitsInt(n: int)
  {
    IntMin <= n <= IntMax
  }

  /** `id = $id AND tenant_id = $tenant`: both parameters are INT. */
  predicate KeysBind(tenant: int, id: int)
  {
    FitsInt(tenant) && FitsInt(id)
  }

  /** The `age` parameter is INT as well. */
  predicate AgeBinds(f: Fields)
  {
    f.age.None? || FitsInt(f.age.value)
  }

  /** VARCHAR(width) takes a longer value only when every character past the width is a space. */
  predicate FitsWidth(s: string, width: nat)
  {
    |s| <= width || forall k :: width <= k < |s| ==> s[k] == ' '
  }

  /** The value a VARCHAR(width) column keeps: the trailing spaces past the width are cut off. */
  function Cut(s: string, width: nat): (t: string)
    ensures |t| <= width && t <= s
    ensures |s| <= width ==> t == s
    ensures FitsWidth(s, width) ==> forall k :: |t| <= k < |s| ==> s[k] == ' '
  {
    if |s| <= width then s else s[..width]
  }

  predicate FitsVarchar(s: Option<string>, width: nat)
  {
    s.None? || FitsWidth(s.value, width)
  }

  function CutColumn(s: Option<string>, width: nat): Option<string>
  {
    if s.None? then None else Some(Cut(s.value, width))
  }

  /** Every VARCHAR column of `f` is within its declared width. */
  predicate WithinWidths(f: Fields)
  {
    && (f.name.None? || |f.name.value| <= 100)
    && (f.surname.None? || |f.surname.value| <= 100)
    && (f.gender.None? || |f.gender.value| <= 20)
    && (f.mobile.None? || |f.mobile.value| <= 20)
    && (f.treatmentType.None? || |f.treatmentType.value| <= 100)
  }

  /**
   * The casts of the bound values to the column types: every VARCHAR within
   * its width (up to trailing spaces) and a NUMERIC(10,2) fee (at most 10
   * digits counted in the smallest currency unit). The bound values are
   * constants of the statement's plan, so the planner evaluates these casts
   * and a failing one fails the statement before it touches any row.
   */
  predicate CastsToColumns(f: Fields)
  {
    && FitsVarchar(f.name, 100)
    && FitsVarchar(f.surname, 100)
    && FitsVarchar(f.gender, 20)
    && FitsVarchar(f.mobile, 20)
    && FitsVarchar(f.treatmentType, 100)
    && (f.totalFee.None? || -10_000_000_000 < f.totalFee.value < 10_000_000_000)
  }

  /**
   * The constraints on a row the database writes: the casts above, and
   * `name` NOT NULL, which is checked only on a row actually written.
   */
  function Storable(f: Fields): (ok: bool)
    ensures ok ==> f.name.Some? && CastsToColumns(f)
    ensures WithinWidths(f) && f.name.Some? && (f.totalFee.None? || -10_000_000_000 < f.totalFee.value < 10_000_000_000)
            ==> ok
  {
    f.name.Some? && CastsToColumns(f)
  }

  /** The columns as the database keeps them: each VARCHAR cut to its width, the rest as given. */
  function Stored(f: Fields): (g: Fields)
    ensures WithinWidths(g)
    ensures WithinWidths(f) ==> g == f
    ensures Storable(f) ==> Storable(g)
    ensures g.(name := f.name, surname := f.surname, gender := f.gender, mobile := f.mobile,
               treatmentType := f.treatmentType) == f
  {
    f.(name := CutColumn(f.name, 100),
       surname := CutColumn(f.surname, 100),
       gender := CutColumn(f.gender, 20),
       mobile := CutColumn(f.mobile, 20),
       treatmentType := CutColumn(f.treatmentType, 100))
  }

  function UserId(u: User): int { u.id }
  function UserEmail(u: User): string { u.email }
  function RowId(r: Row): int { r.id }

  predicate IsUser(users: seq<User>, id: int)
  {
    exists u :: u in users && u.id == id
  }

  predicate EmailInUse(users: seq<User>, email: string)
  {
    exists u :: u in users && u.email == email
  }

  /** `!email || !password`. */
  predicate MissingCredential(email: Option<string>, password: Option<string>)
  {
    email.None? || email.value == "" || password.None? || password.value == ""
  }

  /** The users table: distinct serial ids below the next one, distinct e-mails. */
  ghost predicate UsersValid(users: seq<User>, nextUserId: int)
  {
    && Lists.Distinct(users, UserId)
    && Lists.Distinct(users, UserEmail)
    && (forall u :: u in users ==> u.id < nextUserId)
  }

  /** The patients table: distinct serial ids below the next one, and every `tenant_id` references a user. */
  ghost predicate RowsValid(rows: seq<Row>, users: seq<User>, nextPatientId: int)
  {
    && Lists.Distinct(rows, RowId)
    && (forall r :: r in rows ==> r.id < nextPatientId && IsUser(users, r.tenantId))
  }

  // ------------------------------------------------------- the SQL statements

  /** The WHERE clause of every single-row statement: `id = $id AND tenant_id = $tenant`. */
  predicate Selects(r: Row, tenant: int, id: int)
  {
    r.id == id && r.tenantId == tenant
  }

  function BelongsTo(tenant: int): Row -> bool
  {
    (r: Row) => r.tenantId == tenant
  }

  function NotSelected(tenant: int, id: int): Row -> bool
  {
    (r: Row) => !Selects(r, tenant, id)
  }

  /** `WHERE tenant_id = $tenant`: a tenant's view of the table. */
  function OwnedBy(rows: seq<Row>, tenant: int): (own: seq<Row>)
    ensures |own| <= |rows|
    ensures forall k :: 0 <= k < |own| ==> own[k].tenantId == tenant
  {
    Lists.Filter(rows, BelongsTo(tenant))
  }

  /** `SELECT * ... WHERE id = $id AND tenant_id = $tenant`, first row. */
  function Lookup(rows: seq<Row>, tenant: int, id: int): (found: Option<Row>)
    ensures found.None? <==> forall k :: 0 <= k < |rows| ==> !Selects(rows[k], tenant, id)
    ensures found.Some? ==> found.value in rows && Selects(found.value, tenant, id)
  {
    if rows == [] then None
    else if Selects(rows[0], tenant, id) then Some(rows[0])
    else Lookup(rows[1..], tenant, id)
  }

  /** `result.rows[0].images || []`. */
  function ImagesOf(r: Row): seq<string>
  {
    r.fields.images.GetOr([])
  }

  /** `UPDATE patients SET ... WHERE id = $id AND tenant_id = $tenant`, as a rewrite of one row. */
  function ApplyWhere(tenant: int, id: int, edit: Fields -> Fields): Row -> Row
  {
    (r: Row) => if Selects(r, tenant, id) then r.(fields := edit(r.fields)) else r
  }

  function UpdateWhere(rows: seq<Row>, tenant: int, id: int, edit: Fields -> Fields): (updated: seq<Row>)
    ensures |updated| == |rows|
    ensures forall k :: 0 <= k < |rows|
              ==> updated[k].(fields := rows[k].fields) == rows[k]
    ensures forall k :: 0 <= k < |rows| && !Selects(rows[k], tenant, id) ==> updated[k] == rows[k]
  {
    assert forall k :: 0 <= k < |rows| ==> Lists.Map(rows, ApplyWhere(tenant, id, edit))[k] == ApplyWhere(tenant, id, edit)(rows[k]) by {
      forall k | 0 <= k < |rows| {
        Lists.MapAt(rows, ApplyWhere(tenant, id, edit), k);
      }
    }
    Lists.Map(rows, ApplyWhere(tenant, id, edit))
  }

  /** The full replace of the update handler. */
  function SetAll(f: Fields): Fields -> Fields
  {
    (_: Fields) => f
  }

  /** `SET images = $1` of the two image handlers. */
  function SetImages(images: seq<string>): Fields -> Fields
  {
    (f: Fields) => f.(images := Some(images))
  }

  /** `DELETE FROM patients WHERE id = $id AND tenant_id = $tenant`. */
  function Deleted(rows: seq<Row>, tenant: int, id: int): (remaining: seq<Row>)
    ensures |remaining| <= |rows|
    ensures forall k :: 0 <= k < |remaining| ==> !Selects(remaining[k], tenant, id)
  {
    Lists.Filter(rows, NotSelected(tenant, id))
  }

  /** Rows in `ORDER BY created_at DESC`. */
  ghost predicate NewestFirstOrder(rows: seq<Row>)
  {
    forall i, j :: 0 <= i < j < |rows| ==> rows[i].createdAt >= rows[j].createdAt
  }

  function InsertByAge(r: Row, sorted: seq<Row>): (result: seq<Row>)
    ensures |result| == |sorted| + 1
  {
    if sorted == [] || r.createdAt >= sorted[0].createdAt then [r] + sorted
    else [sorted[0]] + InsertByAge(r, sorted[1..])
  }

  /** One order the database may return for `ORDER BY created_at DESC` (ties are unspecified). */
  function NewestFirst(rows: seq<Row>): (ordered: seq<Row>)
    ensures |ordered| == |rows|
  {
    if rows == [] then [] else InsertByAge(rows[0], NewestFirst(rows[1..]))
  }

  // ----------------------------------------------------------- lemmas: order

  /** Inserting a row no newer than `bound` into rows no newer than `bound` gives rows no newer than `bound`. */
  lemma {:induction false} InsertByAgeBound(r: Row, sorted: seq<Row>, bound: int)
    requires r.createdAt <= bound
    requires forall k :: 0 <= k < |sorted| ==> sorted[k].createdAt <= bound
    ensures forall k :: 0 <= k < |InsertByAge(r, sorted)| ==> InsertByAge(r, sorted)[k].createdAt <= bound
  {
    if !(sorted == [] || r.createdAt >= sorted[0].createdAt) {
      InsertByAgeBound(r, sorted[1..], bound);
      var tail := InsertByAge(r, sorted[1..]);
      assert InsertByAge(r, sorted) == [sorted[0]] + tail;
    }
  }

  lemma {:induction false} InsertByAgeCount(r: Row, sorted: seq<Row>)
    ensures multiset(InsertByAge(r, sorted)) == multiset(sorted) + multiset{r}
  {
    if !(sorted == [] || r.createdAt >= sorted[0].createdAt) {
      InsertByAgeCount(r, sorted[1..]);
      assert sorted == [sorted[0]] + sorted[1..];
    }
  }

  lemma {:induction false} InsertByAgeSorted(r: Row, sorted: seq<Row>)
    requires NewestFirstOrder(sorted)
    ensures NewestFirstOrder(InsertByAge(r, sorted))
  {
    if !(sorted == [] || r.createdAt >= sorted[0].createdAt) {
      var rest := sorted[1..];
      assert NewestFirstOrder(rest) by {
        forall i, j | 0 <= i < j < |rest|
          ensures rest[i].createdAt >= rest[j].createdAt
        {
          assert rest[i] == sorted[i + 1] && rest[j] == sorted[j + 1];
        }
      }
      InsertByAgeSorted(r, rest);
      var tail := InsertByAge(r, rest);
      forall k | 0 <= k < |rest|
        ensures rest[k].createdAt <= sorted[0].createdAt
      {
        assert rest[k] == sorted[k + 1];
      }
      InsertByAgeBound(r, rest, sorted[0].createdAt);
      var result := [sorted[0]] + tail;
      forall i, j | 0 <= i < j < |result|
        ensures result[i].createdAt >= result[j].createdAt
      {
        assert result[j] == tail[j - 1];
        if i > 0 {
          assert result[i] == tail[i - 1];
        }
      }
    }
  }

  /** The listing order: newest first, and a permutation of its input. */
  lemma {:induction false} NewestFirstSorted(rows: seq<Row>)
    ensures NewestFirstOrder(NewestFirst(rows))
    ensures multiset(NewestFirst(rows)) == multiset(rows)
  {
    if rows != [] {
      NewestFirstSorted(rows[1..]);
      InsertByAgeSorted(rows[0], NewestFirst(rows[1..]));
      InsertByAgeCount(rows[0], NewestFirst(rows[1..]));
      assert rows == [rows[0]] + rows[1..];
    }
  }

  // ------------------------------------------------------- lemmas: isolation

  /** A lookup only ever sees the caller's own rows. */
  lemma {:induction false} LookupSeesOnlyOwnRows(rows: seq<Row>, tenant: int, id: int)
    ensures Lookup(rows, tenant, id) == Lookup(OwnedBy(rows, tenant), tenant, id)
  {
    if rows != [] {
      LookupSeesOnlyOwnRows(rows[1..], tenant, id);
      var own := OwnedBy(rows, tenant);
      if rows[0].tenantId == tenant {
        assert own == [rows[0]] + OwnedBy(rows[1..], tenant);
        assert own[0] == rows[0] && own[1..] == OwnedBy(rows[1..], tenant);
      } else {
        assert own == OwnedBy(rows[1..], tenant);
      }
    }
  }

  /** Two tables that agree on a tenant's rows answer that tenant's lookups alike, whatever the other tenants hold. */
  lemma SameViewSameLookup(a: seq<Row>, b: seq<Row>, tenant: int, id: int)
    requires OwnedBy(a, tenant) == OwnedBy(b, tenant)
    ensures Lookup(a, tenant, id) == Lookup(b, tenant, id)
  {
    LookupSeesOnlyOwnRows(a, tenant, id);
    LookupSeesOnlyOwnRows(b, tenant, id);
  }

  /**
   * Another tenant's id is not found, exactly as if that row did not exist:
   * the lookup answers the same on the table without it.
   */
  lemma ForeignIdLooksMissing(rows: seq<Row>, tenant: int, k: int)
    requires Lists.Distinct(rows, RowId)
    requires 0 <= k < |rows| && rows[k].tenantId != tenant
    ensures Lookup(rows, tenant, rows[k].id) == None
    ensures Lookup(Lists.RemoveAt(rows, k), tenant, rows[k].id) == None
  {
    var id := rows[k].id;
    forall j | 0 <= j < |rows|
      ensures !Selects(rows[j], tenant, id)
    {
      if j != k {
        assert RowId(rows[j]) != RowId(rows[k]) by {
          if j < k { } else { }
        }
      }
    }
    var rest := Lists.RemoveAt(rows, k);
    Lists.RemoveAtSlices(rows, k);
    forall j | 0 <= j < |rest|
      ensures !Selects(rest[j], tenant, id)
    {
      if j < k {
        assert rest[j] == rows[j];
      } else {
        assert rest[j] == rows[j + 1];
      }
    }
  }

  lemma {:induction false} UpdateWhereAt(rows: seq<Row>, tenant: int, id: int, edit: Fields -> Fields, k: int)
    requires 0 <= k < |rows|
    ensures UpdateWhere(rows, tenant, id, edit)[k]
         == if Selects(rows[k], tenant, id) then rows[k].(fields := edit(rows[k].fields)) else rows[k]
  {
    Lists.MapAt(rows, ApplyWhere(tenant, id, edit), k);
  }

  /** An update never touches the rows of another tenant. */
  lemma UpdateWhereKeepsOtherTenants(rows: seq<Row>, tenant: int, id: int, edit: Fields -> Fields, other: int)
    requires other != tenant
    ensures OwnedBy(UpdateWhere(rows, tenant, id, edit), other) == OwnedBy(rows, other)
  {
    var g := ApplyWhere(tenant, id, edit);
    var keep := BelongsTo(other);
    forall x: Row | keep(x)
      ensures g(x) == x
    {
      assert x.tenantId == other;
      assert !Selects(x, tenant, id);
    }
    Lists.FilterMapUnchanged(rows, g, keep);
  }

  /** An update that selects nothing leaves the table as it was. */
  lemma UpdateWhereNoMatch(rows: seq<Row>, tenant: int, id: int, edit: Fields -> Fields)
    requires Lookup(rows, tenant, id).None?
    ensures UpdateWhere(rows, tenant, id, edit) == rows
  {
    var r := UpdateWhere(rows, tenant, id, edit);
    forall k | 0 <= k < |rows|
      ensures r[k] == rows[k]
    {
      UpdateWhereAt(rows, tenant, id, edit, k);
    }
  }

  /** After an update the selected row reads back with the edit applied. */
  lemma {:induction false} LookupAfterUpdate(rows: seq<Row>, tenant: int, id: int, edit: Fields -> Fields)
    requires Lookup(rows, tenant, id).Some?
    ensures Lookup(UpdateWhere(rows, tenant, id, edit), tenant, id)
         == Some(Lookup(rows, tenant, id).value.(fields := edit(Lookup(rows, tenant, id).value.fields)))
  {
    var r := UpdateWhere(rows, tenant, id, edit);
    Lists.MapAt(rows, ApplyWhere(tenant, id, edit), 0);
    assert r[1..] == UpdateWhere(rows[1..], tenant, id, edit);
    if !Selects(rows[0], tenant, id) {
      LookupAfterUpdate(rows[1..], tenant, id, edit);
    }
  }

  lemma UpdateWhereKeepsRowsValid(rows: seq<Row>, users: seq<User>, next: int, tenant: int, id: int, edit: Fields -> Fields)
    requires RowsValid(rows, users, next)
    ensures RowsValid(UpdateWhere(rows, tenant, id, edit), users, next)
  {
    var r := UpdateWhere(rows, tenant, id, edit);
    forall k | 0 <= k < |rows|
      ensures r[k].id == rows[k].id && r[k].tenantId == rows[k].tenantId
    {
      UpdateWhereAt(rows, tenant, id, edit, k);
    }
    forall i, j | 0 <= i < j < |r|
      ensures RowId(r[i]) != RowId(r[j])
    {
      assert RowId(rows[i]) != RowId(rows[j]);
    }
    forall x | x in r
      ensures x.id < next && IsUser(users, x.tenantId)
    {
      var k :| 0 <= k < |r| && r[k] == x;
      assert rows[k] in rows;
    }
  }

  /** A delete never touches the rows of another tenant. */
  lemma DeletedKeepsOtherTenants(rows: seq<Row>, tenant: int, id: int, other: int)
    requires other != tenant
    ensures OwnedBy(Deleted(rows, tenant, id), other) == OwnedBy(rows, other)
  {
    Lists.FilterImplied(rows, NotSelected(tenant, id), BelongsTo(other));
  }

  /** A delete removes exactly the selected row and keeps every other row. */
  lemma DeletedMembers(rows: seq<Row>, tenant: int, id: int)
    ensures Lookup(Deleted(rows, tenant, id), tenant, id).None?
    ensures forall r :: r in Deleted(rows, tenant, id) <==> r in rows && !Selects(r, tenant, id)
  {
    forall r
      ensures r in Deleted(rows, tenant, id) <==> r in rows && !Selects(r, tenant, id)
    {
      Lists.FilterMembers(rows, NotSelected(tenant, id), r);
    }
  }

  lemma DeletedNoMatch(rows: seq<Row>, tenant: int, id: int)
    requires Lookup(rows, tenant, id).None?
    ensures Deleted(rows, tenant, id) == rows
  {
    Lists.FilterKeepsAll(rows, NotSelected(tenant, id));
  }

  lemma DeletedKeepsRowsValid(rows: seq<Row>, users: seq<User>, next: int, tenant: int, id: int)
    requires RowsValid(rows, users, next)
    ensures RowsValid(Deleted(rows, tenant, id), users, next)
  {
    Lists.FilterDistinct(rows, NotSelected(tenant, id), RowId);
    DeletedMembers(rows, tenant, id);
  }

  /** An insert for one tenant leaves every other tenant's view as it was. */
  lemma AppendKeepsOtherTenants(rows: seq<Row>, row: Row, other: int)
    requires row.tenantId != other
    ensures OwnedBy(rows + [row], other) == OwnedBy(rows, other)
  {
    Lists.FilterAppend(rows, [row], BelongsTo(other));
    assert Lists.Filter([row], BelongsTo(other)) == [];
  }

  lemma AppendKeepsRowsValid(rows: seq<Row>, users: seq<User>, next: int, row: Row)
    requires RowsValid(rows, users, next)
    requires row.id == next && IsUser(users, row.tenantId)
    ensures RowsValid(rows + [row], users, next + 1)
  {
    var r := rows + [row];
    forall i, j | 0 <= i < j < |r|
      ensures RowId(r[i]) != RowId(r[j])
    {
      if j < |rows| {
        assert RowId(rows[i]) != RowId(rows[j]);
      } else {
        assert rows[i] in rows;
      }
    }
  }

  lemma MoreUsersKeepRowsValid(rows: seq<Row>, users: seq<User>, next: int, u: User)
    requires RowsValid(rows, users, next)
    ensures RowsValid(rows, users + [u], next)
  {
    forall r | r in rows
      ensures IsUser(users + [u], r.tenantId)
    {
      var v :| v in users && v.id == r.tenantId;
      assert v in users + [u];
    }
  }

  /** `SELECT * FROM users WHERE email = $1`, first row. */
  function FindUser(users: seq<User>, email: string): (found: Option<User>)
    ensures found.None? <==> !EmailInUse(users, email)
    ensures found.Some? ==> found.value in users && found.value.email == email
  {
    if users == [] then None
    else if users[0].email == email then Some(users[0])
    else (assert forall u :: u in users[1..] ==> u in users;
          assert forall u :: u in users && u != users[0] ==> u in users[1..];
          FindUser(users[1..], email))
  }

  // --------------------------------------------------------------- handlers

  class Database {
    var users: seq<User>
    var patients: seq<Row>
    var nextUserId: int
    var nextPatientId: int

    ghost predicate Valid()
      reads this
    {
      UsersValid(users, nextUserId) && RowsValid(patients, users, nextPatientId)
    }

    /** Empty tables; both SERIAL sequences start at 1. */
    constructor ()
      ensures Valid()
      ensures users == [] && patients == []
    {
      users := [];
      patients := [];
      nextUserId := 1;
      nextPatientId := 1;
    }

    /**
     * `POST /api/register`. The VARCHAR(255) casts are evaluated when the
     * INSERT is planned; once it runs, it draws the next serial value before
     * the UNIQUE check, so a 409 still uses up an id.
     */
    method Register(email: Option<string>, password: Option<string>, hash: string -> string, now: int) returns (resp: Response)
      requires Valid()
      modifies this
      ensures Valid()
      ensures patients == old(patients) && nextPatientId == old(nextPatientId)
      ensures MissingCredential(email, password)
              ==> && resp == Response(BadRequest, Error(MissingCredentials))
                  && users == old(users) && nextUserId == old(nextUserId)
      ensures !MissingCredential(email, password)
              && !(FitsWidth(email.value, 255) && FitsWidth(hash(password.value), 255))
              ==> && resp == Response(ServerError, StorageFailure)
                  && users == old(users) && nextUserId == old(nextUserId)
      ensures !MissingCredential(email, password) && FitsWidth(email.value, 255) && FitsWidth(hash(password.value), 255)
              ==> nextUserId == old(nextUserId) + 1
      ensures !MissingCredential(email, password)
              && FitsWidth(email.value, 255) && FitsWidth(hash(password.value), 255)
              && EmailInUse(old(users), Cut(email.value, 255))
              ==> resp == Response(Conflict, Error(EmailTaken))
      ensures resp.status == Created
              <==> && !MissingCredential(email, password)
                   && FitsWidth(email.value, 255) && FitsWidth(hash(password.value), 255)
                   && !EmailInUse(old(users), Cut(email.value, 255))
      ensures resp.status == Created
              ==> var user := User(old(nextUserId), Cut(email.value, 255), Cut(hash(password.value), 255), now);
                  && users == old(users) + [user]
                  && resp.body == Account(user.id, user.email)
      ensures resp.status != Created ==> users == old(users)
    {
      if MissingCredential(email, password) {
        return Response(BadRequest, Error(MissingCredentials));
      }
      var passwordHash := hash(password.value);
      if !FitsWidth(email.value, 255) || !FitsWidth(passwordHash, 255) {
        return Response(ServerError, StorageFailure);
      }
      var id := nextUserId;
      nextUserId := nextUserId + 1;
      var stored := Cut(email.value, 255);
      if EmailInUse(users, stored) {
        return Response(Conflict, Error(EmailTaken));
      }
      var user := User(id, stored, Cut(passwordHash, 255), now);
      MoreUsersKeepRowsValid(patients, users, nextPatientId, user);
      var old_users := users;
      users := users + [user];
      forall i, j | 0 <= i < j < |users|
        ensures UserId(users[i]) != UserId(users[j]) && UserEmail(users[i]) != UserEmail(users[j])
      {
        if j < |old_users| {
          assert UserId(old_users[i]) != UserId(old_users[j]) && UserEmail(old_users[i]) != UserEmail(old_users[j]);
        } else {
          assert old_users[i] in old_users;
        }
      }
      resp := Response(Created, Account(user.id, user.email));
    }

    /** `POST /api/login`: the token is signed for the user's id and e-mail. */
    method Login(email: Option<string>, password: Option<string>,
                 compare: (string, string) -> bool, sign: (int, string) -> string) returns (resp: Response)
      ensures resp.status == OK
              <==> && email.Some? && FindUser(users, email.value).Some? && password.Some?
                   && compare(password.value, FindUser(users, email.value).value.passwordHash)
      ensures resp.status == OK
              ==> resp.body == AccessToken(sign(FindUser(users, email.value).value.id, email.value))
      ensures email.None? || !EmailInUse(users, email.value) ==> resp == Response(Unauthorized, Error(InvalidCredentials))
      ensures resp.status == ServerError <==> email.Some? && EmailInUse(users, email.value) && password.None?
      ensures resp.status in {OK, Unauthorized, ServerError}
    {
      if email.None? {
        return Response(Unauthorized, Error(InvalidCredentials));
      }
      var found := FindUser(users, email.value);
      if found.None? {
        return Response(Unauthorized, Error(InvalidCredentials));
      }
      var user := found.value;
      if password.None? {
        // bcrypt.compare rejects a missing password with an exception.
        return Response(ServerError, StorageFailure);
      }
      if !compare(password.value, user.passwordHash) {
        return Response(Unauthorized, Error(InvalidCredentials));
      }
      resp := Response(OK, AccessToken(sign(user.id, user.email)));
    }

    /** `GET /api/patients`: the caller's rows, newest first. */
    method ListPatients(tenant: int) returns (resp: Response)
      ensures !FitsInt(tenant) ==> resp == Response(ServerError, StorageFailure)
      ensures FitsInt(tenant) ==> resp.status == OK && resp.body.Rows?
      ensures resp.status == OK ==> multiset(resp.body.rows) == multiset(OwnedBy(patients, tenant))
      ensures resp.status == OK ==> NewestFirstOrder(resp.body.rows)
      ensures resp.body.Rows? ==> forall r :: r in resp.body.rows ==> r in patients && r.tenantId == tenant
    {
      if !FitsInt(tenant) {
        return Response(ServerError, StorageFailure);
      }
      var own := OwnedBy(patients, tenant);
      var rows := NewestFirst(own);
      NewestFirstSorted(own);
      forall r | r in rows
        ensures r in patients && r.tenantId == tenant
      {
        assert r in multiset(own);
        Lists.FilterMembers(patients, BelongsTo(tenant), r);
      }
      resp := Response(OK, Rows(rows));
    }

    /** `GET /api/patients/:id`. */
    method GetPatient(tenant: int, id: Option<int>) returns (resp: Response)
      ensures id.None? ==> resp == Response(BadRequest, Error(InvalidPatientId))
      ensures id.Some? && !KeysBind(tenant, id.value) ==> resp == Response(ServerError, StorageFailure)
      ensures resp.status == NotFound
              <==> id.Some? && KeysBind(tenant, id.value) && forall k :: 0 <= k < |patients| ==> !Selects(patients[k], tenant, id.value)
      ensures resp.status == NotFound ==> resp.body == Error(PatientNotFound)
      ensures resp.status == OK
              ==> id.Some? && resp.body.One? && resp.body.row in patients && Selects(resp.body.row, tenant, id.value)
      ensures id.Some? && KeysBind(tenant, id.value)
              ==> resp == match Lookup(patients, tenant, id.value)
                          case None => Response(NotFound, Error(PatientNotFound))
                          case Some(row) => Response(OK, One(row))
    {
      if id.None? {
        return Response(BadRequest, Error(InvalidPatientId));
      }
      if !KeysBind(tenant, id.value) {
        return Response(ServerError, StorageFailure);
      }
      match Lookup(patients, tenant, id.value)
      case None =>
        resp := Response(NotFound, Error(PatientNotFound));
      case Some(row) =>
        resp := Response(OK, One(row));
    }

    /** `GET /api/patients/:id/original`: the same tenant-scoped read. */
    method OriginalPatient(tenant: int, id: Option<int>) returns (resp: Response)
      ensures id.None? ==> resp == Response(BadRequest, Error(InvalidPatientId))
      ensures id.Some? && !KeysBind(tenant, id.value) ==> resp == Response(ServerError, StorageFailure)
      ensures resp.status == NotFound
              <==> id.Some? && KeysBind(tenant, id.value) && forall k :: 0 <= k < |patients| ==> !Selects(patients[k], tenant, id.value)
      ensures resp.status == OK
              ==> id.Some? && resp.body.One? && resp.body.row in patients && Selects(resp.body.row, tenant, id.value)
      ensures id.Some? && KeysBind(tenant, id.value)
              ==> resp == match Lookup(patients, tenant, id.value)
                          case None => Response(NotFound, Error(PatientNotFound))
                          case Some(row) => Response(OK, One(row))
    {
      resp := GetPatient(tenant, id);
    }

    /**
     * `POST /api/patients`: insert a row owned by the caller. An INT parameter
     * out of range, or a failing cast to a column type, fails the statement
     * before it runs; once it runs, the serial value is drawn before the
     * NOT NULL and foreign-key checks.
     */
    method CreatePatient(tenant: int, fields: Fields, now: int) returns (resp: Response)
      requires Valid()
      modifies this
      ensures Valid()
      ensures users == old(users) && nextUserId == old(nextUserId)
      ensures !(FitsInt(tenant) && AgeBinds(fields) && CastsToColumns(fields))
              ==> && resp == Response(ServerError, StorageFailure)
                  && patients == old(patients) && nextPatientId == old(nextPatientId)
      ensures FitsInt(tenant) && AgeBinds(fields) && CastsToColumns(fields) ==> nextPatientId == old(nextPatientId) + 1
      ensures !IsUser(users, tenant) || !Storable(fields)
              ==> resp == Response(ServerError, StorageFailure) && patients == old(patients)
      ensures resp.status == Created <==> FitsInt(tenant) && AgeBinds(fields) && IsUser(users, tenant) && Storable(fields)
      ensures resp.status == Created
              ==> var row := Row(old(nextPatientId), tenant, now, Stored(fields));
                  && patients == old(patients) + [row]
                  && resp == Response(Created, One(row))
      ensures forall other :: other != tenant ==> OwnedBy(patients, other) == OwnedBy(old(patients), other)
    {
      if !FitsInt(tenant) || !AgeBinds(fields) || !CastsToColumns(fields) {
        return Response(ServerError, StorageFailure);
      }
      var id := nextPatientId;
      nextPatientId := nextPatientId + 1;
      if !IsUser(users, tenant) || !Storable(fields) {
        return Response(ServerError, StorageFailure);
      }
      var row := Row(id, tenant, now, Stored(fields));
      AppendKeepsRowsValid(patients, users, id, row);
      forall other | other != tenant
        ensures OwnedBy(patients + [row], other) == OwnedBy(patients, other)
      {
        AppendKeepsOtherTenants(patients, row, other);
      }
      patients := patients + [row];
      resp := Response(Created, One(row));
    }

    /** `PUT /api/patients/:id`: full replace of the thirteen columns of the caller's row. */
    method UpdatePatient(tenant: int, id: Option<int>, fields: Fields) returns (resp: Response)
      requires Valid()
      modifies this
      ensures Valid()
      ensures users == old(users) && nextUserId == old(nextUserId) && nextPatientId == old(nextPatientId)
      ensures id.None? ==> resp == Response(BadRequest, Error(InvalidPatientId))
      ensures id.Some? && !(KeysBind(tenant, id.value) && AgeBinds(fields) && CastsToColumns(fields))
              ==> resp == Response(ServerError, StorageFailure)
      ensures id.Some? && KeysBind(tenant, id.value) && AgeBinds(fields) && CastsToColumns(fields)
              && Lookup(old(patients), tenant, id.value).None?
              ==> resp == Response(NotFound, Error(PatientNotFound))
      ensures id.Some? && Lookup(old(patients), tenant, id.value).Some? && !Storable(fields)
              ==> resp == Response(ServerError, StorageFailure)
      ensures resp.status == OK
              <==> && id.Some? && KeysBind(tenant, id.value) && AgeBinds(fields)
                   && Lookup(old(patients), tenant, id.value).Some? && Storable(fields)
      ensures resp.status == OK
              ==> && patients == UpdateWhere(old(patients), tenant, id.value, SetAll(Stored(fields)))
                  && resp == Response(OK, One(Lookup(old(patients), tenant, id.value).value.(fields := Stored(fields))))
                  && Lookup(patients, tenant, id.value) == Some(resp.body.row)
      ensures resp.status != OK ==> patients == old(patients)
      ensures |patients| == |old(patients)|
      ensures forall k :: 0 <= k < |patients| && (id.None? || !Selects(old(patients)[k], tenant, id.value))
                ==> patients[k] == old(patients)[k]
      ensures forall other :: other != tenant ==> OwnedBy(patients, other) == OwnedBy(old(patients), other)
    {
      if id.None? {
        return Response(BadRequest, Error(InvalidPatientId));
      }
      if !KeysBind(tenant, id.value) || !AgeBinds(fields) || !CastsToColumns(fields) {
        return Response(ServerError, StorageFailure);
      }
      var found := Lookup(patients, tenant, id.value);
      if found.None? {
        return Response(NotFound, Error(PatientNotFound));
      }
      if !Storable(fields) {
        return Response(ServerError, StorageFailure);
      }
      var stored := Stored(fields);
      var updated := UpdateWhere(patients, tenant, id.value, SetAll(stored));
      UpdateWhereKeepsRowsValid(patients, users, nextPatientId, tenant, id.value, SetAll(stored));
      LookupAfterUpdate(patients, tenant, id.value, SetAll(stored));
      forall k | 0 <= k < |patients|
        ensures updated[k] == if Selects(patients[k], tenant, id.value) then patients[k].(fields := stored) else patients[k]
      {
        UpdateWhereAt(patients, tenant, id.value, SetAll(stored), k);
      }
      forall other | other != tenant
        ensures OwnedBy(updated, other) == OwnedBy(patients, other)
      {
        UpdateWhereKeepsOtherTenants(patients, tenant, id.value, SetAll(stored), other);
      }
      patients := updated;
      resp := Response(OK, One(found.value.(fields := stored)));
    }

    /** `DELETE /api/patients/:id`. */
    method DeletePatient(tenant: int, id: Option<int>) returns (resp: Response)
      requires Valid()
      modifies this
      ensures Valid()
      ensures users == old(users) && nextUserId == old(nextUserId) && nextPatientId == old(nextPatientId)
      ensures id.None? ==> resp == Response(BadRequest, Error(InvalidPatientId))
      ensures id.Some? && !KeysBind(tenant, id.value) ==> resp == Response(ServerError, StorageFailure)
      ensures id.Some? && KeysBind(tenant, id.value) && Lookup(old(patients), tenant, id.value).None?
              ==> resp == Response(NotFound, Error(NotFoundOrForbidden))
      ensures resp.status == OK <==> id.Some? && KeysBind(tenant, id.value) && Lookup(old(patients), tenant, id.value).Some?
      ensures resp.status == OK
              ==> && patients == Deleted(old(patients), tenant, id.value)
                  && resp.body == Message(PatientDeleted)
                  && Lookup(patients, tenant, id.value).None?
                  && forall r :: r in old(patients) && !Selects(r, tenant, id.value) ==> r in patients
      ensures resp.status != OK ==> patients == old(patients)
      ensures Lists.SubsequenceOf(patients, old(patients))
      ensures forall other :: other != tenant ==> OwnedBy(patients, other) == OwnedBy(old(patients), other)
    {
      if id.None? {
        Lists.FilterKeepsAll(patients, (r: Row) => true);
        Lists.FilterIsSubsequence(patients, (r: Row) => true);
        return Response(BadRequest, Error(InvalidPatientId));
      }
      if !KeysBind(tenant, id.value) {
        Lists.FilterKeepsAll(patients, (r: Row) => true);
        Lists.FilterIsSubsequence(patients, (r: Row) => true);
        return Response(ServerError, StorageFailure);
      }
      var remaining := Deleted(patients, tenant, id.value);
      Lists.FilterIsSubsequence(patients, NotSelected(tenant, id.value));
      if Lookup(patients, tenant, id.value).None? {
        DeletedNoMatch(patients, tenant, id.value);
        return Response(NotFound, Error(NotFoundOrForbidden));
      }
      DeletedKeepsRowsValid(patients, users, nextPatientId, tenant, id.value);
      DeletedMembers(patients, tenant, id.value);
      forall other | other != tenant
        ensures OwnedBy(remaining, other) == OwnedBy(patients, other)
      {
        DeletedKeepsOtherTenants(patients, tenant, id.value, other);
      }
      patients := remaining;
      resp := Response(OK, Message(PatientDeleted));
    }

    /** `PUT /api/patients/:id/images/:imageIndex`: overwrite one image of the caller's row. */
    method ReplaceImageAt(tenant: int, id: Option<int>, index: int, imageData: string) returns (resp: Response)
      requires Valid()
      modifies this
      ensures Valid()
      ensures users == old(users) && nextUserId == old(nextUserId) && nextPatientId == old(nextPatientId)
      ensures id.None? ==> resp == Response(BadRequest, Error(InvalidPatientId))
      ensures id.Some? && !KeysBind(tenant, id.value) ==> resp == Response(ServerError, StorageFailure)
      ensures id.Some? && KeysBind(tenant, id.value) && Lookup(old(patients), tenant, id.value).None?
              ==> resp == Response(NotFound, Error(PatientNotFound))
      ensures id.Some? && KeysBind(tenant, id.value) && Lookup(old(patients), tenant, id.value).Some?
              ==> var before := ImagesOf(Lookup(old(patients), tenant, id.value).value);
                  && (!(0 <= index < |before|) ==> resp == Response(BadRequest, Error(InvalidImageIndex)))
                  && (resp.status == OK <==> 0 <= index < |before|)
      ensures resp.status != OK ==> patients == old(patients)
      ensures resp.status == OK
              ==> && id.Some? && KeysBind(tenant, id.value) && Lookup(old(patients), tenant, id.value).Some?
                  && var before := ImagesOf(Lookup(old(patients), tenant, id.value).value);
                  && resp.body.ImageList? && resp.body.note == ImageUpdated
                  && 0 <= index < |before|
                  && |resp.body.images| == |before|
                  && resp.body.images[index] == imageData
                  && (forall j :: 0 <= j < |before| && j != index ==> resp.body.images[j] == before[j])
                  && patients == UpdateWhere(old(patients), tenant, id.value, SetImages(resp.body.images))
                  && Lookup(patients, tenant, id.value).Some?
                  && Lookup(patients, tenant, id.value).value.fields.images == Some(resp.body.images)
      ensures forall other :: other != tenant ==> OwnedBy(patients, other) == OwnedBy(old(patients), other)
    {
      if id.None? {
        return Response(BadRequest, Error(InvalidPatientId));
      }
      if !KeysBind(tenant, id.value) {
        return Response(ServerError, StorageFailure);
      }
      var found := Lookup(patients, tenant, id.value);
      if found.None? {
        return Response(NotFound, Error(PatientNotFound));
      }
      var images := ImagesOf(found.value);
      if index < 0 || index >= |images| {
        return Response(BadRequest, Error(InvalidImageIndex));
      }
      images := images[index := imageData];
      var updated := UpdateWhere(patients, tenant, id.value, SetImages(images));
      UpdateWhereKeepsRowsValid(patients, users, nextPatientId, tenant, id.value, SetImages(images));
      LookupAfterUpdate(patients, tenant, id.value, SetImages(images));
      forall other | other != tenant
        ensures OwnedBy(updated, other) == OwnedBy(patients, other)
      {
        UpdateWhereKeepsOtherTenants(patients, tenant, id.value, SetImages(images), other);
      }
      patients := updated;
      resp := Response(OK, ImageList(ImageUpdated, images));
    }

    /** `DELETE /api/patients/:id/images/:imageIndex`: splice one image out, never the last one. */
    method DeleteImageAt(tenant: int, id: Option<int>, index: int) returns (resp: Response)
      requires Valid()
      modifies this
      ensures Valid()
      ensures users == old(users) && nextUserId == old(nextUserId) && nextPatientId == old(nextPatientId)
      ensures id.None? ==> resp == Response(BadRequest, Error(InvalidPatientId))
      ensures id.Some? && !KeysBind(tenant, id.value) ==> resp == Response(ServerError, StorageFailure)
      ensures id.Some? && KeysBind(tenant, id.value) && Lookup(old(patients), tenant, id.value).None?
              ==> resp == Response(NotFound, Error(PatientNotFound))
      ensures id.Some? && KeysBind(tenant, id.value) && Lookup(old(patients), tenant, id.value).Some?
              ==> var before := ImagesOf(Lookup(old(patients), tenant, id.value).value);
                  && (!(0 <= index < |before|) ==> resp == Response(BadRequest, Error(InvalidImageIndex)))
                  && (0 <= index < |before| && |before| <= 1 ==> resp == Response(BadRequest, Error(LastImage)))
                  && (resp.status == OK <==> 0 <= index < |before| && |before| > 1)
      ensures resp.status != OK ==> patients == old(patients)
      ensures resp.status == OK
              ==> && id.Some? && KeysBind(tenant, id.value) && Lookup(old(patients), tenant, id.value).Some?
                  && var before := ImagesOf(Lookup(old(patients), tenant, id.value).value);
                  && resp.body.ImageList? && resp.body.note == ImageDeleted
                  && 0 <= index < |before|
                  && |resp.body.images| == |before| - 1 >= 1
                  && (forall j :: 0 <= j < index ==> resp.body.images[j] == before[j])
                  && (forall j :: index <= j < |resp.body.images| ==> resp.body.images[j] == before[j + 1])
                  && patients == UpdateWhere(old(patients), tenant, id.value, SetImages(resp.body.images))
                  && Lookup(patients, tenant, id.value).Some?
                  && Lookup(patients, tenant, id.value).value.fields.images == Some(resp.body.images)
      ensures forall other :: other != tenant ==> OwnedBy(patients, other) == OwnedBy(old(patients), other)
    {
      if id.None? {
        return Response(BadRequest, Error(InvalidPatientId));
      }
      if !KeysBind(tenant, id.value) {
        return Response(ServerError, StorageFailure);
      }
      var found := Lookup(patients, tenant, id.value);
      if found.None? {
        return Response(NotFound, Error(PatientNotFound));
      }
      var images := ImagesOf(found.value);
      if index < 0 || index >= |images| {
        return Response(BadRequest, Error(InvalidImageIndex));
      }
      if |images| <= 1 {
        return Response(BadRequest, Error(LastImage));
      }
      var before := images;
      images := before[..index] + before[index + 1..];
      assert |images| == |before| - 1;
      assert forall j :: 0 <= j < index ==> images[j] == before[j];
      assert forall j :: index <= j < |images| ==> images[j] == before[j + 1];
      var updated := UpdateWhere(patients, tenant, id.value, SetImages(images));
      UpdateWhereKeepsRowsValid(patients, users, nextPatientId, tenant, id.value, SetImages(images));
      LookupAfterUpdate(patients, tenant, id.value, SetImages(images));
      forall other | other != tenant
        ensures OwnedBy(updated, other) == OwnedBy(patients, other)
      {
        UpdateWhereKeepsOtherTenants(patients, tenant, id.value, SetImages(images), other);
      }
      patients := updated;
      resp := Response(OK, ImageList(ImageDeleted, images));
    }

    /**
     * A protected request: `authenticateToken` first, and the handler only on
     * success. Whatever the request, a caller never changes another tenant's
     * rows and never changes the users table.
     */
    method Serve(header: Option<string>, verify: string -> Option<int>, req: Request, now: int) returns (resp: Response)
      requires Valid()
      modifies this
      ensures Valid()
      ensures users == old(users) && nextUserId == old(nextUserId)
      ensures Auth.Authenticate(header, verify).Unauthorized?
              ==> resp == Response(Unauthorized, NoBody) && patients == old(patients) && nextPatientId == old(nextPatientId)
      ensures Auth.Authenticate(header, verify).Forbidden?
              ==> resp == Response(Forbidden, NoBody) && patients == old(patients) && nextPatientId == old(nextPatientId)
      ensures Auth.Authenticate(header, verify).Authenticated?
              ==> forall other :: other != Auth.Authenticate(header, verify).tenantId
                    ==> OwnedBy(patients, other) == OwnedBy(old(patients), other)
    {
      match Auth.Authenticate(header, verify)
      case Unauthorized =>
        resp := Response(Unauthorized, NoBody);
      case Forbidden =>
        resp := Response(Forbidden, NoBody);
      case Authenticated(tenant) =>
        match req
        case List =>
          resp := ListPatients(tenant);
        case Get(id) =>
          resp := GetPatient(tenant, id);
        case Original(id) =>
          resp := OriginalPatient(tenant, id);
        case Create(fields) =>
          resp := CreatePatient(tenant, fields, now);
        case Update(id, fields) =>
          resp := UpdatePatient(tenant, id, fields);
        case Delete(id) =>
          resp := DeletePatient(tenant, id);
        case ReplaceImage(id, index, imageData) =>
          resp := ReplaceImageAt(tenant, id, index, imageData);
        case RemoveImage(id, index) =>
          resp := DeleteImageAt(tenant, id, index);
    }
  }
}
