/**
  The admin directory: the same email-keyed table as the employee directory,
  with a password column that is stored hashed and never returned. bcrypt is
  the `hash` parameter (with its random salt already chosen); `now` is the
  timestamp the database writes into `created_at` / `updated_at`.
*/
module AdminService {
  import opened Wrappers
  import opened ServiceErrors
  import Calendar
  import Paging

  type Email = string

  datatype JenisKelamin = L | P

  datatype Admin = Admin(
    namaDepan: string,
    namaBelakang: string,
    email: Email,
    tanggalLahir: Calendar.Date,
    jenisKelamin: JenisKelamin,
    password: string,
    createdAt: int,
    updatedAt: int)

  /** An admin as the service returns it: every column except the password. */
  datatype AdminView = AdminView(
    namaDepan: string,
    namaBelakang: string,
    email: Email,
    tanggalLahir: Calendar.Date,
    jenisKelamin: JenisKelamin,
    createdAt: int,
    updatedAt: int)

  type AdminTable = map<Email, Admin>

  predicate KeyedByEmail(table: AdminTable) {
    forall e :: e in table ==> table[e].email == e
  }

  datatype CreateAdminDto = CreateAdminDto(
    email: Email,
    password: string,
    namaDepan: string,
    namaBelakang: string,
    tanggalLahir: Calendar.Date,
    jenisKelamin: JenisKelamin)

  /** Every field optional; the email cannot be changed (the DTO omits it). */
  datatype UpdateAdminDto = UpdateAdminDto(
    password: Option<string>,
    namaDepan: Option<string>,
    namaBelakang: Option<string>,
    tanggalLahir: Option<Calendar.Date>,
    jenisKelamin: Option<JenisKelamin>)

  /** A successful write: the new table, the reply message and the returned data, if any. */
  datatype Saved = Saved(table: AdminTable, msg: string, data: Option<AdminView>)

  const CreatedMsg: string := "Admin created successfully"
  const UpdatedMsg: string := "Admin updated successfully"
  const DeletedMsg: string := "Admin deleted successfully"
  const DuplicateEmailMsg: string := "Account already registered with this email."
  const NotFoundMsg: string := "Account not found"
  const CreateFailedMsg: string := "Could not create admin due to system error"
  const UpdateFailedMsg: string := "Transaction failed, could not update admin"
  const DeleteFailedMsg: string := "Transaction failed, could not delete admin"
  const ListFailedMsg: string := "Failed to fetch admin list"

  /** The admin as every reply shows it: all columns but the password. */
  function Strip(a: Admin): (v: AdminView)
    ensures v.email == a.email && v.namaDepan == a.namaDepan && v.namaBelakang == a.namaBelakang
    ensures v.tanggalLahir == a.tanggalLahir && v.jenisKelamin == a.jenisKelamin
    ensures v.createdAt == a.createdAt && v.updatedAt == a.updatedAt
  {
    AdminView(a.namaDepan, a.namaBelakang, a.email, a.tanggalLahir, a.jenisKelamin, a.createdAt, a.updatedAt)
  }

  /** `findByEmail`: the row stored under `email`, or none. */
  function FindByEmail(table: AdminTable, email: Email): (r: Option<Admin>)
    ensures r.Some? <==> email in table
    ensures r.Some? ==> r.value == table[email]
    ensures KeyedByEmail(table) && r.Some? ==> r.value.email == email
  {
    if email in table then Some(table[email]) else None
  }

  /** The row `create` saves: the DTO's fields with the password replaced by its hash. */
  function FromDto(dto: CreateAdminDto, hash: string -> string, now: int): Admin {
    Admin(dto.namaDepan, dto.namaBelakang, dto.email, dto.tanggalLahir, dto.jenisKelamin, hash(dto.password), now, now)
  }

  function CreateTx(table: AdminTable, dto: CreateAdminDto, hash: string -> string, now: int, db: DbFault)
    : Result<Saved, Thrown>
  {
    if db == FailsOnRead then Err(DatabaseError)
    else if dto.email in table then Err(ConflictException(DuplicateEmailMsg))
    else if db == FailsOnWrite then Err(DatabaseError)
    else
      var a := FromDto(dto, hash, now);
      Ok(Saved(table[dto.email := a], CreatedMsg, Some(Strip(a))))
  }

  /** `create`: registers a new admin with a hashed password; the reply omits the password. */
  function Create(table: AdminTable, dto: CreateAdminDto, hash: string -> string, now: int, db: DbFault)
    : (r: Result<Saved, ServiceError>)
    ensures db != FailsOnRead && dto.email in table ==> r == Err(Conflict(DuplicateEmailMsg))
    ensures r.Ok? ==> dto.email !in table && r.value.table.Keys == table.Keys + {dto.email}
    ensures r.Ok? ==> r.value.table[dto.email].password == hash(dto.password)
    ensures r.Ok? ==>
              var a := r.value.table[dto.email];
              && a.email == dto.email && a.namaDepan == dto.namaDepan && a.namaBelakang == dto.namaBelakang
              && a.tanggalLahir == dto.tanggalLahir && a.jenisKelamin == dto.jenisKelamin
    ensures r.Ok? ==> r.value.data == Some(Strip(r.value.table[dto.email]))
    ensures r.Ok? ==> forall e :: e in table ==> r.value.table[e] == table[e]
  {
    match CreateTx(table, dto, hash, now, db)
    case Ok(saved) => Ok(saved)
    case Err(t) => Err(Catch(t, RethrowConflict, CreateFailedMsg))
  }

  /**
    The password `update` assigns: a non-empty supplied password is hashed; an
    empty one fails the truthiness test that guards the hashing, so it is
    copied onto the row unhashed.
  */
  function PatchedPassword(a: Admin, patch: UpdateAdminDto, hash: string -> string): (r: string)
    ensures patch.password.None? ==> r == a.password
    ensures patch.password.Some? && patch.password.value != "" ==> r == hash(patch.password.value)
    ensures r != a.password && r != "" ==> patch.password.Some? && r == hash(patch.password.value)
  {
    match patch.password
    case None => a.password
    case Some(p) => if p != "" then hash(p) else p
  }

  /** The row `update` saves: the patched password, then every supplied field copied over the stored one. */
  function ApplyPatch(a: Admin, patch: UpdateAdminDto, hash: string -> string): Admin {
    a.(password := PatchedPassword(a, patch, hash),
       namaDepan := patch.namaDepan.GetOr(a.namaDepan),
       namaBelakang := patch.namaBelakang.GetOr(a.namaBelakang),
       tanggalLahir := patch.tanggalLahir.GetOr(a.tanggalLahir),
       jenisKelamin := patch.jenisKelamin.GetOr(a.jenisKelamin))
  }

  /**
    The body of `update`'s transaction. As for employees, the save writes
    nothing, and `updated_at` keeps its stored value, when the patched entity
    equals the loaded row; otherwise `updated_at` becomes `now`.
  */
  function UpdateTx(table: AdminTable, email: Email, patch: UpdateAdminDto, hash: string -> string, now: int, db: DbFault)
    : Result<Saved, Thrown>
  {
    if db == FailsOnRead then Err(DatabaseError)
    else
      match FindByEmail(table, email)
      case None => Err(NotFoundException(NotFoundMsg))
      case Some(a) =>
        if db == FailsOnWrite then Err(DatabaseError)
        else
          var patched := ApplyPatch(a, patch, hash);
          var a' := if patched == a then a else patched.(updatedAt := now);
          Ok(Saved(table[email := a'], UpdatedMsg, Some(Strip(a'))))
  }

  /** `update`: overwrites the supplied fields of an existing admin, hashing a new password. */
  function Update(table: AdminTable, email: Email, patch: UpdateAdminDto, hash: string -> string, now: int, db: DbFault)
    : (r: Result<Saved, ServiceError>)
    ensures db != FailsOnRead && email !in table ==> r == Err(NotFound(NotFoundMsg))
    ensures r.Ok? ==> email in table && r.value.table.Keys == table.Keys
    ensures r.Ok? ==> forall e :: e in table && e != email ==> r.value.table[e] == table[e]
    ensures r.Ok? ==> r.value.data == Some(Strip(r.value.table[email]))
    ensures r.Ok? && patch.password.Some? && patch.password.value != "" ==>
              r.value.table[email].password == hash(patch.password.value)
    ensures r.Ok? && patch.password.None? ==> r.value.table[email].password == table[email].password
    ensures r.Ok? ==> (r.value.table == table <==> ApplyPatch(table[email], patch, hash) == table[email])
  {
    match UpdateTx(table, email, patch, hash, now, db)
    case Ok(saved) => Ok(saved)
    case Err(t) => Err(Catch(t, RethrowNotFound, UpdateFailedMsg))
  }

  function DeleteTx(table: AdminTable, email: Email, db: DbFault): Result<Saved, Thrown> {
    if db == FailsOnRead then Err(DatabaseError)
    else if email !in table then Err(NotFoundException(NotFoundMsg))
    else if db == FailsOnWrite then Err(DatabaseError)
    else Ok(Saved(table - {email}, DeletedMsg, None))
  }

  /** `delete`: removes an existing admin. */
  function Delete(table: AdminTable, email: Email, db: DbFault): (r: Result<Saved, ServiceError>)
    ensures db != FailsOnRead && email !in table ==> r == Err(NotFound(NotFoundMsg))
    ensures r.Ok? ==> email in table && r.value.table.Keys == table.Keys - {email}
    ensures r.Ok? ==> forall e :: e in r.value.table ==> r.value.table[e] == table[e]
  {
    match DeleteTx(table, email, db)
    case Ok(saved) => Ok(saved)
    case Err(t) => Err(Catch(t, RethrowNotFound, DeleteFailedMsg))
  }

  function CreatedKey(a: Admin): int {
    a.createdAt
  }

  function ViewCreatedKey(v: AdminView): int {
    v.createdAt
  }

  /** Stripping rows taken from the table yields views of table entries. */
  lemma StrippedRowsComeFromTable(table: AdminTable, admins: seq<Admin>)
    requires forall a :: a in admins ==> a in table.Values
    ensures forall v :: v in Paging.Map(admins, Strip) ==> exists e :: e in table && Strip(table[e]) == v
  {
    var data := Paging.Map(admins, Strip);
    forall v | v in data ensures exists e :: e in table && Strip(table[e]) == v {
      var k :| 0 <= k < |data| && data[k] == v;
      assert admins[k] in admins;
      var e :| e in table && table[e] == admins[k];
    }
  }

  /** `findAll`: a page of admins, newest first, each without its password, with the total count. */
  ghost function FindAll(table: AdminTable, page: Option<int>, limit: Option<int>, db: DbFault)
    : (r: Result<Paging.PageOf<AdminView>, ServiceError>)
    requires page.Some? ==> page.value >= 1
    requires limit.Some? ==> limit.value >= 1
    ensures db != NoFault <==> r == Err(InternalServerError(ListFailedMsg))
    ensures r.Ok? <==> db == NoFault
    ensures r.Ok? ==> r.value.total == |table| && |r.value.data| <= r.value.limit
    ensures r.Ok? ==> r.value.page == page.GetOr(Paging.DefaultPage) && r.value.limit == limit.GetOr(Paging.DefaultLimit)
    ensures r.Ok? ==>
              var off := Paging.Offset(r.value.page, r.value.limit);
              |r.value.data| == if off >= |table| then 0 else if off + r.value.limit <= |table| then r.value.limit else |table| - off
    ensures r.Ok? ==> forall i, j :: 0 <= i < j < |r.value.data| ==> r.value.data[i].createdAt >= r.value.data[j].createdAt
    ensures r.Ok? ==> forall v :: v in r.value.data ==> exists e :: e in table && Strip(table[e]) == v
  {
    if db != NoFault then Err(InternalServerError(ListFailedMsg))
    else
      var p := page.GetOr(Paging.DefaultPage);
      var l := limit.GetOr(Paging.DefaultLimit);
      var rows := Paging.Rows(table);
      var sorted := Paging.SortDesc(rows, CreatedKey);
      var admins := Paging.Paginate(sorted, p, l);
      Paging.PageOfSortedIsSorted(sorted, p, l, CreatedKey);
      var data := Paging.Map(admins, Strip);
      Paging.PageRowsComeFromTable(table, CreatedKey, p, l);
      StrippedRowsComeFromTable(table, admins);
      Ok(Paging.PageOf(data, |table|, p, l))
  }

  /** The rows of page `page` are that page of the table's rows sorted newest first, each stripped. */
  lemma FindAllPage(table: AdminTable, page: int, limit: int)
    requires 1 <= page && 1 <= limit
    ensures FindAll(table, Some(page), Some(limit), NoFault)
            == Ok(Paging.PageOf(Paging.Map(Paging.Paginate(Paging.SortDesc(Paging.Rows(table), CreatedKey), page, limit), Strip),
                                |table|, page, limit))
  {
  }

  /**
    A page of the listing is the skip-and-take of some ordering of all the
    table's rows, newest first, with each row's password removed.
  */
  lemma FindAllIsPageOfSortedRows(table: AdminTable, page: Option<int>, limit: Option<int>)
    requires page.Some? ==> page.value >= 1
    requires limit.Some? ==> limit.value >= 1
    ensures var r := FindAll(table, page, limit, NoFault);
            && r.Ok?
            && exists s :: && multiset(s) == multiset(Paging.Rows(table)) && Paging.SortedDesc(s, CreatedKey)
                          && r.value.data == Paging.Map(Paging.Paginate(s, r.value.page, r.value.limit), Strip)
  {
    var r := FindAll(table, page, limit, NoFault);
    var sorted := Paging.SortDesc(Paging.Rows(table), CreatedKey);
    FindAllPage(table, r.value.page, r.value.limit);
    assert multiset(sorted) == multiset(Paging.Rows(table)) && Paging.SortedDesc(sorted, CreatedKey);
  }

  /**
    The password never leaves the listing: two tables that differ only in
    passwords give the same answer for every page.
  */
  lemma FindAllIgnoresPasswords(t1: AdminTable, t2: AdminTable, page: Option<int>, limit: Option<int>, db: DbFault)
    requires page.Some? ==> page.value >= 1
    requires limit.Some? ==> limit.value >= 1
    requires t1.Keys == t2.Keys
    requires forall e :: e in t1 ==> Strip(t1[e]) == Strip(t2[e])
    ensures FindAll(t1, page, limit, db) == FindAll(t2, page, limit, db)
  {
    if db == NoFault {
      var p, l := page.GetOr(Paging.DefaultPage), limit.GetOr(Paging.DefaultLimit);
      Paging.MapRowsAgree(t1, t2, Strip);
      Paging.MapPagesAgree(Paging.Rows(t1), Paging.Rows(t2), CreatedKey, Strip, ViewCreatedKey, p, l);
      assert |t1| == |t2| by {
        assert |t1| == |t1.Keys| == |t2.Keys| == |t2|;
      }
    }
  }

  /** Page k of the admin listing with a fixed page size, as a client requests it. */
  ghost function ListingPages(table: AdminTable, limit: int): int -> seq<AdminView>
    requires 1 <= limit
  {
    k => if k >= 1 then FindAll(table, Some(k), Some(limit), NoFault).value.data else []
  }

  /**
    Reading pages 1, 2, ... in turn lists every admin exactly once, without its
    password: n full pages while rows remain, and the view of every row once n
    pages cover them.
  */
  lemma PagesListEveryAdmin(table: AdminTable, n: nat, limit: int)
    requires 1 <= limit
    ensures n * limit <= |table| ==> |Paging.ReadPages(ListingPages(table, limit), n)| == n * limit
    ensures n * limit >= |table| ==>
              var read := Paging.ReadPages(ListingPages(table, limit), n);
              && |read| == |table|
              && forall e :: e in table ==> Strip(table[e]) in read
  {
    var rows := Paging.Rows(table);
    var sorted := Paging.SortDesc(rows, CreatedKey);
    var views := Paging.Map(sorted, Strip);
    var pages := ListingPages(table, limit);
    forall k | 1 <= k <= n ensures pages(k) == Paging.Paginate(views, k, limit) {
      FindAllPage(table, k, limit);
      Paging.MapPaginate(sorted, Strip, k, limit);
    }
    Paging.ReadAllPages(pages, views, n, limit);
    ViewsOfSortedRows(table);
  }

  /** Listing the sorted rows without passwords shows every admin's view, one per row. */
  lemma ViewsOfSortedRows(table: AdminTable)
    ensures var views := Paging.Map(Paging.SortDesc(Paging.Rows(table), CreatedKey), Strip);
            |views| == |table| && forall e :: e in table ==> Strip(table[e]) in views
  {
    var rows := Paging.Rows(table);
    var sorted := Paging.SortDesc(rows, CreatedKey);
    var views := Paging.Map(sorted, Strip);
    assert |sorted| == |rows| by {
      assert |multiset(sorted)| == |multiset(rows)|;
    }
    Paging.RowsCoverTable(table);
    forall e | e in table ensures Strip(table[e]) in views {
      assert table[e] in rows;
      assert table[e] in multiset(sorted);
      Paging.MapHas(sorted, Strip, table[e]);
    }
  }

  /** Create: Conflict only for a taken email, 500 exactly when a database call fails, never NotFound. */
  lemma CreateErrorClassification(table: AdminTable, dto: CreateAdminDto, hash: string -> string, now: int, db: DbFault)
    ensures var r := Create(table, dto, hash, now, db);
            && (r.Ok? <==> db == NoFault && dto.email !in table)
            && (r.Err? ==> !r.error.NotFound?)
            && (r.Err? && r.error.Conflict? <==> db != FailsOnRead && dto.email in table)
            && (r == Err(InternalServerError(CreateFailedMsg)) <==>
                  db == FailsOnRead || (db == FailsOnWrite && dto.email !in table))
  {
  }

  /** Update: NotFound only for an absent email, 500 exactly when a database call fails, never Conflict. */
  lemma UpdateErrorClassification(table: AdminTable, email: Email, patch: UpdateAdminDto,
                                  hash: string -> string, now: int, db: DbFault)
    ensures var r := Update(table, email, patch, hash, now, db);
            && (r.Ok? <==> db == NoFault && email in table)
            && (r.Err? ==> !r.error.Conflict?)
            && (r.Err? && r.error.NotFound? <==> db != FailsOnRead && email !in table)
            && (r == Err(InternalServerError(UpdateFailedMsg)) <==>
                  db == FailsOnRead || (db == FailsOnWrite && email in table))
  {
  }

  /** Delete: NotFound only for an absent email, 500 exactly when a database call fails, never Conflict. */
  lemma DeleteErrorClassification(table: AdminTable, email: Email, db: DbFault)
    ensures var r := Delete(table, email, db);
            && (r.Ok? <==> db == NoFault && email in table)
            && (r.Err? ==> !r.error.Conflict?)
            && (r.Err? && r.error.NotFound? <==> db != FailsOnRead && email !in table)
            && (r == Err(InternalServerError(DeleteFailedMsg)) <==>
                  db == FailsOnRead || (db == FailsOnWrite && email in table))
  {
  }

  /** After a successful create the new admin is found under its email, with the hashed password. */
  lemma CreateThenFind(table: AdminTable, dto: CreateAdminDto, hash: string -> string, now: int)
    requires dto.email !in table
    ensures var r := Create(table, dto, hash, now, NoFault);
            && r.Ok?
            && FindByEmail(r.value.table, dto.email) == Some(FromDto(dto, hash, now))
            && FromDto(dto, hash, now).email == dto.email
            && FromDto(dto, hash, now).password == hash(dto.password)
  {
  }

  /** After a successful delete the email is no longer found. */
  lemma DeleteThenFind(table: AdminTable, email: Email)
    requires email in table
    ensures var r := Delete(table, email, NoFault);
            r.Ok? && FindByEmail(r.value.table, email) == None
  {
  }

  /** Every successful write keeps each row under its own email. */
  lemma WritesPreserveKeyedByEmail(table: AdminTable, dto: CreateAdminDto, email: Email,
                                   patch: UpdateAdminDto, hash: string -> string, now: int, db: DbFault)
    requires KeyedByEmail(table)
    ensures var r := Create(table, dto, hash, now, db); r.Ok? ==> KeyedByEmail(r.value.table)
    ensures var r := Update(table, email, patch, hash, now, db); r.Ok? ==> KeyedByEmail(r.value.table)
    ensures var r := Delete(table, email, db); r.Ok? ==> KeyedByEmail(r.value.table)
  {
  }

  /** Update keeps the email and creation time, writes supplied fields and keeps the others. */
  lemma UpdateWritesSuppliedFields(table: AdminTable, email: Email, patch: UpdateAdminDto, hash: string -> string, now: int)
    requires email in table
    ensures var r := Update(table, email, patch, hash, now, NoFault);
            var old_ := table[email];
            var new_ := r.value.table[email];
            && r.Ok?
            && new_.email == old_.email && new_.createdAt == old_.createdAt
            && (ApplyPatch(old_, patch, hash) == old_ ==> new_ == old_)
            && (ApplyPatch(old_, patch, hash) != old_ ==> new_.updatedAt == now)
            && (patch.namaDepan.Some? ==> new_.namaDepan == patch.namaDepan.value)
            && (patch.namaDepan.None? ==> new_.namaDepan == old_.namaDepan)
            && (patch.namaBelakang.Some? ==> new_.namaBelakang == patch.namaBelakang.value)
            && (patch.namaBelakang.None? ==> new_.namaBelakang == old_.namaBelakang)
            && (patch.tanggalLahir.Some? ==> new_.tanggalLahir == patch.tanggalLahir.value)
            && (patch.tanggalLahir.None? ==> new_.tanggalLahir == old_.tanggalLahir)
            && (patch.jenisKelamin.Some? ==> new_.jenisKelamin == patch.jenisKelamin.value)
            && (patch.jenisKelamin.None? ==> new_.jenisKelamin == old_.jenisKelamin)
  {
  }

  /**
    Under the DTO's constraint that a supplied password has at least 6
    characters, update always stores the hash of the new password.
  */
  lemma SuppliedPasswordStoredHashed(table: AdminTable, email: Email, patch: UpdateAdminDto, hash: string -> string, now: int)
    requires patch.password.Some? ==> |patch.password.value| >= 6
    requires email in table && patch.password.Some?
    ensures var r := Update(table, email, patch, hash, now, NoFault);
            r.Ok? && r.value.table[email].password == hash(patch.password.value)
  {
  }

  /** Without that constraint, an empty password skips the hashing and is stored as the empty string. */
  lemma EmptyPasswordStoredUnhashed(table: AdminTable, email: Email, hash: string -> string, now: int)
    requires email in table
    ensures var r := Update(table, email, UpdateAdminDto(Some(""), None, None, None, None), hash, now, NoFault);
            r.Ok? && r.value.table[email].password == ""
  {
  }

  /** Two creates that differ only in the password give the same reply: no reply carries it. */
  lemma CreateReplyIndependentOfPassword(
    table: AdminTable, dto: CreateAdminDto, other: string, hash: string -> string, now: int, db: DbFault)
    ensures var r1, r2 := Create(table, dto, hash, now, db), Create(table, dto.(password := other), hash, now, db);
            r1.Ok? == r2.Ok? && (r1.Ok? ==> r1.value.data == r2.value.data && r1.value.msg == r2.value.msg)
  {
  }

  /**
    Likewise for updates: the supplied or stored password never shows in the
    reply. The password can still decide whether anything is written at all,
    and so whether `updated_at` moves; once another column changes, both
    replies are identical.
  */
  lemma UpdateReplyIndependentOfPassword(
    table: AdminTable, email: Email, patch: UpdateAdminDto, other: Option<string>,
    hash: string -> string, now: int, db: DbFault)
    ensures var r1 := Update(table, email, patch, hash, now, db);
            var r2 := Update(table, email, patch.(password := other), hash, now, db);
            && r1.Ok? == r2.Ok?
            && (r1.Ok? ==> r1.value.msg == r2.value.msg && r1.value.data.Some? && r2.value.data.Some?
                           && r1.value.data.value == r2.value.data.value.(updatedAt := r1.value.data.value.updatedAt))
            && (r1.Ok? && ApplyPatch(table[email], patch.(password := None), hash) != table[email] ==>
                  r1.value.data == r2.value.data)
  {
  }

  /** An empty patch changes no column, so the save writes nothing and the stored row comes back as it was. */
  lemma EmptyPatchKeepsRow(table: AdminTable, email: Email, hash: string -> string, now: int)
    requires email in table
    ensures Update(table, email, UpdateAdminDto(None, None, None, None, None), hash, now, NoFault)
              == Ok(Saved(table, UpdatedMsg, Some(Strip(table[email]))))
  {
  }

  /**
    A password-only patch whose hash differs from the stored password is a
    write, so its reply carries `now`; the same patch without the password
    writes nothing and the reply keeps the stored time.
  */
  lemma PasswordOnlyPatchMovesUpdatedAt(table: AdminTable, email: Email, pw: string, hash: string -> string, now: int)
    requires email in table && pw != "" && hash(pw) != table[email].password
    ensures var r1 := Update(table, email, UpdateAdminDto(Some(pw), None, None, None, None), hash, now, NoFault);
            var r2 := Update(table, email, UpdateAdminDto(None, None, None, None, None), hash, now, NoFault);
            && r1.Ok? && r2.Ok? && r1.value.data.Some? && r2.value.data.Some?
            && r1.value.data.value.updatedAt == now
            && r2.value.data.value.updatedAt == table[email].updatedAt
  {
  }
}
