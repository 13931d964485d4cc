/**
  The employee ("pegawai") directory: a table keyed by email with create,
  update, delete, lookup and a paginated list, each write inside a
  transaction whose errors follow `ServiceErrors`. `now` is the timestamp the
  database writes into `created_at` / `updated_at`.
*/
module PegawaiService {
  import opened Wrappers
  import opened ServiceErrors
  import Paging

  type Email = string

  datatype JenisKelamin = L | P

  datatype Pegawai = Pegawai(
    namaDepan: string,
    namaBelakang: string,
    email: Email,
    noHp: string,
    alamat: string,
    jenisKelamin: JenisKelamin,
    createdAt: int,
    updatedAt: int)

  /** The pegawai table, keyed by its primary key `email`. */
  type Directory = map<Email, Pegawai>

  /** Every row is stored under its own email. */
  predicate KeyedByEmail(dir: Directory) {
    forall e :: e in dir ==> dir[e].email == e
  }

  datatype CreatePegawaiDto = CreatePegawaiDto(
    namaDepan: string,
    namaBelakang: string,
    email: Email,
    noHp: string,
    alamat: string,
    jenisKelamin: JenisKelamin)

  /** Every field optional; the email cannot be changed (the DTO omits it). */
  datatype UpdatePegawaiDto = UpdatePegawaiDto(
    namaDepan: Option<string>,
    namaBelakang: Option<string>,
    noHp: Option<string>,
    alamat: Option<string>,
    jenisKelamin: Option<JenisKelamin>)

  /** A successful write: the new table, the reply message and the saved row, if returned. */
  datatype Saved = Saved(directory: Directory, msg: string, data: Option<Pegawai>)

  const CreatedMsg: string := "Pegawai created successfully"
  const UpdatedMsg: string := "Pegawai updated successfully"
  const DeletedMsg: string := "Data pegawai deleted successfully"
  const DuplicateEmailMsg: string := "Data already created with this Email."
  const UpdateNotFoundMsg: string := "Account not found"
  const DeleteNotFoundMsg: string := "Data pegawai not found"
  const CreateFailedMsg: string := "Transaction failed while creating pegawai"
  const UpdateFailedMsg: string := "Transaction failed while updating pegawai"
  const DeleteFailedMsg: string := "Transaction failed while deleting pegawai"
  const ListFailedMsg: string := "Failed to fetch pegawai list"

  /** `findByEmail`: the row stored under `email`, or none. */
  function FindByEmail(dir: Directory, email: Email): (r: Option<Pegawai>)
    ensures r.Some? <==> email in dir
    ensures r.Some? ==> r.value == dir[email]
    ensures KeyedByEmail(dir) && r.Some? ==> r.value.email == email
  {
    if email in dir then Some(dir[email]) else None
  }

  /** The row `create` saves for a DTO. */
  function FromDto(dto: CreatePegawaiDto, now: int): Pegawai {
    Pegawai(dto.namaDepan, dto.namaBelakang, dto.email, dto.noHp, dto.alamat, dto.jenisKelamin, now, now)
  }

  /** Copying a patch onto a row: supplied fields overwrite, the rest (email included) stay. */
  function ApplyPatch(p: Pegawai, patch: UpdatePegawaiDto): (r: Pegawai)
    ensures r.email == p.email && r.createdAt == p.createdAt && r.updatedAt == p.updatedAt
    ensures patch.namaDepan.Some? ==> r.namaDepan == patch.namaDepan.value
    ensures patch.namaDepan.None? ==> r.namaDepan == p.namaDepan
    ensures patch.namaBelakang.Some? ==> r.namaBelakang == patch.namaBelakang.value
    ensures patch.namaBelakang.None? ==> r.namaBelakang == p.namaBelakang
    ensures patch.noHp.Some? ==> r.noHp == patch.noHp.value
    ensures patch.noHp.None? ==> r.noHp == p.noHp
    ensures patch.alamat.Some? ==> r.alamat == patch.alamat.value
    ensures patch.alamat.None? ==> r.alamat == p.alamat
    ensures patch.jenisKelamin.Some? ==> r.jenisKelamin == patch.jenisKelamin.value
    ensures patch.jenisKelamin.None? ==> r.jenisKelamin == p.jenisKelamin
  {
    p.(namaDepan := patch.namaDepan.GetOr(p.namaDepan),
       namaBelakang := patch.namaBelakang.GetOr(p.namaBelakang),
       noHp := patch.noHp.GetOr(p.noHp),
       alamat := patch.alamat.GetOr(p.alamat),
       jenisKelamin := patch.jenisKelamin.GetOr(p.jenisKelamin))
  }

  /** The body of `create`'s transaction, before its `catch`. */
  function CreateTx(dir: Directory, dto: CreatePegawaiDto, now: int, db: DbFault): Result<Saved, Thrown> {
    if db == FailsOnRead then Err(DatabaseError)
    else if dto.email in dir then Err(ConflictException(DuplicateEmailMsg))
    else if db == FailsOnWrite then Err(DatabaseError)
    else
      var p := FromDto(dto, now);
      Ok(Saved(dir[dto.email := p], CreatedMsg, Some(p)))
  }

  /** `create`: adds a new employee unless the email is taken. */
  function Create(dir: Directory, dto: CreatePegawaiDto, now: int, db: DbFault): (r: Result<Saved, ServiceError>)
    ensures db != FailsOnRead && dto.email in dir ==> r == Err(Conflict(DuplicateEmailMsg))
    ensures r.Ok? ==> dto.email !in dir && r.value.directory.Keys == dir.Keys + {dto.email}
    ensures r.Ok? ==> r.value.data == Some(r.value.directory[dto.email])
    ensures r.Ok? ==> forall e :: e in dir ==> r.value.directory[e] == dir[e]
  {
    match CreateTx(dir, dto, now, db)
    case Ok(saved) => Ok(saved)
    case Err(t) => Err(Catch(t, RethrowConflict, CreateFailedMsg))
  }

  /**
    The body of `update`'s transaction. The save compares the patched entity
    with the loaded row: when no column differs it writes nothing and
    `updated_at` keeps its stored value; otherwise the row is written and
    `updated_at` becomes `now`.
  */
  function UpdateTx(dir: Directory, email: Email, patch: UpdatePegawaiDto, now: int, db: DbFault): Result<Saved, Thrown> {
    if db == FailsOnRead then Err(DatabaseError)
    else
      match FindByEmail(dir, email)
      case None => Err(NotFoundException(UpdateNotFoundMsg))
      case Some(p) =>
        if db == FailsOnWrite then Err(DatabaseError)
        else
          var patched := ApplyPatch(p, patch);
          var p' := if patched == p then p else patched.(updatedAt := now);
          Ok(Saved(dir[email := p'], UpdatedMsg, Some(p')))
  }

  /** `update`: overwrites the supplied fields of an existing employee. */
  function Update(dir: Directory, email: Email, patch: UpdatePegawaiDto, now: int, db: DbFault)
    : (r: Result<Saved, ServiceError>)
    ensures db != FailsOnRead && email !in dir ==> r == Err(NotFound(UpdateNotFoundMsg))
    ensures r.Ok? ==> email in dir && r.value.directory.Keys == dir.Keys
    ensures r.Ok? ==> forall e :: e in dir && e != email ==> r.value.directory[e] == dir[e]
    ensures r.Ok? ==> r.value.data == Some(r.value.directory[email])
    ensures r.Ok? ==> r.value.directory[email].email == dir[email].email
    ensures r.Ok? ==> (r.value.directory == dir <==> ApplyPatch(dir[email], patch) == dir[email])
  {
    match UpdateTx(dir, email, patch, now, db)
    case Ok(saved) => Ok(saved)
    case Err(t) => Err(Catch(t, RethrowNotFound, UpdateFailedMsg))
  }

  function DeleteTx(dir: Directory, email: Email, db: DbFault): Result<Saved, Thrown> {
    if db == FailsOnRead then Err(DatabaseError)
    else if email !in dir then Err(NotFoundException(DeleteNotFoundMsg))
    else if db == FailsOnWrite then Err(DatabaseError)
    else Ok(Saved(dir - {email}, DeletedMsg, None))
  }

  /** `delete`: removes an existing employee. */
  function Delete(dir: Directory, email: Email, db: DbFault): (r: Result<Saved, ServiceError>)
    ensures db != FailsOnRead && email !in dir ==> r == Err(NotFound(DeleteNotFoundMsg))
    ensures r.Ok? ==> email in dir && r.value.directory.Keys == dir.Keys - {email}
    ensures r.Ok? ==> forall e :: e in r.value.directory ==> r.value.directory[e] == dir[e]
    ensures r.Ok? ==> r.value.msg == DeletedMsg
  {
    match DeleteTx(dir, email, db)
    case Ok(saved) => Ok(saved)
    case Err(t) => Err(Catch(t, RethrowNotFound, DeleteFailedMsg))
  }

  function CreatedKey(p: Pegawai): int {
    p.createdAt
  }

  /** `findAll`: a page of employees, newest first, with the total count. */
  ghost function FindAll(dir: Directory, page: Option<int>, limit: Option<int>, db: DbFault)
    : (r: Result<Paging.PageOf<Pegawai>, ServiceError>)
    requires page.Some? ==> page.value >= 1
    requires limit.Some? ==> limit.value >= 1
    ensures db != NoFault <==> r == Err(InternalServerError(ListFailedMsg))
    ensures r.Ok? <==> db == NoFault
    ensures r.Ok? ==> r.value.total == |dir| && |r.value.data| <= r.value.limit
    ensures r.Ok? ==> r.value.page == page.GetOr(Paging.DefaultPage) && r.value.limit == limit.GetOr(Paging.DefaultLimit)
    ensures r.Ok? ==>
              var off := Paging.Offset(r.value.page, r.value.limit);
              |r.value.data| == if off >= |dir| then 0 else if off + r.value.limit <= |dir| then r.value.limit else |dir| - off
    ensures r.Ok? ==> Paging.SortedDesc(r.value.data, CreatedKey)
    ensures r.Ok? ==> forall p :: p in r.value.data ==> p in dir.Values
  {
    if db != NoFault then Err(InternalServerError(ListFailedMsg))
    else
      var p := page.GetOr(Paging.DefaultPage);
      var l := limit.GetOr(Paging.DefaultLimit);
      var rows := Paging.Rows(dir);
      var sorted := Paging.SortDesc(rows, CreatedKey);
      var data := Paging.Paginate(sorted, p, l);
      Paging.PageOfSortedIsSorted(sorted, p, l, CreatedKey);
      Paging.PageRowsComeFromTable(dir, CreatedKey, p, l);
      Ok(Paging.PageOf(data, |dir|, p, l))
  }

  /** The rows of page `page` are that page of the table's rows sorted newest first. */
  lemma FindAllPage(dir: Directory, page: int, limit: int)
    requires 1 <= page && 1 <= limit
    ensures FindAll(dir, Some(page), Some(limit), NoFault)
            == Ok(Paging.PageOf(Paging.Paginate(Paging.SortDesc(Paging.Rows(dir), CreatedKey), page, limit), |dir|, page, limit))
  {
  }

  /**
    A page of the listing is the skip-and-take of some ordering of all the
    table's rows, newest first: which rows a page holds is fixed up to the order
    of rows created at the same instant.
  */
  lemma FindAllIsPageOfSortedRows(dir: Directory, page: Option<int>, limit: Option<int>)
    requires page.Some? ==> page.value >= 1
    requires limit.Some? ==> limit.value >= 1
    ensures var r := FindAll(dir, page, limit, NoFault);
            && r.Ok?
            && exists s :: && multiset(s) == multiset(Paging.Rows(dir)) && Paging.SortedDesc(s, CreatedKey)
                          && r.value.data == Paging.Paginate(s, r.value.page, r.value.limit)
  {
    var r := FindAll(dir, page, limit, NoFault);
    var sorted := Paging.SortDesc(Paging.Rows(dir), CreatedKey);
    FindAllPage(dir, r.value.page, r.value.limit);
    assert multiset(sorted) == multiset(Paging.Rows(dir)) && Paging.SortedDesc(sorted, CreatedKey);
  }

  /** Page k of the employee listing with a fixed page size, as a client requests it. */
  ghost function ListingPages(dir: Directory, limit: int): int -> seq<Pegawai>
    requires 1 <= limit
  {
    k => if k >= 1 then FindAll(dir, Some(k), Some(limit), NoFault).value.data else []
  }

  /**
    Reading pages 1, 2, ... in turn lists every employee exactly once: n full
    pages while rows remain, and every row of the table, none repeated, once n
    pages cover them.
  */
  lemma PagesListEveryEmployee(dir: Directory, n: nat, limit: int)
    requires 1 <= limit
    ensures n * limit <= |dir| ==> |Paging.ReadPages(ListingPages(dir, limit), n)| == n * limit
    ensures n * limit >= |dir| ==>
              var read := Paging.ReadPages(ListingPages(dir, limit), n);
              && multiset(read) == multiset(Paging.Rows(dir))
              && |read| == |dir|
              && forall e :: e in dir ==> dir[e] in read
  {
    var rows := Paging.Rows(dir);
    var sorted := Paging.SortDesc(rows, CreatedKey);
    var pages := ListingPages(dir, limit);
    forall k | 1 <= k <= n ensures pages(k) == Paging.Paginate(sorted, k, limit) {
      FindAllPage(dir, k, limit);
    }
    Paging.ReadAllPages(pages, sorted, n, limit);
    assert |sorted| == |dir| by {
      assert |multiset(sorted)| == |multiset(rows)|;
    }
    Paging.RowsCoverTable(dir);
    forall e | e in dir ensures dir[e] in sorted {
      assert dir[e] in multiset(rows);
    }
  }

  /** Create: Conflict only for a taken email, 500 exactly when a database call fails, never NotFound. */
  lemma CreateErrorClassification(dir: Directory, dto: CreatePegawaiDto, now: int, db: DbFault)
    ensures var r := Create(dir, dto, now, db);
            && (r.Ok? <==> db == NoFault && dto.email !in dir)
            && (r.Err? ==> !r.error.NotFound?)
            && (r.Err? && r.error.Conflict? <==> db != FailsOnRead && dto.email in dir)
            && (r == Err(InternalServerError(CreateFailedMsg)) <==>
                  db == FailsOnRead || (db == FailsOnWrite && dto.email !in dir))
  {
  }

  /** Update: NotFound only for an absent email, 500 exactly when a database call fails, never Conflict. */
  lemma UpdateErrorClassification(dir: Directory, email: Email, patch: UpdatePegawaiDto, now: int, db: DbFault)
    ensures var r := Update(dir, email, patch, now, db);
            && (r.Ok? <==> db == NoFault && email in dir)
            && (r.Err? ==> !r.error.Conflict?)
            && (r.Err? && r.error.NotFound? <==> db != FailsOnRead && email !in dir)
            && (r == Err(InternalServerError(UpdateFailedMsg)) <==>
                  db == FailsOnRead || (db == FailsOnWrite && email in dir))
  {
  }

  /** Delete: NotFound only for an absent email, 500 exactly when a database call fails, never Conflict. */
  lemma DeleteErrorClassification(dir: Directory, email: Email, db: DbFault)
    ensures var r := Delete(dir, email, db);
            && (r.Ok? <==> db == NoFault && email in dir)
            && (r.Err? ==> !r.error.Conflict?)
            && (r.Err? && r.error.NotFound? <==> db != FailsOnRead && email !in dir)
            && (r == Err(InternalServerError(DeleteFailedMsg)) <==>
                  db == FailsOnRead || (db == FailsOnWrite && email in dir))
  {
  }

  /** After a successful create the new employee is found under its email, carrying the DTO's fields. */
  lemma CreateThenFind(dir: Directory, dto: CreatePegawaiDto, now: int)
    requires dto.email !in dir
    ensures var r := Create(dir, dto, now, NoFault);
            && r.Ok?
            && FindByEmail(r.value.directory, dto.email) == Some(FromDto(dto, now))
            && FromDto(dto, now).email == dto.email
            && FromDto(dto, now).namaDepan == dto.namaDepan && FromDto(dto, now).noHp == dto.noHp
  {
  }

  /** After a successful delete the email is no longer found. */
  lemma DeleteThenFind(dir: Directory, email: Email)
    requires email in dir
    ensures var r := Delete(dir, email, NoFault);
            r.Ok? && FindByEmail(r.value.directory, email) == None
  {
  }

  /** Update writes exactly the supplied fields; the email key and the creation time never change. */
  lemma UpdateWritesSuppliedFields(dir: Directory, email: Email, patch: UpdatePegawaiDto, now: int)
    requires email in dir
    ensures var r := Update(dir, email, patch, now, NoFault);
            var old_ := dir[email];
            var new_ := r.value.directory[email];
            && r.Ok?
            && new_.email == old_.email && new_.createdAt == old_.createdAt
            && (ApplyPatch(old_, patch) == old_ ==> new_ == old_)
            && (ApplyPatch(old_, patch) != old_ ==> new_.updatedAt == now)
            && (patch.namaDepan.Some? ==> new_.namaDepan == patch.namaDepan.value)
            && (patch.namaDepan.None? ==> new_.namaDepan == old_.namaDepan)
            && (patch.namaBelakang.Some? ==> new_.namaBelakang == patch.namaBelakang.value)
            && (patch.namaBelakang.None? ==> new_.namaBelakang == old_.namaBelakang)
            && (patch.noHp.Some? ==> new_.noHp == patch.noHp.value)
            && (patch.noHp.None? ==> new_.noHp == old_.noHp)
            && (patch.alamat.Some? ==> new_.alamat == patch.alamat.value)
            && (patch.alamat.None? ==> new_.alamat == old_.alamat)
            && (patch.jenisKelamin.Some? ==> new_.jenisKelamin == patch.jenisKelamin.value)
            && (patch.jenisKelamin.None? ==> new_.jenisKelamin == old_.jenisKelamin)
  {
  }

  /** An empty patch changes no column, so the save writes nothing and the stored row comes back as it was. */
  lemma EmptyPatchKeepsRow(dir: Directory, email: Email, now: int)
    requires email in dir
    ensures Update(dir, email, UpdatePegawaiDto(None, None, None, None, None), now, NoFault)
              == Ok(Saved(dir, UpdatedMsg, Some(dir[email])))
  {
  }

  /** Every successful write keeps each row under its own email. */
  lemma WritesPreserveKeyedByEmail(dir: Directory, dto: CreatePegawaiDto, email: Email,
                                   patch: UpdatePegawaiDto, now: int, db: DbFault)
    requires KeyedByEmail(dir)
    ensures var r := Create(dir, dto, now, db); r.Ok? ==> KeyedByEmail(r.value.directory)
    ensures var r := Update(dir, email, patch, now, db); r.Ok? ==> KeyedByEmail(r.value.directory)
    ensures var r := Delete(dir, email, db); r.Ok? ==> KeyedByEmail(r.value.directory)
  {
  }
}
