/**
  The employee table and the leave table side by side. Every leave row
  references its owner by email (`ManyToOne` with `ON DELETE CASCADE`), so
  deleting an employee drops the leaves it owns, and the leave service only
  ever inserts rows for employees that exist.
*/
module LeaveDirectory {
  import opened Wrappers
  import opened Calendar
  import opened ServiceErrors
  import Paging
  import PegawaiService
  import opened CutiService
  import CutiProperties

  /** The two tables of the database. */
  datatype Database = Database(pegawai: PegawaiService.Directory, cuti: CutiStore)

  /** Referential integrity: every leave belongs to an employee that exists. */
  predicate OwnersExist(db: Database) {
    forall c :: c in db.cuti.records ==> c.pegawaiEmail in db.pegawai
  }

  /** The leaves of everyone but `email`: what the cascade leaves behind. */
  function NotOwnedBy(records: seq<Cuti>, email: Email): (r: seq<Cuti>)
    ensures forall c :: c in r <==> c in records && c.pegawaiEmail != email
  {
    Paging.Filter(records, (c: Cuti) => c.pegawaiEmail != email)
  }

  /** `PegawaiService.delete` followed by the database's cascade on the leave table. */
  function DeletePegawai(db: Database, email: Email, fault: DbFault): (r: Result<Database, ServiceError>)
    ensures r.Err? <==> PegawaiService.Delete(db.pegawai, email, fault).Err?
    ensures r.Ok? ==> email in db.pegawai && r.value.pegawai.Keys == db.pegawai.Keys - {email}
    ensures r.Ok? ==> forall c :: c in r.value.cuti.records <==> c in db.cuti.records && c.pegawaiEmail != email
    ensures r.Ok? ==> r.value.cuti.nextId == db.cuti.nextId
  {
    match PegawaiService.Delete(db.pegawai, email, fault)
    case Err(e) => Err(e)
    case Ok(saved) => Ok(Database(saved.directory, db.cuti.(records := NotOwnedBy(db.cuti.records, email))))
  }

  /** `applyCuti` against the employees currently in the table. */
  function Apply(db: Database, now: Clock, req: CreateCutiDto): (r: Result<Database, CutiError>)
    ensures r == Err(PegawaiNotFound) <==> req.pegawaiEmail !in db.pegawai
    ensures r.Err? <==> ApplyCuti(db.pegawai.Keys, db.cuti, now, req).Err?
    ensures r.Ok? ==> req.pegawaiEmail in db.pegawai && r.value.pegawai == db.pegawai
    ensures r.Ok? ==> r.value.cuti.records == db.cuti.records + [NewRecord(db.cuti, req)]
    ensures r.Ok? ==> r.value.cuti.nextId == db.cuti.nextId + 1
  {
    match ApplyCuti(db.pegawai.Keys, db.cuti, now, req)
    case Err(e) => Err(e)
    case Ok(store) => Ok(db.(cuti := store))
  }

  // ---------------------------------------------------------------------------
  // Every write keeps every leave owned by an existing employee.
  // ---------------------------------------------------------------------------

  lemma ApplyPreservesOwners(db: Database, now: Clock, req: CreateCutiDto)
    requires OwnersExist(db)
    ensures var r := Apply(db, now, req);
            r.Ok? ==> OwnersExist(r.value)
  {
    var r := Apply(db, now, req);
    if r.Ok? {
      assert req.pegawaiEmail in db.pegawai;
      forall c | c in r.value.cuti.records ensures c.pegawaiEmail in r.value.pegawai {
        if c !in db.cuti.records {
          assert c in [NewRecord(db.cuti, req)];
        }
      }
    }
  }

  lemma UpdatePreservesOwners(db: Database, now: Clock, id: int, patch: UpdateCutiDto)
    requires OwnersExist(db) && CutiProperties.UniqueIds(db.cuti.records)
    ensures var r := UpdateCuti(db.cuti, now, id, patch);
            r.Ok? ==> OwnersExist(db.(cuti := r.value.store))
  {
    var r := UpdateCuti(db.cuti, now, id, patch);
    if r.Ok? {
      var i := FindIndex(db.cuti.records, id).value;
      CutiProperties.UpdateFrame(db.cuti, now, i, patch);
      var rs := r.value.store.records;
      forall c | c in rs ensures c.pegawaiEmail in db.pegawai {
        var k :| 0 <= k < |rs| && rs[k] == c;
        assert db.cuti.records[i] in db.cuti.records;
        assert db.cuti.records[k] in db.cuti.records;
      }
    }
  }

  lemma DeleteLeavePreservesOwners(db: Database, now: Clock, id: int)
    requires OwnersExist(db)
    ensures var r := DeleteCuti(db.cuti, now, id);
            r.Ok? ==> OwnersExist(db.(cuti := r.value))
  {
  }

  lemma CreatePegawaiPreservesOwners(db: Database, dto: PegawaiService.CreatePegawaiDto, now: int, fault: DbFault)
    requires OwnersExist(db)
    ensures var r := PegawaiService.Create(db.pegawai, dto, now, fault);
            r.Ok? ==> OwnersExist(db.(pegawai := r.value.directory))
  {
  }

  lemma UpdatePegawaiPreservesOwners(
    db: Database, email: Email, patch: PegawaiService.UpdatePegawaiDto, now: int, fault: DbFault)
    requires OwnersExist(db)
    ensures var r := PegawaiService.Update(db.pegawai, email, patch, now, fault);
            r.Ok? ==> OwnersExist(db.(pegawai := r.value.directory))
  {
  }

  /** Without the cascade, deleting an employee with leaves would orphan them. */
  lemma DeletePegawaiPreservesOwners(db: Database, email: Email, fault: DbFault)
    requires OwnersExist(db)
    ensures var r := DeletePegawai(db, email, fault);
            r.Ok? ==> OwnersExist(r.value)
  {
  }

  /** After the cascade nobody holds leave for the deleted employee, and the lookup refuses it. */
  lemma DeletedPegawaiHasNoLeave(db: Database, email: Email, fault: DbFault)
    ensures var r := DeletePegawai(db, email, fault);
            r.Ok? ==>
              && (forall c :: c in r.value.cuti.records ==> c.pegawaiEmail != email)
              && FindByPegawai(r.value.pegawai.Keys, r.value.cuti, email) == Err(PegawaiNotFound)
  {
  }

  /** The cascade keeps the leave table's own invariants: it only drops rows. */
  lemma DeletePegawaiPreservesLeaveInvariants(db: Database, email: Email, fault: DbFault)
    requires CutiProperties.ValidStore(db.cuti) && CutiProperties.OneLeavePerMonth(db.cuti.records)
    ensures var r := DeletePegawai(db, email, fault);
            r.Ok? ==> CutiProperties.ValidStore(r.value.cuti) && CutiProperties.OneLeavePerMonth(r.value.cuti.records)
  {
    var r := DeletePegawai(db, email, fault);
    if r.Ok? {
      var s := db.cuti.records;
      var p := (c: Cuti) => c.pegawaiEmail != email;
      var distinctIds := (a: Cuti, b: Cuti) => a.id != b.id;
      var distinctMonths := (a: Cuti, b: Cuti) =>
        a.pegawaiEmail == b.pegawaiEmail ==> a.tanggalMulai.month != b.tanggalMulai.month;
      assert Paging.Pairwise(s, distinctIds) by {
        forall i, j | 0 <= i < |s| && 0 <= j < |s| && i != j ensures distinctIds(s[i], s[j]) {
          if i > j {
            assert s[j].id != s[i].id;
          }
        }
      }
      assert Paging.Pairwise(s, distinctMonths);
      Paging.FilterPreservesPairwise(s, p, distinctIds);
      Paging.FilterPreservesPairwise(s, p, distinctMonths);
      var rs := r.value.cuti.records;
      assert rs == Paging.Filter(s, p);
      forall i | 0 <= i < |rs| ensures rs[i].id < db.cuti.nextId && RecordSpan(rs[i]) >= 1 {
        assert rs[i] in s;
        var k :| 0 <= k < |s| && s[k] == rs[i];
      }
    }
  }
}
