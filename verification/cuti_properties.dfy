/**
  Properties of the leave service: the full decision table of each operation,
  the "nothing else changes" frames, the store invariants the operations keep,
  and concrete scenarios that pin down the service's quirks.
*/
module CutiProperties {
  import opened Wrappers
  import opened Calendar
  import Paging
  import opened CutiService

  /** The employee already has a leave starting in month number `month` (of any year). */
  predicate HasLeaveInMonth(records: seq<Cuti>, email: Email, month: int, exclude: Option<int>) {
    exists i :: 0 <= i < |records| && Counted(records[i], email, exclude) && records[i].tanggalMulai.month == month
  }

  /** No two records share an id. */
  predicate UniqueIds(records: seq<Cuti>) {
    forall i, j :: 0 <= i < j < |records| ==> records[i].id != records[j].id
  }

  /** The store's shape: unique ids below the counter, and no record ending before it starts. */
  predicate ValidStore(store: CutiStore) {
    && UniqueIds(store.records)
    && (forall i :: 0 <= i < |store.records| ==> store.records[i].id < store.nextId)
    && (forall i :: 0 <= i < |store.records| ==> RecordSpan(store.records[i]) >= 1)
  }

  /** At most one leave per employee per month number: what the monthly rule enforces. */
  predicate OneLeavePerMonth(records: seq<Cuti>) {
    forall i, j ::
      0 <= i < |records| && 0 <= j < |records| && i != j && records[i].pegawaiEmail == records[j].pegawaiEmail
      ==> records[i].tanggalMulai.month != records[j].tanggalMulai.month
  }

  // ---------------------------------------------------------------------------
  // Helpers about the queries.
  // ---------------------------------------------------------------------------

  lemma MonthQueryNonEmpty(records: seq<Cuti>, email: Email, month: int, exclude: Option<int>)
    ensures |RecordsInMonth(records, email, month, exclude)| > 0 <==> HasLeaveInMonth(records, email, month, exclude)
  {
    var q := RecordsInMonth(records, email, month, exclude);
    if |q| > 0 {
      assert q[0] in q;
    }
    if HasLeaveInMonth(records, email, month, exclude) {
      var i :| 0 <= i < |records| && Counted(records[i], email, exclude) && records[i].tanggalMulai.month == month;
      assert records[i] in records;
      assert records[i] in q;
    }
  }

  /** Appending a record adds its span to a yearly total exactly when the query selects it. */
  lemma YearTotalAfterAppend(records: seq<Cuti>, c: Cuti, email: Email, year: int, exclude: Option<int>)
    ensures DaysInYearTaken(records + [c], email, year, exclude)
         == DaysInYearTaken(records, email, year, exclude)
            + (if Counted(c, email, exclude) && c.tanggalMulai.year == year then RecordSpan(c) else 0)
  {
    var p := InYear(email, year, exclude);
    Paging.FilterAppend(records, c, p);
    var q := RecordsInYear(records, email, year, exclude);
    assert p(c) == (Counted(c, email, exclude) && c.tanggalMulai.year == year);
    if p(c) {
      var q' := q + [c];
      assert RecordsInYear(records + [c], email, year, exclude) == q';
      assert q'[..|q'| - 1] == q;
      assert SumSpans(q') == SumSpans(q) + RecordSpan(c);
    } else {
      assert RecordsInYear(records + [c], email, year, exclude) == q;
    }
  }

  /** With unique ids, deleting by id is deleting the one position holding that id. */
  lemma RemoveIdIsRemoveAt(records: seq<Cuti>, id: int, i: nat)
    requires UniqueIds(records)
    requires i < |records| && records[i].id == id
    ensures RemoveId(records, id) == records[..i] + records[i + 1..]
  {
    var p := (c: Cuti) => c.id != id;
    assert forall k :: 0 <= k < |records| && k != i ==> p(records[k]);
    Paging.FilterDropsOne(records, p, i);
  }

  /** With unique ids, looking a record's id up finds that record's position. */
  lemma FindIndexOfUniqueId(records: seq<Cuti>, i: nat)
    requires UniqueIds(records)
    requires i < |records|
    ensures FindIndex(records, records[i].id) == Some(i)
  {
  }

  // ---------------------------------------------------------------------------
  // "now" and the ongoing test.
  // ---------------------------------------------------------------------------

  /**
    A record is ongoing exactly when today lies between its start and end days,
    except at the very first millisecond of the start day, which the strict
    comparison leaves out.
  */
  lemma OngoingMeansTodayWithinRange(c: Cuti, now: Clock)
    ensures IsOngoing(c, now) <==>
              && DayNumber(c.tanggalMulai) <= DayNumber(now.date) <= DayNumber(c.tanggalSelesai)
              && !(DayNumber(now.date) == DayNumber(c.tanggalMulai) && now.msOfDay == 0)
  {
    var s, d, e := DayNumber(c.tanggalMulai), DayNumber(now.date), DayNumber(c.tanggalSelesai);
    assert InstantMs(now) == d * MsPerDay + now.msOfDay;
    if s < d {
      assert s * MsPerDay + MsPerDay <= d * MsPerDay;
    } else if d < s {
      assert d * MsPerDay + MsPerDay <= s * MsPerDay;
    }
    if d <= e {
      assert d * MsPerDay + MsPerDay <= e * MsPerDay + MsPerDay;
    } else {
      assert e * MsPerDay + MsPerDay <= d * MsPerDay;
    }
  }

  // ---------------------------------------------------------------------------
  // applyCuti
  // ---------------------------------------------------------------------------

  /** The full, ordered decision of `applyCuti`: which reason is reported, and when it succeeds. */
  lemma ApplyDecision(directory: set<Email>, store: CutiStore, now: Clock, req: CreateCutiDto)
    ensures var r := ApplyCuti(directory, store, now, req);
            var email, start, end := req.pegawaiEmail, req.tanggalMulai, req.tanggalSelesai;
            var overYear := DaysInYearTaken(store.records, email, now.date.year, None) + Span(start, end) > YearlyLimit;
            var taken := HasLeaveInMonth(store.records, email, start.month, None);
            && (r == Err(PegawaiNotFound) <==> email !in directory)
            && (r == Err(EndBeforeStart) <==> email in directory && Precedes(end, start))
            && (r == Err(YearlyLimitExceeded) <==> email in directory && !Precedes(end, start) && overYear)
            && (r == Err(MonthlyLimitOnApply) <==> email in directory && !Precedes(end, start) && !overYear && taken)
            && (r.Ok? <==> email in directory && !Precedes(end, start) && !overYear && !taken)
  {
    DayNumberOrder(req.tanggalSelesai, req.tanggalMulai);
    MonthQueryNonEmpty(store.records, req.pegawaiEmail, req.tanggalMulai.month, None);
  }

  /** A successful apply keeps the employee within 12 days for now's year, and other employees' totals unchanged. */
  lemma ApplyKeepsCurrentYearWithinLimit(directory: set<Email>, store: CutiStore, now: Clock, req: CreateCutiDto, other: Email)
    requires ApplyCuti(directory, store, now, req).Ok?
    ensures var s' := ApplyCuti(directory, store, now, req).value;
            DaysInYearTaken(s'.records, req.pegawaiEmail, now.date.year, None) <= YearlyLimit
    ensures var s' := ApplyCuti(directory, store, now, req).value;
            other != req.pegawaiEmail ==>
              forall y :: DaysInYearTaken(s'.records, other, y, None) == DaysInYearTaken(store.records, other, y, None)
  {
    var c := NewRecord(store, req);
    YearTotalAfterAppend(store.records, c, req.pegawaiEmail, now.date.year, None);
    forall y ensures other != req.pegawaiEmail ==>
      DaysInYearTaken(store.records + [c], other, y, None) == DaysInYearTaken(store.records, other, y, None)
    {
      YearTotalAfterAppend(store.records, c, other, y, None);
    }
  }

  lemma ApplyPreservesValidStore(directory: set<Email>, store: CutiStore, now: Clock, req: CreateCutiDto)
    requires ValidStore(store)
    ensures var r := ApplyCuti(directory, store, now, req);
            r.Ok? ==> ValidStore(r.value)
  {
  }

  lemma ApplyPreservesOneLeavePerMonth(directory: set<Email>, store: CutiStore, now: Clock, req: CreateCutiDto)
    requires OneLeavePerMonth(store.records)
    ensures var r := ApplyCuti(directory, store, now, req);
            r.Ok? ==> OneLeavePerMonth(r.value.records)
  {
    ApplyDecision(directory, store, now, req);
    var r := ApplyCuti(directory, store, now, req);
    if r.Ok? {
      var rs := r.value.records;
      var n := |store.records|;
      forall i, j | 0 <= i < |rs| && 0 <= j < |rs| && i != j && rs[i].pegawaiEmail == rs[j].pegawaiEmail
        ensures rs[i].tanggalMulai.month != rs[j].tanggalMulai.month
      {
        if i == n {
          assert !(Counted(store.records[j], req.pegawaiEmail, None) && store.records[j].tanggalMulai.month == req.tanggalMulai.month);
        } else if j == n {
          assert !(Counted(store.records[i], req.pegawaiEmail, None) && store.records[i].tanggalMulai.month == req.tanggalMulai.month);
        }
      }
    }
  }

  // ---------------------------------------------------------------------------
  // updateCuti
  // ---------------------------------------------------------------------------

  /** An ongoing record is refused before any field of the patch is looked at. */
  lemma UpdateOngoingRejected(store: CutiStore, now: Clock, i: nat, patch: UpdateCutiDto)
    requires UniqueIds(store.records)
    requires i < |store.records| && IsOngoing(store.records[i], now)
    ensures UpdateCuti(store, now, store.records[i].id, patch) == Err(OngoingCannotBeUpdated)
  {
    FindIndexOfUniqueId(store.records, i);
  }

  /** The full, ordered decision of `updateCuti` for the record at position `i`. */
  lemma UpdateDecision(store: CutiStore, now: Clock, i: nat, patch: UpdateCutiDto)
    requires UniqueIds(store.records)
    requires i < |store.records|
    ensures var c := store.records[i];
            var id := c.id;
            var r := UpdateCuti(store, now, id, patch);
            var m := Merge(c, patch);
            var overYear := DaysInYearTaken(store.records, c.pegawaiEmail, now.date.year, Some(id))
                              + Span(m.tanggalMulai, m.tanggalSelesai) > YearlyLimit;
            var taken := HasLeaveInMonth(store.records, c.pegawaiEmail, m.tanggalMulai.month, Some(id));
            && (r == Err(OngoingCannotBeUpdated) <==> IsOngoing(c, now))
            && (r == Err(EndBeforeStart) <==> !IsOngoing(c, now) && Precedes(m.tanggalSelesai, m.tanggalMulai))
            && (r == Err(YearlyLimitExceeded) <==>
                  !IsOngoing(c, now) && !Precedes(m.tanggalSelesai, m.tanggalMulai) && overYear)
            && (r == Err(MonthlyLimitOnUpdate) <==>
                  !IsOngoing(c, now) && !Precedes(m.tanggalSelesai, m.tanggalMulai) && !overYear && taken)
            && (r.Ok? <==> !IsOngoing(c, now) && !Precedes(m.tanggalSelesai, m.tanggalMulai) && !overYear && !taken)
  {
    var c := store.records[i];
    FindIndexOfUniqueId(store.records, i);
    var m := Merge(c, patch);
    DayNumberOrder(m.tanggalSelesai, m.tanggalMulai);
    MonthQueryNonEmpty(store.records, c.pegawaiEmail, m.tanggalMulai.month, Some(c.id));
  }

  /**
    What a successful update writes: the record at position `i` becomes the merged
    record (same id, same owner, unsupplied fields kept), every other row is unchanged.
  */
  lemma UpdateFrame(store: CutiStore, now: Clock, i: nat, patch: UpdateCutiDto)
    requires UniqueIds(store.records)
    requires i < |store.records|
    ensures var c := store.records[i];
            var r := UpdateCuti(store, now, c.id, patch);
            r.Ok? ==>
              && r.value.store.records == store.records[i := r.value.data]
              && r.value.data.id == c.id
              && r.value.data.pegawaiEmail == c.pegawaiEmail
              && r.value.data.tanggalMulai == (if patch.tanggalMulai.Some? then patch.tanggalMulai.value else c.tanggalMulai)
              && r.value.data.tanggalSelesai == (if patch.tanggalSelesai.Some? then patch.tanggalSelesai.value else c.tanggalSelesai)
              && ((patch.alasan.None? || patch.alasan.value == "") ==> r.value.data.alasan == c.alasan)
              && (patch.alasan.Some? && patch.alasan.value != "" ==> r.value.data.alasan == patch.alasan.value)
  {
    var c := store.records[i];
    FindIndexOfUniqueId(store.records, i);
  }

  /** Applying the same patch twice changes nothing more, and a patch with no field supplied changes nothing. */
  lemma MergeIdempotent(c: Cuti, patch: UpdateCutiDto, email: Option<Email>)
    ensures Merge(Merge(c, patch), patch) == Merge(c, patch)
    ensures Merge(c, UpdateCutiDto(None, None, None, email)) == c
    ensures Merge(c, UpdateCutiDto(Some(""), None, None, email)) == c
  {
  }

  /**
    On a store that keeps its invariants, an empty patch on a record that is not
    ongoing passes the end-date and monthly checks: its own row is excluded.
  */
  lemma EmptyPatchPassesMonthlyCheck(store: CutiStore, now: Clock, i: nat)
    requires ValidStore(store) && OneLeavePerMonth(store.records)
    requires i < |store.records| && !IsOngoing(store.records[i], now)
    ensures var r := UpdateCuti(store, now, store.records[i].id, UpdateCutiDto(None, None, None, None));
            r != Err(MonthlyLimitOnUpdate) && r != Err(EndBeforeStart)
  {
    var c := store.records[i];
    var empty := UpdateCutiDto(None, None, None, None);
    UpdateDecision(store, now, i, empty);
    assert Merge(c, empty) == c;
    DayNumberOrder(c.tanggalSelesai, c.tanggalMulai);
  }

  lemma UpdatePreservesValidStore(store: CutiStore, now: Clock, id: int, patch: UpdateCutiDto)
    requires ValidStore(store)
    ensures var r := UpdateCuti(store, now, id, patch);
            r.Ok? ==> ValidStore(r.value.store)
  {
    var r := UpdateCuti(store, now, id, patch);
    if r.Ok? {
      var i := FindIndex(store.records, id).value;
      UpdateFrame(store, now, i, patch);
      UpdateDecision(store, now, i, patch);
      DayNumberOrder(r.value.data.tanggalSelesai, r.value.data.tanggalMulai);
    }
  }

  lemma UpdatePreservesOneLeavePerMonth(store: CutiStore, now: Clock, id: int, patch: UpdateCutiDto)
    requires UniqueIds(store.records) && OneLeavePerMonth(store.records)
    ensures var r := UpdateCuti(store, now, id, patch);
            r.Ok? ==> OneLeavePerMonth(r.value.store.records)
  {
    var r := UpdateCuti(store, now, id, patch);
    if r.Ok? {
      var i := FindIndex(store.records, id).value;
      UpdateFrame(store, now, i, patch);
      UpdateDecision(store, now, i, patch);
      var rs := r.value.store.records;
      var m := r.value.data;
      forall a, b | 0 <= a < |rs| && 0 <= b < |rs| && a != b && rs[a].pegawaiEmail == rs[b].pegawaiEmail
        ensures rs[a].tanggalMulai.month != rs[b].tanggalMulai.month
      {
        if a == i {
          assert store.records[b].id != id by {
            if b < i { assert store.records[b].id != store.records[i].id; }
            else { assert store.records[i].id != store.records[b].id; }
          }
          assert !(Counted(store.records[b], m.pegawaiEmail, Some(id)) && store.records[b].tanggalMulai.month == m.tanggalMulai.month);
        } else if b == i {
          assert store.records[a].id != id by {
            if a < i { assert store.records[a].id != store.records[i].id; }
            else { assert store.records[i].id != store.records[a].id; }
          }
          assert !(Counted(store.records[a], m.pegawaiEmail, Some(id)) && store.records[a].tanggalMulai.month == m.tanggalMulai.month);
        }
      }
    }
  }

  // ---------------------------------------------------------------------------
  // deleteCuti
  // ---------------------------------------------------------------------------

  /** The ordered decision of `deleteCuti`, and on success it removes exactly that one row. */
  lemma DeleteDecision(store: CutiStore, now: Clock, i: nat)
    requires UniqueIds(store.records)
    requires i < |store.records|
    ensures var c := store.records[i];
            var r := DeleteCuti(store, now, c.id);
            && (r == Err(OngoingCannotBeDeleted) <==> IsOngoing(c, now))
            && (r.Ok? <==> !IsOngoing(c, now))
            && (r.Ok? ==> r.value.records == store.records[..i] + store.records[i + 1..])
            && (r.Ok? ==> |r.value.records| == |store.records| - 1)
  {
    var c := store.records[i];
    FindIndexOfUniqueId(store.records, i);
    RemoveIdIsRemoveAt(store.records, c.id, i);
  }

  /** Removing one position keeps ids unique, below the counter, and spans positive. */
  lemma RemoveAtPreservesValidStore(store: CutiStore, i: nat)
    requires ValidStore(store) && i < |store.records|
    ensures ValidStore(store.(records := store.records[..i] + store.records[i + 1..]))
  {
    var s := store.records;
    var rs := s[..i] + s[i + 1..];
    assert forall k :: 0 <= k < |rs| ==> rs[k] == s[if k < i then k else k + 1];
    forall a, b | 0 <= a < b < |rs| ensures rs[a].id != rs[b].id {
      var a', b' := if a < i then a else a + 1, if b < i then b else b + 1;
      assert rs[a] == s[a'] && rs[b] == s[b'] && a' < b';
    }
  }

  lemma DeletePreservesValidStore(store: CutiStore, now: Clock, id: int)
    requires ValidStore(store)
    ensures var r := DeleteCuti(store, now, id);
            r.Ok? ==> ValidStore(r.value)
  {
    var r := DeleteCuti(store, now, id);
    if r.Ok? {
      var i := FindIndex(store.records, id).value;
      RemoveIdIsRemoveAt(store.records, id, i);
      RemoveAtPreservesValidStore(store, i);
    }
  }

  lemma DeletePreservesOneLeavePerMonth(store: CutiStore, now: Clock, id: int)
    requires UniqueIds(store.records) && OneLeavePerMonth(store.records)
    ensures var r := DeleteCuti(store, now, id);
            r.Ok? ==> OneLeavePerMonth(r.value.records)
  {
    var r := DeleteCuti(store, now, id);
    if r.Ok? {
      var i := FindIndex(store.records, id).value;
      DeleteDecision(store, now, i);
      var rs := r.value.records;
      forall a, b | 0 <= a < |rs| && 0 <= b < |rs| && a != b && rs[a].pegawaiEmail == rs[b].pegawaiEmail
        ensures rs[a].tanggalMulai.month != rs[b].tanggalMulai.month
      {
        var a', b' := if a < i then a else a + 1, if b < i then b else b + 1;
        assert rs[a] == store.records[a'] && rs[b] == store.records[b'];
      }
    }
  }

  // ---------------------------------------------------------------------------
  // Writes seen through the per-employee listing.
  // ---------------------------------------------------------------------------

  /** After a successful apply the employee's listing shows the new record and no "no leave" message. */
  lemma ApplyThenListed(directory: set<Email>, store: CutiStore, now: Clock, req: CreateCutiDto)
    requires ApplyCuti(directory, store, now, req).Ok?
    ensures var l := FindByPegawai(directory, ApplyCuti(directory, store, now, req).value, req.pegawaiEmail);
            && l.Ok?
            && NewRecord(store, req) in l.value.data
            && l.value.message.None?
  {
    var s' := ApplyCuti(directory, store, now, req).value;
    assert s'.records[|store.records|] == NewRecord(store, req);
  }

  /** After a successful delete no listing shows a record with that id; every other record of the owner stays listed. */
  lemma DeleteThenNotListed(directory: set<Email>, store: CutiStore, now: Clock, id: int, email: Email)
    requires DeleteCuti(store, now, id).Ok? && email in directory
    ensures var l := FindByPegawai(directory, DeleteCuti(store, now, id).value, email);
            && l.Ok?
            && (forall c :: c in l.value.data ==> c.id != id)
            && (forall c :: c in store.records && c.pegawaiEmail == email && c.id != id ==> c in l.value.data)
  {
  }

  // ---------------------------------------------------------------------------
  // Reading the whole table page by page.
  // ---------------------------------------------------------------------------

  /** Page k of the all-records listing with a fixed page size, as a client requests it. */
  function ListingPages(store: CutiStore, limit: int): int -> seq<Cuti>
    requires 1 <= limit
  {
    k => if k >= 1 then FindAll(store, Some(k), Some(limit)).data else []
  }

  /** The rows of page `page` are that page of the records sorted latest start first. */
  lemma FindAllPage(store: CutiStore, page: int, limit: int)
    requires 1 <= page && 1 <= limit
    ensures FindAll(store, Some(page), Some(limit)).data
            == Paging.Paginate(Paging.SortDesc(store.records, StartKey), page, limit)
  {
  }

  /**
    A page of the listing is the skip-and-take of some ordering of all the
    records, latest start first: which rows a page holds is fixed up to the
    order of records that start on the same day.
  */
  lemma FindAllIsPageOfSortedRecords(store: CutiStore, page: Option<int>, limit: Option<int>)
    requires page.Some? ==> page.value >= 1
    requires limit.Some? ==> limit.value >= 1
    ensures var r := FindAll(store, page, limit);
            exists s :: && multiset(s) == multiset(store.records) && Paging.SortedDesc(s, StartKey)
                        && r.data == Paging.Paginate(s, r.page, r.limit)
  {
    var r := FindAll(store, page, limit);
    var sorted := Paging.SortDesc(store.records, StartKey);
    FindAllPage(store, r.page, r.limit);
    assert multiset(sorted) == multiset(store.records) && Paging.SortedDesc(sorted, StartKey);
  }

  /**
    Reading pages 1, 2, ... in turn lists every record exactly once: n full pages
    while records remain, and all of the records, none repeated, once n pages cover them.
  */
  lemma PagesListEveryRecord(store: CutiStore, n: nat, limit: int)
    requires 1 <= limit
    ensures n * limit <= |store.records| ==> |Paging.ReadPages(ListingPages(store, limit), n)| == n * limit
    ensures n * limit >= |store.records| ==> multiset(Paging.ReadPages(ListingPages(store, limit), n)) == multiset(store.records)
  {
    var sorted := Paging.SortDesc(store.records, StartKey);
    var pages := ListingPages(store, limit);
    forall k | 1 <= k <= n ensures pages(k) == Paging.Paginate(sorted, k, limit) {
      FindAllPage(store, k, limit);
    }
    Paging.ReadAllPages(pages, sorted, n, limit);
    assert |sorted| == |store.records| by {
      assert |multiset(sorted)| == |multiset(store.records)|;
    }
  }

  // ---------------------------------------------------------------------------
  // Concrete scenarios.
  // ---------------------------------------------------------------------------

  const Email1: Email := "pegawai@example.com"

  function D(y: int, m: int, d: int): Date
    requires CivilDate(y, m, d).IsValid()
  {
    CivilDate(y, m, d)
  }

  /** Noon on 2025-06-15. */
  function Noon2025(): Clock {
    Moment(D(2025, 6, 15), 43_200_000)
  }

  /** With no history, a five-day request succeeds: no per-request cap exists. */
  lemma FiveDayRequestAccepted()
    ensures ApplyCuti({Email1}, CutiStore([], 1), Noon2025(),
                      CreateCutiDto("Family event", D(2025, 1, 1), D(2025, 1, 5), Email1)).Ok?
  {
    assert DayNumber(D(2025, 1, 5)) - DayNumber(D(2025, 1, 1)) == 4;
  }

  /** Twelve days fit the yearly limit exactly; thirteen do not. */
  lemma TwelveDaysIsTheYearlyLimit()
    ensures ApplyCuti({Email1}, CutiStore([], 1), Noon2025(),
                      CreateCutiDto("Trip", D(2025, 1, 1), D(2025, 1, 12), Email1)).Ok?
    ensures ApplyCuti({Email1}, CutiStore([], 1), Noon2025(),
                      CreateCutiDto("Trip", D(2025, 1, 1), D(2025, 1, 13), Email1)) == Err(YearlyLimitExceeded)
  {
    assert DayNumber(D(2025, 1, 12)) - DayNumber(D(2025, 1, 1)) == 11;
    assert DayNumber(D(2025, 1, 13)) - DayNumber(D(2025, 1, 1)) == 12;
  }

  /**
    The yearly window is the year of "now": twelve days already booked for 2026
    do not stop a further 2026 request made during 2025.
  */
  lemma YearlyWindowFollowsNow()
    ensures var booked := Cuti(1, "Trip", D(2026, 1, 1), D(2026, 1, 12), Email1);
            var r := ApplyCuti({Email1}, CutiStore([booked], 2), Noon2025(),
                               CreateCutiDto("More", D(2026, 2, 2), D(2026, 2, 2), Email1));
            r.Ok? && DaysInYearTaken(r.value.records, Email1, 2026, None) == 13
  {
    var booked := Cuti(1, "Trip", D(2026, 1, 1), D(2026, 1, 12), Email1);
    var store := CutiStore([booked], 2);
    var req := CreateCutiDto("More", D(2026, 2, 2), D(2026, 2, 2), Email1);
    assert RecordsInYear([booked], Email1, 2025, None) == [];
    assert RecordsInMonth([booked], Email1, 2, None) == [];
    assert DayNumber(D(2026, 1, 12)) - DayNumber(D(2026, 1, 1)) == 11;
    YearTotalAfterAppend([booked], NewRecord(store, req), Email1, 2026, None);
    assert RecordsInYear([booked], Email1, 2026, None) == [booked];
  }

  /** The monthly rule compares month numbers only: a February 2024 leave blocks February 2025. */
  lemma MonthlyRuleIgnoresYear()
    ensures var prior := Cuti(1, "Sick", D(2024, 2, 10), D(2024, 2, 10), Email1);
            ApplyCuti({Email1}, CutiStore([prior], 2), Noon2025(),
                      CreateCutiDto("Event", D(2025, 2, 1), D(2025, 2, 1), Email1)) == Err(MonthlyLimitOnApply)
  {
    var prior := Cuti(1, "Sick", D(2024, 2, 10), D(2024, 2, 10), Email1);
    assert RecordsInYear([prior], Email1, 2025, None) == [];
    assert RecordsInMonth([prior], Email1, 2, None) == [prior];
  }

  /** A second leave in the same month is refused (1 February, then 15 February). */
  lemma SecondLeaveInMonthRefused()
    ensures var first := ApplyCuti({Email1}, CutiStore([], 1), Noon2025(),
                                   CreateCutiDto("Event 1", D(2025, 2, 1), D(2025, 2, 1), Email1));
            && first.Ok?
            && ApplyCuti({Email1}, first.value, Noon2025(),
                         CreateCutiDto("Event 2", D(2025, 2, 15), D(2025, 2, 15), Email1)) == Err(MonthlyLimitOnApply)
  {
    var c := Cuti(1, "Event 1", D(2025, 2, 1), D(2025, 2, 1), Email1);
    assert RecordsInYear([c], Email1, 2025, None) == [c];
    assert [c][..0] == [];
    assert RecordsInMonth([c], Email1, 2, None) == [c];
  }

  /** A store with one record lists it on page 1 of size 10, which is also the default page. */
  lemma FindAllOneRecord(c: Cuti, next: nat)
    ensures FindAll(CutiStore([c], next), Some(1), Some(10)) == Paging.PageOf([c], 1, 1, 10)
    ensures FindAll(CutiStore([c], next), None, None) == Paging.PageOf([c], 1, 1, 10)
  {
    assert Paging.SortDesc([c], StartKey) == [c];
  }

  /** A negative id, which the route's integer parsing lets through, matches no record. */
  lemma NegativeIdNotFound(store: CutiStore, now: Clock, id: int, patch: UpdateCutiDto)
    requires id < 0
    ensures UpdateCuti(store, now, id, patch) == Err(CutiNotFound)
    ensures DeleteCuti(store, now, id) == Err(CutiNotFound)
  {
  }

  /** A leave is not ongoing at the first instant of its start day, but is one millisecond later. */
  lemma OngoingStartsAfterMidnight()
    ensures var c := Cuti(1, "Event", D(2025, 6, 15), D(2025, 6, 15), Email1);
            && !IsOngoing(c, Moment(D(2025, 6, 15), 0))
            && IsOngoing(c, Moment(D(2025, 6, 15), 1))
            && IsOngoing(c, Moment(D(2025, 6, 15), MsPerDay - 1))
            && !IsOngoing(c, Moment(D(2025, 6, 16), 0))
  {
  }
}
