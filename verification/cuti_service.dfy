/**
  The leave ("cuti") service: apply for, update, delete and list leave records.

  The database is an in-memory `CutiStore`; the employee ("pegawai") directory
  is the set of registered emails; the current instant is the `now` parameter.
  Every operation is a pure function returning `Ok` with the new store (or the
  listed rows) or `Err` with the service's BadRequest reason.

  The rules are the ones the service applies, in its order:
    1. the employee must exist (apply) / the record must exist (update, delete);
    2. a record that is ongoing now may not be updated or deleted;
    3. the end date may not lie before the start date;
    4. the employee's days in the CURRENT calendar year (the year of `now`,
       whatever year the request is for), plus the requested days, may not
       exceed 12;
    5. the employee may not already have a leave starting in the same month
       number, in any year.
  There is no per-request span cap and no overlap check.
*/
module CutiService {
  import opened Wrappers
  import opened Calendar
  import Paging

  type Email = string

  /** Most leave days an employee may hold in the current calendar year. */
  const YearlyLimit: int := 12

  /** A stored leave record; `pegawaiEmail` names its owning employee. */
  datatype Cuti = Cuti(
    id: nat,
    alasan: string,
    tanggalMulai: Date,
    tanggalSelesai: Date,
    pegawaiEmail: Email)

  /** The leave table and its auto-increment counter for the next id. */
  datatype CutiStore = CutiStore(records: seq<Cuti>, nextId: nat)

  datatype CreateCutiDto = CreateCutiDto(
    alasan: string,
    tanggalMulai: Date,
    tanggalSelesai: Date,
    pegawaiEmail: Email)

  /** Every field optional; a supplied `pegawaiEmail` is accepted but never used. */
  datatype UpdateCutiDto = UpdateCutiDto(
    alasan: Option<string>,
    tanggalMulai: Option<Date>,
    tanggalSelesai: Option<Date>,
    pegawaiEmail: Option<Email>)

  /** The distinct reasons the service throws; every one is a BadRequest, existence failures included. */
  datatype CutiError =
    | PegawaiNotFound
    | CutiNotFound
    | OngoingCannotBeUpdated
    | OngoingCannotBeDeleted
    | EndBeforeStart
    | YearlyLimitExceeded
    | MonthlyLimitOnApply
    | MonthlyLimitOnUpdate

  function Message(e: CutiError): string {
    match e
    case PegawaiNotFound => "Pegawai not found"
    case CutiNotFound => "Cuti not found"
    case OngoingCannotBeUpdated => "Cuti cannot be updated while it is ongoing"
    case OngoingCannotBeDeleted => "Cuti cannot be deleted while it is ongoing"
    case EndBeforeStart => "End date cannot be before start date"
    case YearlyLimitExceeded => "Pegawai exceeded yearly leave limit of 12 days"
    case MonthlyLimitOnApply => "Pegawai can only take 1 day leave per month"
    case MonthlyLimitOnUpdate => "Pegawai can only take 1 leave per month"
  }

  /** The `isBefore` test on the midnight instants of two dates. */
  predicate IsBefore(a: Date, b: Date) {
    MidnightMs(a) < MidnightMs(b)
  }

  /** Inclusive day count: the whole days from start to end, plus one. */
  function Span(start: Date, end: Date): int {
    DayNumber(end) - DayNumber(start) + 1
  }

  function RecordSpan(c: Cuti): int {
    Span(c.tanggalMulai, c.tanggalSelesai)
  }

  /**
    Ongoing: now is strictly after the start's midnight and strictly before the
    midnight that follows the end date.
  */
  predicate IsOngoing(c: Cuti, now: Clock)
    ensures IsOngoing(c, now) ==>
              DayNumber(c.tanggalMulai) <= DayNumber(now.date) <= DayNumber(c.tanggalSelesai)
  {
    MidnightsBoundDay(now, c.tanggalMulai, c.tanggalSelesai);
    MidnightMs(c.tanggalMulai) < InstantMs(now) < MidnightMs(c.tanggalSelesai) + MsPerDay
  }

  /** The employee's records a quota query looks at: owned by `email`, minus the record being updated. */
  predicate Counted(c: Cuti, email: Email, exclude: Option<int>) {
    c.pegawaiEmail == email && (exclude.None? || c.id != exclude.value)
  }

  /**
    The yearly query: the employee's counted records whose start date lies between
    the first and the last instant of `year`. Stored start dates are midnights, so
    that is the same as starting in `year`.
  */
  function InYear(email: Email, year: int, exclude: Option<int>): Cuti -> bool {
    (c: Cuti) => Counted(c, email, exclude) && c.tanggalMulai.year == year
  }

  /** The monthly query: the employee's counted records that start in month number `month`, of any year. */
  function InMonth(email: Email, month: int, exclude: Option<int>): Cuti -> bool {
    (c: Cuti) => Counted(c, email, exclude) && c.tanggalMulai.month == month
  }

  function RecordsInYear(records: seq<Cuti>, email: Email, year: int, exclude: Option<int>): seq<Cuti> {
    Paging.Filter(records, InYear(email, year, exclude))
  }

  function RecordsInMonth(records: seq<Cuti>, email: Email, month: int, exclude: Option<int>): seq<Cuti> {
    Paging.Filter(records, InMonth(email, month, exclude))
  }

  /** The `reduce` that adds up the inclusive spans of fetched records. */
  function SumSpans(cs: seq<Cuti>): int {
    if cs == [] then 0 else SumSpans(cs[..|cs| - 1]) + RecordSpan(cs[|cs| - 1])
  }

  /** Days the employee holds in `year`, as the yearly query and reduce compute them. */
  function DaysInYearTaken(records: seq<Cuti>, email: Email, year: int, exclude: Option<int>): int {
    SumSpans(RecordsInYear(records, email, year, exclude))
  }

  /** Position of the record with primary key `id`, if any: the lookup by id. */
  function FindIndex(records: seq<Cuti>, id: int): (r: Option<nat>)
    ensures r.None? <==> forall i :: 0 <= i < |records| ==> records[i].id != id
    ensures r.Some? ==> r.value < |records| && records[r.value].id == id
    ensures r.Some? ==> forall i :: 0 <= i < r.value ==> records[i].id != id
  {
    if records == [] then None
    else if records[0].id == id then Some(0)
    else
      match FindIndex(records[1..], id)
      case None => None
      case Some(k) => Some(k + 1)
  }

  /** The leave record `ApplyCuti` stores for a request, with the next auto-increment id. */
  function NewRecord(store: CutiStore, req: CreateCutiDto): Cuti {
    Cuti(store.nextId, req.alasan, req.tanggalMulai, req.tanggalSelesai, req.pegawaiEmail)
  }

  /** `applyCuti`: creates a leave record when every rule passes. */
  function ApplyCuti(directory: set<Email>, store: CutiStore, now: Clock, req: CreateCutiDto)
    : (r: Result<CutiStore, CutiError>)
    ensures r == Err(PegawaiNotFound) <==> req.pegawaiEmail !in directory
    ensures r == Err(EndBeforeStart) <==>
              req.pegawaiEmail in directory && Precedes(req.tanggalSelesai, req.tanggalMulai)
    ensures r.Ok? ==> r.value == CutiStore(store.records + [NewRecord(store, req)], store.nextId + 1)
    ensures r.Ok? ==>
              var c := r.value.records[|store.records|];
              && c.id == store.nextId && c.alasan == req.alasan && c.pegawaiEmail == req.pegawaiEmail
              && c.tanggalMulai == req.tanggalMulai && c.tanggalSelesai == req.tanggalSelesai
    ensures r.Ok? ==> Span(req.tanggalMulai, req.tanggalSelesai) >= 1
  {
    DayNumberOrder(req.tanggalSelesai, req.tanggalMulai);
    var email := req.pegawaiEmail;
    var start := req.tanggalMulai;
    var end := req.tanggalSelesai;
    if email !in directory then Err(PegawaiNotFound)
    else if IsBefore(end, start) then Err(EndBeforeStart)
    else if DaysInYearTaken(store.records, email, now.date.year, None) + Span(start, end) > YearlyLimit then
      Err(YearlyLimitExceeded)
    else if |RecordsInMonth(store.records, email, start.month, None)| > 0 then Err(MonthlyLimitOnApply)
    else Ok(CutiStore(store.records + [NewRecord(store, req)], store.nextId + 1))
  }

  /** What `updateCuti` returns on success: the new store and the record as saved. */
  datatype Updated = Updated(store: CutiStore, data: Cuti)

  /** The record after merging a patch: present dates replace, a non-empty reason replaces. */
  function Merge(c: Cuti, patch: UpdateCutiDto): (r: Cuti)
    ensures r.id == c.id && r.pegawaiEmail == c.pegawaiEmail
    ensures patch.tanggalMulai.Some? ==> r.tanggalMulai == patch.tanggalMulai.value
    ensures patch.tanggalMulai.None? ==> r.tanggalMulai == c.tanggalMulai
    ensures patch.tanggalSelesai.Some? ==> r.tanggalSelesai == patch.tanggalSelesai.value
    ensures patch.tanggalSelesai.None? ==> r.tanggalSelesai == c.tanggalSelesai
    ensures (patch.alasan.None? || patch.alasan.value == "") ==> r.alasan == c.alasan
    ensures patch.alasan.Some? && patch.alasan.value != "" ==> r.alasan == patch.alasan.value
  {
    c.(tanggalMulai := patch.tanggalMulai.GetOr(c.tanggalMulai),
       tanggalSelesai := patch.tanggalSelesai.GetOr(c.tanggalSelesai),
       alasan := if patch.alasan.Some? && patch.alasan.value != "" then patch.alasan.value else c.alasan)
  }

  /** `updateCuti`: re-validates the merged dates against the employee's other records. */
  function UpdateCuti(store: CutiStore, now: Clock, id: int, patch: UpdateCutiDto)
    : (r: Result<Updated, CutiError>)
    ensures r == Err(CutiNotFound) <==> forall i :: 0 <= i < |store.records| ==> store.records[i].id != id
    ensures r.Ok? ==> r.value.data.id == id && |r.value.store.records| == |store.records|
    ensures r.Ok? ==> r.value.store.nextId == store.nextId
  {
    match FindIndex(store.records, id)
    case None => Err(CutiNotFound)
    case Some(i) =>
      var c := store.records[i];
      if IsOngoing(c, now) then Err(OngoingCannotBeUpdated)
      else
        var c' := Merge(c, patch);
        var start, end := c'.tanggalMulai, c'.tanggalSelesai;
        var email := c.pegawaiEmail;
        if IsBefore(end, start) then Err(EndBeforeStart)
        else if DaysInYearTaken(store.records, email, now.date.year, Some(id)) + Span(start, end) > YearlyLimit then
          Err(YearlyLimitExceeded)
        else if |RecordsInMonth(store.records, email, start.month, Some(id))| > 0 then Err(MonthlyLimitOnUpdate)
        else Ok(Updated(store.(records := store.records[i := c']), c'))
  }

  /** The table without the row whose primary key is `id`. */
  function RemoveId(records: seq<Cuti>, id: int): (r: seq<Cuti>)
    ensures forall c :: c in r <==> c in records && c.id != id
  {
    Paging.Filter(records, (c: Cuti) => c.id != id)
  }

  /** `deleteCuti`: removes a record that exists and is not ongoing. */
  function DeleteCuti(store: CutiStore, now: Clock, id: int): (r: Result<CutiStore, CutiError>)
    ensures r == Err(CutiNotFound) <==> forall i :: 0 <= i < |store.records| ==> store.records[i].id != id
    ensures r.Ok? ==> forall c :: c in r.value.records <==> c in store.records && c.id != id
    ensures r.Ok? ==> r.value.nextId == store.nextId
  {
    match FindIndex(store.records, id)
    case None => Err(CutiNotFound)
    case Some(i) =>
      if IsOngoing(store.records[i], now) then Err(OngoingCannotBeDeleted)
      else Ok(store.(records := RemoveId(store.records, id)))
  }

  /** What `findByPegawai` returns: the rows, and a message when there are none. */
  datatype PegawaiLeaves = PegawaiLeaves(message: Option<string>, data: seq<Cuti>)

  const NoLeaveMessage: string := "No leave data found for this pegawai"

  function StartKey(c: Cuti): int {
    DayNumber(c.tanggalMulai)
  }

  /** `findByPegawai`: the employee's records, latest start date first. */
  function FindByPegawai(directory: set<Email>, store: CutiStore, email: Email)
    : (r: Result<PegawaiLeaves, CutiError>)
    ensures r == Err(PegawaiNotFound) <==> email !in directory
    ensures r.Ok? ==> Paging.SortedDesc(r.value.data, StartKey)
    ensures r.Ok? ==> forall c :: c in r.value.data <==> c in store.records && c.pegawaiEmail == email
    ensures r.Ok? ==> multiset(r.value.data) == multiset(Paging.Filter(store.records, (c: Cuti) => c.pegawaiEmail == email))
    ensures r.Ok? ==> (r.value.message == Some(NoLeaveMessage) <==> r.value.data == [])
  {
    if email !in directory then Err(PegawaiNotFound)
    else
      var owned := Paging.Filter(store.records, (c: Cuti) => c.pegawaiEmail == email);
      var data := Paging.SortDesc(owned, StartKey);
      assert forall c :: c in data <==> c in owned by {
        forall c ensures c in data <==> c in owned {
          assert c in data <==> c in multiset(data);
          assert c in owned <==> c in multiset(owned);
        }
      }
      if data == [] then Ok(PegawaiLeaves(Some(NoLeaveMessage), []))
      else Ok(PegawaiLeaves(None, data))
  }

  /** `findAll`: one page of all records, latest start date first, with the total count. */
  function FindAll(store: CutiStore, page: Option<int>, limit: Option<int>): (r: Paging.PageOf<Cuti>)
    requires page.Some? ==> page.value >= 1
    requires limit.Some? ==> limit.value >= 1
    ensures r.page == page.GetOr(Paging.DefaultPage) && r.limit == limit.GetOr(Paging.DefaultLimit)
    ensures r.total == |store.records|
    ensures |r.data| <= r.limit
    ensures Paging.SortedDesc(r.data, StartKey)
    ensures forall c :: c in r.data ==> c in store.records
    ensures |r.data| == if Paging.Offset(r.page, r.limit) >= |store.records| then 0
                        else if Paging.Offset(r.page, r.limit) + r.limit <= |store.records| then r.limit
                        else |store.records| - Paging.Offset(r.page, r.limit)
  {
    var p := page.GetOr(Paging.DefaultPage);
    var l := limit.GetOr(Paging.DefaultLimit);
    var sorted := Paging.SortDesc(store.records, StartKey);
    var data := Paging.Paginate(sorted, p, l);
    Paging.PageOfSortedIsSorted(sorted, p, l, StartKey);
    Paging.PageOfSortComesFrom(store.records, StartKey, p, l);
    Paging.PageOf(data, |store.records|, p, l)
  }
}
