/** The read side of the flat-file store: listing, the ledger/category join,
    totals and the per-area summary. Each query reads the current documents,
    so here each takes the record lists it reads. */
module Queries {
  import opened Seqs
  import opened Records
  import opened WorkersJson

  // ==================== listing ====================

  /** `obtener_trabajadores(area, estatus)`: the records with that status,
      narrowed to an exact area match when `area` is truthy, in storage
      order (no sorting). */
  function ListWorkers(rows: seq<Worker>, area: Option<string>, status: string): (r: seq<Worker>)
    ensures forall w :: w in r <==> w in rows && w.status == status && (Truthy(area) ==> w.area == area.value)
    ensures Subseq(r, rows)
  {
    var byStatus := Filter(rows, (w: Worker) => w.status == status);
    if Truthy(area) then
      var byArea := Filter(byStatus, (w: Worker) => w.area == area.value);
      SubseqTrans(byArea, byStatus, rows);
      byArea
    else
      byStatus
  }

  /** `obtener_rubros(activos_solo)`. */
  function ListCategories(rows: seq<Category>, activeOnly: bool): (r: seq<Category>)
    ensures forall c :: c in r <==> c in rows && (activeOnly ==> c.active)
    ensures Subseq(r, rows)
  {
    if activeOnly then Filter(rows, (c: Category) => c.active)
    else
      SubseqRefl(rows);
      rows
  }

  // ==================== the ledger join ====================

  /** One row of `obtener_horas_trabajador`: keys id, rubro, horas, año. */
  datatype WorkerHours = WorkerHours(id: int, category: string, hours: real, year: int)

  /** `next((r for r in rubros if r['id'] == id), None)`; any category
      resolves, active or not. */
  function FindCategory(cats: seq<Category>, id: int): (r: Option<Category>)
    ensures r.None? <==> forall c :: c in cats ==> c.id != id
    ensures r.Some? ==> r.value in cats && r.value.id == id
    ensures r.Some? ==> exists k :: 0 <= k < |cats| && r.value == cats[k] && forall j :: 0 <= j < k ==> cats[j].id != id
  {
    var i := IndexOfKey(cats, CategoryId, id);
    if i < 0 then None else Some(cats[i])
  }

  /** A ledger row with the name of the category it resolves to. */
  function JoinRow(h: HourRow, cats: seq<Category>): WorkerHours
  {
    match FindCategory(cats, h.categoryId)
    case Some(c) => WorkerHours(h.id, c.name, h.hours, h.year)
    case None => WorkerHours(h.id, "", h.hours, h.year)
  }

  /** The enrichment loop: rows whose category does not resolve are dropped. */
  function Enrich(hs: seq<HourRow>, cats: seq<Category>): (r: seq<WorkerHours>)
    ensures |r| <= |hs|
    decreases |hs|
  {
    if hs == [] then []
    else if FindCategory(cats, hs[0].categoryId).Some? then [JoinRow(hs[0], cats)] + Enrich(hs[1..], cats)
    else Enrich(hs[1..], cats)
  }

  /** `obtener_horas_trabajador(worker, year)`: the worker's rows for the
      year, then enriched. */
  function HoursForWorker(hours: seq<HourRow>, cats: seq<Category>, workerId: int, year: int): (r: seq<WorkerHours>)
    ensures |r| <= |hours|
  {
    Enrich(Filter(hours, (h: HourRow) => h.workerId == workerId && h.year == year), cats)
  }

  /** Every row of a worker's hours is the join of one of that worker's
      ledger rows for the year whose category resolves. */
  lemma HoursComeFromLedger(hours: seq<HourRow>, cats: seq<Category>, workerId: int, year: int)
    ensures var r := HoursForWorker(hours, cats, workerId, year);
      forall i :: 0 <= i < |r| ==>
        exists h :: && h in hours && h.workerId == workerId && h.year == year
                    && FindCategory(cats, h.categoryId).Some? && r[i] == JoinRow(h, cats)
  {
    HoursForWorkerIsJoin(hours, cats, workerId, year);
    var m := MatchingRows(hours, cats, workerId, year);
    forall i | 0 <= i < |HoursForWorker(hours, cats, workerId, year)|
      ensures exists h :: && h in hours && h.workerId == workerId && h.year == year
                          && FindCategory(cats, h.categoryId).Some?
                          && HoursForWorker(hours, cats, workerId, year)[i] == JoinRow(h, cats)
    {
      assert m[i] in hours;
    }
  }

  /** Reference definition: the ledger rows that match the worker and year
      AND whose category resolves, in ledger order. */
  function MatchingRows(hours: seq<HourRow>, cats: seq<Category>, workerId: int, year: int): seq<HourRow>
  {
    Filter(hours, (h: HourRow) => h.workerId == workerId && h.year == year && FindCategory(cats, h.categoryId).Some?)
  }

  function JoinAll(hs: seq<HourRow>, cats: seq<Category>): (r: seq<WorkerHours>)
    ensures |r| == |hs|
    ensures forall i :: 0 <= i < |hs| ==> r[i] == JoinRow(hs[i], cats)
  {
    seq(|hs|, i requires 0 <= i < |hs| => JoinRow(hs[i], cats))
  }

  function SumHours(rows: seq<WorkerHours>): real
    decreases |rows|
  {
    if rows == [] then 0.0 else rows[0].hours + SumHours(rows[1..])
  }

  function LedgerSum(rows: seq<HourRow>): real
    decreases |rows|
  {
    if rows == [] then 0.0 else rows[0].hours + LedgerSum(rows[1..])
  }

  /** `obtener_total_horas`: 0 for an empty join, else the sum of its hours. */
  function TotalHours(hours: seq<HourRow>, cats: seq<Category>, workerId: int, year: int): (r: real)
    ensures HoursForWorker(hours, cats, workerId, year) == [] ==> r == 0.0
  {
    var rows := HoursForWorker(hours, cats, workerId, year);
    if |rows| == 0 then 0.0 else SumHours(rows)
  }

  // ==================== area summary ====================

  /** One row of `obtener_resumen_area`: keys trabajador, total_horas,
      num_rubros, area_actual. */
  datatype AreaRow = AreaRow(worker: string, totalHours: real, categoryCount: nat, area: string)

  /** The loop over the listed workers, one summary row each. */
  function Summarize(ws: seq<Worker>, hours: seq<HourRow>, cats: seq<Category>, year: int): (r: seq<AreaRow>)
    ensures |r| == |ws|
    ensures forall i :: 0 <= i < |ws| ==>
      r[i] == AreaRow(ws[i].name, TotalHours(hours, cats, ws[i].id, year),
                      |HoursForWorker(hours, cats, ws[i].id, year)|, ws[i].area)
    decreases |ws|
  {
    if ws == [] then []
    else
      [AreaRow(ws[0].name, TotalHours(hours, cats, ws[0].id, year),
               |HoursForWorker(hours, cats, ws[0].id, year)|, ws[0].area)]
      + Summarize(ws[1..], hours, cats, year)
  }

  /** `obtener_resumen_area(area, year)`: one row per active worker that
      `obtener_trabajadores(area=area)` lists, in that order. */
  function AreaSummary(workers: seq<Worker>, hours: seq<HourRow>, cats: seq<Category>,
                       area: Option<string>, year: int): (r: seq<AreaRow>)
    ensures var listed := ListWorkers(workers, area, ACTIVO);
      && |r| == |listed|
      && forall i :: 0 <= i < |r| ==>
        && listed[i] in workers && listed[i].status == ACTIVO
        && r[i].worker == listed[i].name && r[i].area == listed[i].area
        && (Truthy(area) ==> r[i].area == area.value)
        && r[i].totalHours == TotalHours(hours, cats, listed[i].id, year)
        && r[i].categoryCount == |HoursForWorker(hours, cats, listed[i].id, year)|
  {
    Summarize(ListWorkers(workers, area, ACTIVO), hours, cats, year)
  }

  // ==================== lemmas ====================

  /** Enriching after filtering by worker and year is the same as keeping the
      rows that match all three conditions and then joining each: the join
      returns exactly those rows, in ledger order, each with its category's
      name. */
  lemma HoursForWorkerIsJoin(hours: seq<HourRow>, cats: seq<Category>, workerId: int, year: int)
    ensures HoursForWorker(hours, cats, workerId, year) == JoinAll(MatchingRows(hours, cats, workerId, year), cats)
  {
    EnrichFilterIsJoin(hours, cats, (h: HourRow) => h.workerId == workerId && h.year == year,
      (h: HourRow) => h.workerId == workerId && h.year == year && FindCategory(cats, h.categoryId).Some?);
  }

  /** Enriching the rows `p` selects is joining the rows `q` selects, when
      `q` is `p` plus "the category resolves". */
  lemma {:induction false} EnrichFilterIsJoin(s: seq<HourRow>, cats: seq<Category>, p: HourRow -> bool, q: HourRow -> bool)
    requires forall h :: q(h) == (p(h) && FindCategory(cats, h.categoryId).Some?)
    ensures Enrich(Filter(s, p), cats) == JoinAll(Filter(s, q), cats)
    decreases |s|
  {
    if s != [] {
      EnrichFilterIsJoin(s[1..], cats, p, q);
      var rest := Filter(s[1..], p);
      if p(s[0]) {
        assert Filter(s, p) == [s[0]] + rest;
        assert ([s[0]] + rest)[1..] == rest;
        if q(s[0]) {
          assert Filter(s, q) == [s[0]] + Filter(s[1..], q);
        }
      }
    } else {
      assert Filter(s, q) == [];
    }
  }

  lemma {:induction false} SumJoinAll(hs: seq<HourRow>, cats: seq<Category>)
    ensures SumHours(JoinAll(hs, cats)) == LedgerSum(hs)
    decreases |hs|
  {
    if hs != [] {
      SumJoinAll(hs[1..], cats);
      assert JoinAll(hs, cats)[1..] == JoinAll(hs[1..], cats);
    }
  }

  /** The total is the sum of hours over the ledger rows that match the worker
      and year and whose category still resolves; rows with a missing
      category do not count. */
  lemma TotalIsLedgerSum(hours: seq<HourRow>, cats: seq<Category>, workerId: int, year: int)
    ensures TotalHours(hours, cats, workerId, year) == LedgerSum(MatchingRows(hours, cats, workerId, year))
  {
    HoursForWorkerIsJoin(hours, cats, workerId, year);
    SumJoinAll(MatchingRows(hours, cats, workerId, year), cats);
  }

  /** A ledger row whose category does not resolve changes neither the join
      nor the total. */
  lemma OrphanRowIgnored(hours: seq<HourRow>, cats: seq<Category>, h: HourRow, workerId: int, year: int)
    requires FindCategory(cats, h.categoryId).None?
    ensures MatchingRows(hours + [h], cats, workerId, year) == MatchingRows(hours, cats, workerId, year)
    ensures TotalHours(hours + [h], cats, workerId, year) == TotalHours(hours, cats, workerId, year)
  {
    FilterAppend(hours, [h], (h: HourRow) => h.workerId == workerId && h.year == year && FindCategory(cats, h.categoryId).Some?);
    TotalIsLedgerSum(hours + [h], cats, workerId, year);
    TotalIsLedgerSum(hours, cats, workerId, year);
  }

  /** After the cascade of a hard delete the worker has no rows and a zero
      total, for every year. */
  lemma HardDeleteClearsHours(hours: seq<HourRow>, cats: seq<Category>, workerId: int, year: int)
    ensures HoursForWorker(RemoveHoursOf(hours, workerId), cats, workerId, year) == []
    ensures TotalHours(RemoveHoursOf(hours, workerId), cats, workerId, year) == 0.0
  {
  }

  /** A soft-deleted worker leaves the active listing and appears in the
      inactive one; its ledger rows are untouched (the soft path of
      `DeleteWorker` does not write the ledger). */
  lemma SoftDeleteMovesListing(rows: seq<Worker>, id: int, area: Option<string>)
    requires KeysDistinct(rows, WorkerId)
    requires IndexOfKey(rows, WorkerId, id) >= 0
    ensures var listed := ListWorkers(UpdateWorkerRows(rows, id, [SetStatus(INACTIVO)]), area, ACTIVO);
      forall k :: 0 <= k < |listed| ==> listed[k].id != id
    ensures var i := IndexOfKey(rows, WorkerId, id);
      rows[i].(status := INACTIVO) in ListWorkers(UpdateWorkerRows(rows, id, [SetStatus(INACTIVO)]), None, INACTIVO)
  {
    var i := IndexOfKey(rows, WorkerId, id);
    var r := UpdateWorkerRows(rows, id, [SetStatus(INACTIVO)]);
    SingleWorkerKwarg(rows[i], SetStatus(INACTIVO));
    assert r == rows[i := rows[i].(status := INACTIVO)];
    assert ACTIVO != INACTIVO by { assert |ACTIVO| != |INACTIVO|; }
    var listed := ListWorkers(r, area, ACTIVO);
    forall k | 0 <= k < |listed| ensures listed[k].id != id {
      assert listed[k] in r;
      var j :| 0 <= j < |r| && r[j] == listed[k];
      assert r[j] == rows[j];
    }
    assert r[i] in r;
  }

  /** A worker created by `agregar_trabajador` is listed among the active
      workers, with the name and email it was created with. */
  lemma CreatedWorkerListed(rows: seq<Worker>, w: Worker)
    requires w.status == ACTIVO
    ensures w in ListWorkers(rows + [w], None, ACTIVO)
    ensures w in ListWorkers(rows + [w], Some(w.area), ACTIVO)
  {
    assert (rows + [w])[|rows|] == w;
  }
}
