/** The orphan sweep over the SQLite database: ledger rows whose worker or
    category no longer exists are listed, counted and, when the operator
    answers yes, deleted; a second query then counts what is left. */
module Orphans {
  import opened Seqs
  import opened Records
  import opened Migration

  /** `EXISTS (SELECT 1 FROM trabajadores t WHERE t.id = h.trabajador_id)`. */
  predicate HasWorker(workers: seq<WorkerRow>, h: HourRow)
  {
    exists i :: 0 <= i < |workers| && workers[i].id == h.workerId
  }

  /** `EXISTS (SELECT 1 FROM rubros r WHERE r.id = h.rubro_id)`. */
  predicate HasCategory(categories: seq<CategoryRow>, h: HourRow)
  {
    exists i :: 0 <= i < |categories| && categories[i].id == h.categoryId
  }

  /** A row the integrity query counts: its worker or its category is gone. */
  predicate IsOrphan(workers: seq<WorkerRow>, categories: seq<CategoryRow>, h: HourRow)
  {
    !HasWorker(workers, h) || !HasCategory(categories, h)
  }

  /** The first query: rows without a worker, in table order. */
  function WithoutWorker(workers: seq<WorkerRow>, hours: seq<HourRow>): (r: seq<HourRow>)
    ensures forall h :: h in r <==> h in hours && !HasWorker(workers, h)
    ensures Subseq(r, hours)
  {
    Filter(hours, (h: HourRow) => !HasWorker(workers, h))
  }

  /** The second query: rows without a category, in table order. */
  function WithoutCategory(categories: seq<CategoryRow>, hours: seq<HourRow>): (r: seq<HourRow>)
    ensures forall h :: h in r <==> h in hours && !HasCategory(categories, h)
    ensures Subseq(r, hours)
  {
    Filter(hours, (h: HourRow) => !HasCategory(categories, h))
  }

  /** Rows that lack both their worker and their category. */
  function WithoutBoth(workers: seq<WorkerRow>, categories: seq<CategoryRow>, hours: seq<HourRow>): (r: seq<HourRow>)
    ensures forall h :: h in r <==> h in hours && !HasWorker(workers, h) && !HasCategory(categories, h)
  {
    Filter(hours, (h: HourRow) => !HasWorker(workers, h) && !HasCategory(categories, h))
  }

  /** The reported total: the two list lengths added. */
  function OrphanTotal(workers: seq<WorkerRow>, categories: seq<CategoryRow>, hours: seq<HourRow>): (n: nat)
    ensures n <= 2 * |hours|
    ensures n == 0 <==> forall h :: h in hours ==> !IsOrphan(workers, categories, h)
  {
    |WithoutWorker(workers, hours)| + |WithoutCategory(categories, hours)|
  }

  /** Rows that keep both their worker and their category. */
  function Healthy(workers: seq<WorkerRow>, categories: seq<CategoryRow>, hours: seq<HourRow>): (r: seq<HourRow>)
    ensures forall h :: h in r <==> h in hours && !IsOrphan(workers, categories, h)
  {
    Filter(hours, (h: HourRow) => HasWorker(workers, h) && HasCategory(categories, h))
  }

  /** The integrity query: `COUNT(*)` of rows lacking a worker OR a category. */
  function IntegrityCount(workers: seq<WorkerRow>, categories: seq<CategoryRow>, hours: seq<HourRow>): (n: nat)
    ensures n <= |hours|
    ensures n == 0 <==> forall i :: 0 <= i < |hours| ==> !IsOrphan(workers, categories, hours[i])
    decreases |hours|
  {
    if hours == [] then 0
    else (if IsOrphan(workers, categories, hours[0]) then 1 else 0) + IntegrityCount(workers, categories, hours[1..])
  }

  /** The ids a fetched list carries. */
  function Ids(rows: seq<HourRow>): set<int>
  {
    set h | h in rows :: h.id
  }

  /** `DELETE FROM horas_asignadas WHERE id IN (...)`. */
  function DeleteIds(hours: seq<HourRow>, ids: set<int>): (r: seq<HourRow>)
    ensures forall h :: h in r <==> h in hours && h.id !in ids
    ensures Subseq(r, hours)
  {
    Filter(hours, (h: HourRow) => h.id !in ids)
  }

  /** The table after a confirmed sweep: each delete runs only when its list
      is non-empty, and both lists were fetched before either delete. */
  function Purge(workers: seq<WorkerRow>, categories: seq<CategoryRow>, hours: seq<HourRow>): (r: seq<HourRow>)
    ensures |r| <= |hours|
    ensures Subseq(r, hours)
  {
    var noWorker := WithoutWorker(workers, hours);
    var noCategory := WithoutCategory(categories, hours);
    var afterWorker := if noWorker != [] then DeleteIds(hours, Ids(noWorker)) else hours;
    SubseqRefl(hours);
    if noCategory != [] then
      var r := DeleteIds(afterWorker, Ids(noCategory));
      SubseqTrans(r, afterWorker, hours);
      r
    else afterWorker
  }

  /** `input().lower() == 's'`: the operator's answer is yes. */
  predicate Confirms(answer: string)
  {
    answer == "s" || answer == "S"
  }

  /** The database file: the three tables the sweep reads and changes. */
  class SqliteDb {
    var workers: seq<WorkerRow>
    var categories: seq<CategoryRow>
    var hours: seq<HourRow>

    constructor (workers: seq<WorkerRow>, categories: seq<CategoryRow>, hours: seq<HourRow>)
      ensures this.workers == workers && this.categories == categories && this.hours == hours
    {
      this.workers := workers;
      this.categories := categories;
      this.hours := hours;
    }

    /** `limpiar_horas_huerfanas()` with the operator's answer given. It
        returns the two fetched lists and their added lengths (the total the
        script prints, also as the number it claims to have deleted);
        `purged` is whether the deletes were committed and `deleted` is the
        number of rows they actually removed. */
    method CleanOrphanHours(answer: string) returns (noWorker: seq<HourRow>, noCategory: seq<HourRow>, total: nat, purged: bool, deleted: nat)
      modifies this
      ensures noWorker == WithoutWorker(old(workers), old(hours))
      ensures noCategory == WithoutCategory(old(categories), old(hours))
      ensures total == |noWorker| + |noCategory|
      ensures purged <==> total > 0 && Confirms(answer)
      ensures workers == old(workers) && categories == old(categories)
      ensures hours == if purged then Purge(old(workers), old(categories), old(hours)) else old(hours)
      ensures deleted == |old(hours)| - |hours|
      ensures purged && KeysDistinct(old(hours), HourId) ==> deleted == IntegrityCount(workers, categories, old(hours))
    {
      var before := hours;
      noWorker := WithoutWorker(workers, hours);
      noCategory := WithoutCategory(categories, hours);
      total := |noWorker| + |noCategory|;
      purged := false;
      if total > 0 {
        if Confirms(answer) {
          if noWorker != [] {
            hours := DeleteIds(hours, Ids(noWorker));
          }
          if noCategory != [] {
            hours := DeleteIds(hours, Ids(noCategory));
          }
          purged := true;
        }
      }
      deleted := |before| - |hours|;
      if purged && KeysDistinct(before, HourId) {
        PurgeDeletesIntegrityCount(workers, categories, before);
      }
    }

    /** `verificar_integridad()`: the number of orphan rows still present. */
    method VerifyIntegrity() returns (orphans: nat)
      ensures orphans == IntegrityCount(workers, categories, hours)
      ensures orphans == 0 <==> forall h :: h in hours ==> !IsOrphan(workers, categories, h)
    {
      orphans := IntegrityCount(workers, categories, hours);
    }

    /** The script run as a program: the sweep, then the integrity check.
        Answering yes always ends with a clean table; any other answer
        leaves the count where it was. */
    method SweepThenVerify(answer: string) returns (total: nat, remaining: nat)
      modifies this
      ensures total == OrphanTotal(old(workers), old(categories), old(hours))
      ensures Confirms(answer) ==> remaining == 0
      ensures !Confirms(answer) ==> remaining == IntegrityCount(old(workers), old(categories), old(hours))
      ensures workers == old(workers) && categories == old(categories)
      ensures hours == if total > 0 && Confirms(answer) then Purge(old(workers), old(categories), old(hours)) else old(hours)
    {
      var noWorker, noCategory, purged, deleted;
      noWorker, noCategory, total, purged, deleted := CleanOrphanHours(answer);
      if purged {
        PurgeLeavesNoOrphans(workers, categories, old(hours));
      } else {
        ReportsOrphansIffIntegrityFails(workers, categories, hours);
      }
      remaining := VerifyIntegrity();
    }
  }

  /** A row missing both its worker and its category is listed twice, so
      the reported total exceeds the integrity count by exactly those rows. */
  lemma {:induction false} TotalCountsDoubleOrphansTwice(workers: seq<WorkerRow>, categories: seq<CategoryRow>, hours: seq<HourRow>)
    ensures OrphanTotal(workers, categories, hours)
         == IntegrityCount(workers, categories, hours) + |WithoutBoth(workers, categories, hours)|
    decreases |hours|
  {
    if hours != [] {
      TotalCountsDoubleOrphansTwice(workers, categories, hours[1..]);
    }
  }

  /** Membership after a confirmed sweep: a row stays when its id is in
      neither fetched list that was non-empty. */
  lemma PurgeMembers(workers: seq<WorkerRow>, categories: seq<CategoryRow>, hours: seq<HourRow>, h: HourRow)
    ensures var noWorker := WithoutWorker(workers, hours);
      var noCategory := WithoutCategory(categories, hours);
      h in Purge(workers, categories, hours) <==>
        && h in hours
        && (noWorker != [] ==> h.id !in Ids(noWorker))
        && (noCategory != [] ==> h.id !in Ids(noCategory))
  {
  }

  /** After a confirmed sweep the integrity query finds nothing. */
  lemma PurgeLeavesNoOrphans(workers: seq<WorkerRow>, categories: seq<CategoryRow>, hours: seq<HourRow>)
    ensures IntegrityCount(workers, categories, Purge(workers, categories, hours)) == 0
  {
    var noWorker := WithoutWorker(workers, hours);
    var noCategory := WithoutCategory(categories, hours);
    var r := Purge(workers, categories, hours);
    forall i | 0 <= i < |r| ensures !IsOrphan(workers, categories, r[i]) {
      var h := r[i];
      PurgeMembers(workers, categories, hours, h);
    }
  }

  /** With the primary key distinct, a row survives a confirmed sweep
      exactly when it is not an orphan. */
  lemma PurgeKeepsExactlyHealthyRows(workers: seq<WorkerRow>, categories: seq<CategoryRow>, hours: seq<HourRow>, h: HourRow)
    requires KeysDistinct(hours, HourId)
    ensures h in Purge(workers, categories, hours) <==> h in hours && !IsOrphan(workers, categories, h)
  {
    var r := Purge(workers, categories, hours);
    PurgeMembers(workers, categories, hours, h);
    if h in r {
      PurgeLeavesNoOrphans(workers, categories, hours);
      var i :| 0 <= i < |r| && r[i] == h;
    }
    if h in hours && !IsOrphan(workers, categories, h) {
      IdOfUnlistedRow(hours, WithoutWorker(workers, hours), h);
      IdOfUnlistedRow(hours, WithoutCategory(categories, hours), h);
    }
  }

  /** In a distinct-keyed table, a row left out of a sub-list shares its id
      with no listed row. */
  lemma IdOfUnlistedRow(hours: seq<HourRow>, listed: seq<HourRow>, h: HourRow)
    requires KeysDistinct(hours, HourId)
    requires forall g :: g in listed ==> g in hours
    requires h in hours && h !in listed
    ensures h.id !in Ids(listed)
  {
  }

  /** Every row is either healthy or counted by the integrity query. */
  lemma {:induction false} HealthyPlusOrphans(workers: seq<WorkerRow>, categories: seq<CategoryRow>, hours: seq<HourRow>)
    ensures |Healthy(workers, categories, hours)| + IntegrityCount(workers, categories, hours) == |hours|
    decreases |hours|
  {
    if hours != [] {
      HealthyPlusOrphans(workers, categories, hours[1..]);
    }
  }

  /** The first delete keeps exactly the rows that have a worker. */
  lemma FirstDeleteKeepsRowsWithWorker(workers: seq<WorkerRow>, hours: seq<HourRow>)
    requires KeysDistinct(hours, HourId)
    ensures var noWorker := WithoutWorker(workers, hours);
      (if noWorker != [] then DeleteIds(hours, Ids(noWorker)) else hours)
        == Filter(hours, (h: HourRow) => HasWorker(workers, h))
  {
    var noWorker := WithoutWorker(workers, hours);
    if noWorker != [] {
      var ids := Ids(noWorker);
      forall i | 0 <= i < |hours| ensures (hours[i].id !in ids) == HasWorker(workers, hours[i]) {
        if HasWorker(workers, hours[i]) {
          IdOfUnlistedRow(hours, noWorker, hours[i]);
        }
      }
      FilterCongruent(hours, (h: HourRow) => h.id !in ids, (h: HourRow) => HasWorker(workers, h));
    } else {
      FilterAll(hours, (h: HourRow) => HasWorker(workers, h));
    }
  }

  /** The second delete, applied to rows of the table, keeps exactly those
      that have a category. */
  lemma SecondDeleteKeepsRowsWithCategory(categories: seq<CategoryRow>, hours: seq<HourRow>, kept: seq<HourRow>)
    requires KeysDistinct(hours, HourId)
    requires forall h :: h in kept ==> h in hours
    ensures var noCategory := WithoutCategory(categories, hours);
      (if noCategory != [] then DeleteIds(kept, Ids(noCategory)) else kept)
        == Filter(kept, (h: HourRow) => HasCategory(categories, h))
  {
    var noCategory := WithoutCategory(categories, hours);
    if noCategory != [] {
      var ids := Ids(noCategory);
      forall i | 0 <= i < |kept| ensures (kept[i].id !in ids) == HasCategory(categories, kept[i]) {
        if HasCategory(categories, kept[i]) {
          IdOfUnlistedRow(hours, noCategory, kept[i]);
        }
      }
      FilterCongruent(kept, (h: HourRow) => h.id !in ids, (h: HourRow) => HasCategory(categories, h));
    } else {
      FilterAll(kept, (h: HourRow) => HasCategory(categories, h));
    }
  }

  /** With the primary key distinct, a confirmed sweep is the two filters
      "has a worker" and then "has a category". */
  lemma PurgeIsTwoFilters(workers: seq<WorkerRow>, categories: seq<CategoryRow>, hours: seq<HourRow>)
    requires KeysDistinct(hours, HourId)
    ensures Purge(workers, categories, hours)
         == Filter(Filter(hours, (h: HourRow) => HasWorker(workers, h)), (h: HourRow) => HasCategory(categories, h))
  {
    var kept := Filter(hours, (h: HourRow) => HasWorker(workers, h));
    FirstDeleteKeepsRowsWithWorker(workers, hours);
    SecondDeleteKeepsRowsWithCategory(categories, hours, kept);
  }

  /** With the primary key distinct, a confirmed sweep leaves exactly the
      healthy rows, in table order. */
  lemma PurgeIsHealthy(workers: seq<WorkerRow>, categories: seq<CategoryRow>, hours: seq<HourRow>)
    requires KeysDistinct(hours, HourId)
    ensures Purge(workers, categories, hours) == Healthy(workers, categories, hours)
  {
    PurgeIsTwoFilters(workers, categories, hours);
    HealthyIsTwoFilters(workers, categories, hours);
  }

  /** Keeping the healthy rows is keeping the rows with a worker and then,
      of those, the rows with a category. */
  lemma {:induction false} HealthyIsTwoFilters(workers: seq<WorkerRow>, categories: seq<CategoryRow>, hours: seq<HourRow>)
    ensures Healthy(workers, categories, hours)
         == Filter(Filter(hours, (h: HourRow) => HasWorker(workers, h)), (h: HourRow) => HasCategory(categories, h))
    decreases |hours|
  {
    if hours != [] {
      HealthyIsTwoFilters(workers, categories, hours[1..]);
      var rest := Filter(hours[1..], (h: HourRow) => HasWorker(workers, h));
      if HasWorker(workers, hours[0]) {
        assert ([hours[0]] + rest)[1..] == rest;
      }
    }
  }

  /** With the primary key distinct, a confirmed sweep deletes exactly as
      many rows as the integrity query counted. */
  lemma PurgeDeletesIntegrityCount(workers: seq<WorkerRow>, categories: seq<CategoryRow>, hours: seq<HourRow>)
    requires KeysDistinct(hours, HourId)
    ensures |hours| - |Purge(workers, categories, hours)| == IntegrityCount(workers, categories, hours)
  {
    PurgeIsHealthy(workers, categories, hours);
    HealthyPlusOrphans(workers, categories, hours);
  }

  /** The reported total over-counts: one ledger row whose worker and
      category are both gone is reported as two orphans, while the sweep
      deletes one row. */
  lemma DoubleOrphanOverReported()
    ensures var workers := [WorkerRow(1, "Juan", "juan@empresa.com", None, None, None, None)];
      var categories := [CategoryRow(1, "Desarrollo", None, Some(1))];
      var hours := [HourRow(1, 7, 7, 8.0, 2025)];
      && OrphanTotal(workers, categories, hours) == 2
      && |hours| - |Purge(workers, categories, hours)| == 1
  {
    var workers := [WorkerRow(1, "Juan", "juan@empresa.com", None, None, None, None)];
    var categories := [CategoryRow(1, "Desarrollo", None, Some(1))];
    var hours := [HourRow(1, 7, 7, 8.0, 2025)];
    assert !HasWorker(workers, hours[0]) && !HasCategory(categories, hours[0]);
    assert WithoutWorker(workers, hours) == hours;
    assert WithoutCategory(categories, hours) == hours;
    PurgeLeavesNoOrphans(workers, categories, hours);
    assert Purge(workers, categories, hours) == [];
  }

  /** The sweep finds something to report exactly when the integrity query
      counts an orphan. */
  lemma ReportsOrphansIffIntegrityFails(workers: seq<WorkerRow>, categories: seq<CategoryRow>, hours: seq<HourRow>)
    ensures OrphanTotal(workers, categories, hours) == 0 <==> IntegrityCount(workers, categories, hours) == 0
  {
    TotalCountsDoubleOrphansTwice(workers, categories, hours);
  }
}
