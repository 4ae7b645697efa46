/** The one-shot SQLite to JSON migration: each table's rows become records
    with defaults for null columns, and each document's `next_id` is the
    running "one past the largest id seen, at least 1". */
module Migration {
  import opened Seqs
  import opened Records
  import opened WorkersJson

  /** A row of `SELECT id, nombre, email, telefono, area, foto, estatus FROM
      trabajadores`; nullable columns are options. */
  datatype WorkerRow = WorkerRow(
    id: int,
    name: string,
    email: string,
    phone: Option<string>,
    area: Option<string>,
    photo: Option<string>,
    status: Option<string>)

  /** A row of `SELECT id, nombre, descripcion, activo FROM rubros`; `activo`
      is an INTEGER column that may be null. */
  datatype CategoryRow = CategoryRow(id: int, name: string, description: Option<string>, active: Option<int>)

  function WorkerRowId(r: WorkerRow): int { r.id }
  function CategoryRowId(r: CategoryRow): int { r.id }

  /** `v if v else default` for a text column. */
  function OrDefault(v: Option<string>, default: string): string
  {
    if Truthy(v) then v.value else default
  }

  function WorkerFromRow(r: WorkerRow): Worker
  {
    Worker(r.id, r.name, r.email, OrDefault(r.phone, ""), OrDefault(r.area, ""), r.photo, OrDefault(r.status, ACTIVO))
  }

  /** `bool(v) if v is not None else True`. */
  function ActiveFromColumn(v: Option<int>): bool
  {
    if v.None? then true else v.value != 0
  }

  function CategoryFromRow(r: CategoryRow): Category
  {
    Category(r.id, r.name, OrDefault(r.description, ""), ActiveFromColumn(r.active))
  }

  /** The trabajadores loop. */
  method MigrateWorkers(rows: seq<WorkerRow>) returns (records: seq<Worker>, nextId: nat)
    ensures |records| == |rows|
    ensures forall i :: 0 <= i < |rows| ==> records[i] == WorkerFromRow(rows[i])
    ensures nextId >= 1
    ensures forall i :: 0 <= i < |rows| ==> rows[i].id < nextId
    ensures nextId == 1 || exists i :: 0 <= i < |rows| && rows[i].id == nextId - 1
    ensures KeysDistinct(rows, WorkerRowId) ==> WorkersValid(records, nextId)
  {
    records := [];
    nextId := 1;
    var k := 0;
    while k < |rows|
      invariant 0 <= k <= |rows|
      invariant |records| == k
      invariant forall i :: 0 <= i < k ==> records[i] == WorkerFromRow(rows[i])
      invariant nextId >= 1
      invariant forall i :: 0 <= i < k ==> rows[i].id < nextId
      invariant nextId == 1 || exists i :: 0 <= i < k && rows[i].id == nextId - 1
    {
      var row := rows[k];
      records := records + [WorkerFromRow(row)];
      if row.id >= nextId {
        nextId := row.id + 1;
      }
      k := k + 1;
    }
    if KeysDistinct(rows, WorkerRowId) {
      assert forall i :: 0 <= i < |rows| ==> WorkerId(records[i]) == WorkerRowId(rows[i]);
    }
  }

  /** The rubros loop. */
  method MigrateCategories(rows: seq<CategoryRow>) returns (records: seq<Category>, nextId: nat)
    ensures |records| == |rows|
    ensures forall i :: 0 <= i < |rows| ==> records[i] == CategoryFromRow(rows[i])
    ensures nextId >= 1
    ensures forall i :: 0 <= i < |rows| ==> rows[i].id < nextId
    ensures nextId == 1 || exists i :: 0 <= i < |rows| && rows[i].id == nextId - 1
    ensures KeysDistinct(rows, CategoryRowId) ==> CategoriesValid(records, nextId)
  {
    records := [];
    nextId := 1;
    var k := 0;
    while k < |rows|
      invariant 0 <= k <= |rows|
      invariant |records| == k
      invariant forall i :: 0 <= i < k ==> records[i] == CategoryFromRow(rows[i])
      invariant nextId >= 1
      invariant forall i :: 0 <= i < k ==> rows[i].id < nextId
      invariant nextId == 1 || exists i :: 0 <= i < k && rows[i].id == nextId - 1
    {
      var row := rows[k];
      records := records + [CategoryFromRow(row)];
      if row.id >= nextId {
        nextId := row.id + 1;
      }
      k := k + 1;
    }
    if KeysDistinct(rows, CategoryRowId) {
      assert forall i :: 0 <= i < |rows| ==> CategoryId(records[i]) == CategoryRowId(rows[i]);
    }
  }

  /** The horas_asignadas loop. Every column is NOT NULL and `float(horas)`
      is the identity on the model's exact hours, so each row is copied as
      it is. */
  method MigrateHours(rows: seq<HourRow>) returns (records: seq<HourRow>, nextId: nat)
    ensures records == rows
    ensures nextId >= 1
    ensures forall i :: 0 <= i < |rows| ==> rows[i].id < nextId
    ensures nextId == 1 || exists i :: 0 <= i < |rows| && rows[i].id == nextId - 1
    ensures KeysDistinct(rows, HourId) && KeysDistinct(rows, TripleOf) ==> HoursValid(records, nextId)
  {
    records := [];
    nextId := 1;
    var k := 0;
    while k < |rows|
      invariant 0 <= k <= |rows|
      invariant records == rows[..k]
      invariant nextId >= 1
      invariant forall i :: 0 <= i < k ==> rows[i].id < nextId
      invariant nextId == 1 || exists i :: 0 <= i < k && rows[i].id == nextId - 1
    {
      var row := rows[k];
      records := records + [HourRow(row.id, row.workerId, row.categoryId, row.hours, row.year)];
      if row.id >= nextId {
        nextId := row.id + 1;
      }
      k := k + 1;
    }
    assert rows[..|rows|] == rows;
  }

  /** Null or empty text columns take their defaults: "" for telefono and
      area, "activo" for estatus; other values are kept. */
  lemma WorkerDefaults(r: WorkerRow)
    ensures var w := WorkerFromRow(r);
      && w.id == r.id && w.name == r.name && w.email == r.email && w.photo == r.photo
      && (r.phone.None? ==> w.phone == "") && (r.area.None? ==> w.area == "")
      && (r.status.None? ==> w.status == ACTIVO)
      && (r.status == Some("") ==> w.status == ACTIVO)
      && (Truthy(r.status) ==> w.status == r.status.value)
      && (r.phone.Some? ==> w.phone == r.phone.value)
      && (r.area.Some? ==> w.area == r.area.value)
  {
  }

  /** A null description becomes ""; `activo` is true when null and the
      truthiness of the stored integer otherwise. */
  lemma CategoryDefaults(r: CategoryRow)
    ensures var c := CategoryFromRow(r);
      && c.id == r.id && c.name == r.name
      && (r.description.None? ==> c.description == "")
      && (r.description.Some? ==> c.description == r.description.value)
      && (r.active.None? ==> c.active)
      && (r.active.Some? ==> (c.active <==> r.active.value != 0))
  {
  }
}
