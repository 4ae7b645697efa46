/** The flat-file record store: three collections, each a record list plus a
    `next_id` counter, read whole, changed and written back whole. A table
    object stands for one JSON document; its fields are the document's two
    keys, and every mutator below is one read-modify-write cycle. */
module WorkersJson {
  import opened Seqs
  import opened Records

  const EMAIL_EXISTS: string := "El email ya existe"
  const CATEGORY_EXISTS: string := "El rubro ya existe"

  // ==================== invariants ====================

  /** Every id is below the counter and no id repeats. */
  ghost predicate WorkersValid(rows: seq<Worker>, nextId: int)
  {
    KeysBelow(rows, WorkerId, nextId) && KeysDistinct(rows, WorkerId)
  }

  ghost predicate CategoriesValid(rows: seq<Category>, nextId: int)
  {
    KeysBelow(rows, CategoryId, nextId) && KeysDistinct(rows, CategoryId)
  }

  /** As above, and at most one row per (worker, category, year) triple. */
  ghost predicate HoursValid(rows: seq<HourRow>, nextId: int)
  {
    KeysBelow(rows, HourId, nextId) && KeysDistinct(rows, HourId) && KeysDistinct(rows, TripleOf)
  }

  // ==================== seeded state ====================

  const SEED_WORKERS_NEXT_ID: nat := 3
  const SEED_CATEGORIES_NEXT_ID: nat := 5
  const SEED_HOURS_NEXT_ID: nat := 5

  /** The two workers written when `trabajadores.json` is missing. */
  function SeedWorkers(): (r: seq<Worker>)
    ensures WorkersValid(r, SEED_WORKERS_NEXT_ID) && KeysDistinct(r, WorkerEmail)
    ensures forall i :: 0 <= i < |r| ==> r[i].status == ACTIVO
  {
    [ Worker(1, "Juan Pérez", "juan@empresa.com", "+51999111222", "Ingeniería", None, ACTIVO),
      Worker(2, "María García", "maria@empresa.com", "+51999333444", "Diseño", None, ACTIVO) ]
  }

  /** The four categories written when `rubros.json` is missing. */
  function SeedCategories(): (r: seq<Category>)
    ensures CategoriesValid(r, SEED_CATEGORIES_NEXT_ID) && KeysDistinct(r, CategoryName)
    ensures forall i :: 0 <= i < |r| ==> r[i].active
  {
    [ Category(1, "Desarrollo", "Desarrollo de software", true),
      Category(2, "Diseño", "Diseño gráfico", true),
      Category(3, "Consultoría", "Consultoría técnica", true),
      Category(4, "Capacitación", "Capacitaciones", true) ]
  }

  /** The four ledger rows written when `horas_asignadas.json` is missing. */
  function SeedHours(): (r: seq<HourRow>)
    ensures HoursValid(r, SEED_HOURS_NEXT_ID)
  {
    [ HourRow(1, 1, 1, 20.0, 2025),
      HourRow(2, 1, 2, 10.0, 2025),
      HourRow(3, 2, 1, 15.0, 2025),
      HourRow(4, 2, 3, 5.0, 2025) ]
  }

  // ==================== worker updates ====================

  /** One `key=value` argument of `actualizar_trabajador`. The six whitelisted
      keys have their own constructor; `OtherKey` is any other keyword. */
  datatype WorkerKwarg =
    | SetName(name: string)
    | SetEmail(email: string)
    | SetPhone(phone: string)
    | SetArea(area: string)
    | SetPhoto(photo: Option<string>)
    | SetStatus(status: string)
    | OtherKey(key: string)

  predicate Whitelisted(k: WorkerKwarg) { !k.OtherKey? }

  function ApplyWorkerKwarg(w: Worker, k: WorkerKwarg): Worker
  {
    match k
    case SetName(v) => w.(name := v)
    case SetEmail(v) => w.(email := v)
    case SetPhone(v) => w.(phone := v)
    case SetArea(v) => w.(area := v)
    case SetPhoto(v) => w.(photo := v)
    case SetStatus(v) => w.(status := v)
    case OtherKey(_) => w
  }

  /** The keyword arguments applied in order to one record. */
  function ApplyWorkerKwargs(w: Worker, ks: seq<WorkerKwarg>): Worker
    decreases |ks|
  {
    if ks == [] then w else ApplyWorkerKwarg(ApplyWorkerKwargs(w, ks[..|ks| - 1]), ks[|ks| - 1])
  }

  /** The collection after `actualizar_trabajador(id, **ks)`: the first record
      with that id is rewritten, or nothing changes when there is none. */
  function UpdateWorkerRows(rows: seq<Worker>, id: int, ks: seq<WorkerKwarg>): seq<Worker>
  {
    var i := IndexOfKey(rows, WorkerId, id);
    if i < 0 then rows else rows[i := ApplyWorkerKwargs(rows[i], ks)]
  }

  /** The collection after a hard delete of `id`. */
  function RemoveWorkerRows(rows: seq<Worker>, id: int): seq<Worker>
  {
    Filter(rows, (w: Worker) => w.id != id)
  }

  /** The ledger after the cascade of a hard delete of worker `id`. */
  function RemoveHoursOf(rows: seq<HourRow>, workerId: int): seq<HourRow>
  {
    Filter(rows, (h: HourRow) => h.workerId != workerId)
  }

  predicate EmailInUse(rows: seq<Worker>, email: string)
  {
    exists i :: 0 <= i < |rows| && rows[i].email == email
  }

  // ==================== category updates ====================

  /** One `key=value` argument of `actualizar_rubro`. Every category record
      carries the keys id, nombre, descripcion and activo, so those four are
      applied (including `id`); `MissingKey` is a keyword the record lacks. */
  datatype CategoryKwarg =
    | SetCategoryId(id: int)
    | SetCategoryName(name: string)
    | SetDescription(description: string)
    | SetActive(active: bool)
    | MissingKey(key: string)

  function ApplyCategoryKwarg(c: Category, k: CategoryKwarg): Category
  {
    match k
    case SetCategoryId(v) => c.(id := v)
    case SetCategoryName(v) => c.(name := v)
    case SetDescription(v) => c.(description := v)
    case SetActive(v) => c.(active := v)
    case MissingKey(_) => c
  }

  function ApplyCategoryKwargs(c: Category, ks: seq<CategoryKwarg>): Category
    decreases |ks|
  {
    if ks == [] then c else ApplyCategoryKwarg(ApplyCategoryKwargs(c, ks[..|ks| - 1]), ks[|ks| - 1])
  }

  function UpdateCategoryRows(rows: seq<Category>, id: int, ks: seq<CategoryKwarg>): seq<Category>
  {
    var i := IndexOfKey(rows, CategoryId, id);
    if i < 0 then rows else rows[i := ApplyCategoryKwargs(rows[i], ks)]
  }

  predicate NameInUse(rows: seq<Category>, name: string)
  {
    exists i :: 0 <= i < |rows| && rows[i].name == name
  }

  predicate KeepsId(k: CategoryKwarg) { !k.SetCategoryId? }

  // ==================== hours upsert ====================

  /** Ledger and counter after `asignar_horas(w, c, hours, year)`: the first
      row with the triple gets the new hours, or a row is appended with the
      counter as its id and the counter moves on by one. */
  function UpsertRows(rows: seq<HourRow>, nextId: nat, t: Triple, hours: real): (r: (seq<HourRow>, nat))
    ensures r.1 == nextId || r.1 == nextId + 1
    ensures |r.0| == |rows| + (r.1 - nextId)
    ensures exists i :: 0 <= i < |r.0| && TripleOf(r.0[i]) == t && r.0[i].hours == hours
  {
    var i := IndexOfKey(rows, TripleOf, t);
    if i >= 0 then
      var updated := rows[i := rows[i].(hours := hours)];
      assert TripleOf(updated[i]) == t && updated[i].hours == hours;
      (updated, nextId)
    else
      var appended := rows + [HourRow(nextId, t.workerId, t.categoryId, hours, t.year)];
      assert TripleOf(appended[|rows|]) == t && appended[|rows|].hours == hours;
      (appended, nextId + 1)
  }

  // ==================== the three documents ====================

  /** `trabajadores.json`. */
  class WorkerTable {
    var rows: seq<Worker>
    var nextId: nat

    ghost predicate Valid()
      reads this
    {
      WorkersValid(rows, nextId)
    }

    /** The document `init_json_db` writes when the file is missing. */
    constructor Seeded()
      ensures rows == SeedWorkers() && nextId == SEED_WORKERS_NEXT_ID
      ensures Valid()
    {
      rows := SeedWorkers();
      nextId := SEED_WORKERS_NEXT_ID;
    }

    /** `agregar_trabajador`: refuses an email any worker already has,
        whatever its status; otherwise appends an active record whose id is
        the counter and moves the counter on by one. */
    method Add(name: string, email: string, phone: string, area: string, photo: Option<string>)
      returns (res: Result<int>)
      modifies this
      ensures EmailInUse(old(rows), email) ==>
        res == Err(EMAIL_EXISTS) && rows == old(rows) && nextId == old(nextId)
      ensures !EmailInUse(old(rows), email) ==>
        && res == Ok(old(nextId))
        && rows == old(rows) + [Worker(old(nextId), name, email, phone, area, photo, ACTIVO)]
        && nextId == old(nextId) + 1
      ensures old(Valid()) ==> Valid()
      ensures KeysDistinct(old(rows), WorkerEmail) ==> KeysDistinct(rows, WorkerEmail)
    {
      if EmailInUse(rows, email) {
        return Err(EMAIL_EXISTS);
      }
      var id := nextId;
      rows := rows + [Worker(id, name, email, phone, area, photo, ACTIVO)];
      nextId := nextId + 1;
      res := Ok(id);
    }

    /** `actualizar_trabajador`: false for an unknown id; otherwise the first
        record with that id takes the whitelisted keyword values, in order,
        and the call answers true. Email uniqueness is not checked again. */
    method Update(id: int, kwargs: seq<WorkerKwarg>) returns (ok: bool)
      modifies this
      ensures ok == (IndexOfKey(old(rows), WorkerId, id) >= 0)
      ensures rows == UpdateWorkerRows(old(rows), id, kwargs)
      ensures nextId == old(nextId)
      ensures old(Valid()) ==> Valid()
    {
      var index := -1;
      var i := 0;
      while i < |rows|
        invariant 0 <= i <= |rows|
        invariant forall j :: 0 <= j < i ==> rows[j].id != id
      {
        if rows[i].id == id {
          index := i;
          break;
        }
        i := i + 1;
      }
      if index < 0 {
        return false;
      }
      var w := rows[index];
      var k := 0;
      while k < |kwargs|
        invariant 0 <= k <= |kwargs|
        invariant w == ApplyWorkerKwargs(rows[index], kwargs[..k])
      {
        assert kwargs[..k + 1][..k] == kwargs[..k];
        w := ApplyWorkerKwarg(w, kwargs[k]);
        k := k + 1;
      }
      assert kwargs[..|kwargs|] == kwargs;
      UpdateKeepsIds(rows, id, kwargs);
      rows := rows[index := w];
      ok := true;
    }
  }

  /** `rubros.json`. */
  class CategoryTable {
    var rows: seq<Category>
    var nextId: nat

    ghost predicate Valid()
      reads this
    {
      CategoriesValid(rows, nextId)
    }

    constructor Seeded()
      ensures rows == SeedCategories() && nextId == SEED_CATEGORIES_NEXT_ID
      ensures Valid()
    {
      rows := SeedCategories();
      nextId := SEED_CATEGORIES_NEXT_ID;
    }

    /** `agregar_rubro`: refuses a name any category already has, active or
        not; otherwise appends an active record with the counter as its id. */
    method Add(name: string, description: string) returns (res: Result<int>)
      modifies this
      ensures NameInUse(old(rows), name) ==>
        res == Err(CATEGORY_EXISTS) && rows == old(rows) && nextId == old(nextId)
      ensures !NameInUse(old(rows), name) ==>
        && res == Ok(old(nextId))
        && rows == old(rows) + [Category(old(nextId), name, description, true)]
        && nextId == old(nextId) + 1
      ensures old(Valid()) ==> Valid()
      ensures KeysDistinct(old(rows), CategoryName) ==> KeysDistinct(rows, CategoryName)
    {
      if NameInUse(rows, name) {
        return Err(CATEGORY_EXISTS);
      }
      var id := nextId;
      rows := rows + [Category(id, name, description, true)];
      nextId := nextId + 1;
      res := Ok(id);
    }

    /** `actualizar_rubro`: false for an unknown id; otherwise every keyword
        naming a key the record has is applied to the first match. The
        invariant survives when no keyword rewrites `id`. */
    method Update(id: int, kwargs: seq<CategoryKwarg>) returns (ok: bool)
      modifies this
      ensures ok == (IndexOfKey(old(rows), CategoryId, id) >= 0)
      ensures rows == UpdateCategoryRows(old(rows), id, kwargs)
      ensures nextId == old(nextId)
      ensures old(Valid()) && (forall j :: 0 <= j < |kwargs| ==> KeepsId(kwargs[j])) ==> Valid()
    {
      var index := -1;
      var i := 0;
      while i < |rows|
        invariant 0 <= i <= |rows|
        invariant forall j :: 0 <= j < i ==> rows[j].id != id
      {
        if rows[i].id == id {
          index := i;
          break;
        }
        i := i + 1;
      }
      if index < 0 {
        return false;
      }
      var c := rows[index];
      var k := 0;
      while k < |kwargs|
        invariant 0 <= k <= |kwargs|
        invariant c == ApplyCategoryKwargs(rows[index], kwargs[..k])
      {
        assert kwargs[..k + 1][..k] == kwargs[..k];
        c := ApplyCategoryKwarg(c, kwargs[k]);
        k := k + 1;
      }
      assert kwargs[..|kwargs|] == kwargs;
      if forall j :: 0 <= j < |kwargs| ==> KeepsId(kwargs[j]) {
        CategoryKwargsKeepId(rows[index], kwargs);
      }
      rows := rows[index := c];
      ok := true;
    }

    /** `eliminar_rubro`: exactly `actualizar_rubro(id, activo=False)`. */
    method Deactivate(id: int) returns (ok: bool)
      modifies this
      ensures ok == (IndexOfKey(old(rows), CategoryId, id) >= 0)
      ensures rows == UpdateCategoryRows(old(rows), id, [SetActive(false)])
      ensures nextId == old(nextId)
      ensures old(Valid()) ==> Valid()
    {
      ok := Update(id, [SetActive(false)]);
    }
  }

  /** `horas_asignadas.json`. */
  class HoursTable {
    var rows: seq<HourRow>
    var nextId: nat

    ghost predicate Valid()
      reads this
    {
      HoursValid(rows, nextId)
    }

    constructor Seeded()
      ensures rows == SeedHours() && nextId == SEED_HOURS_NEXT_ID
      ensures Valid()
    {
      rows := SeedHours();
      nextId := SEED_HOURS_NEXT_ID;
    }

    /** `asignar_horas` with the year already resolved: overwrite the hours of
        the row with this triple, or append a fresh row; always true. */
    method Assign(workerId: int, categoryId: int, hours: real, year: int) returns (ok: bool)
      modifies this
      ensures ok
      ensures var i := IndexOfKey(old(rows), TripleOf, Triple(workerId, categoryId, year));
        if i >= 0 then
          rows == old(rows)[i := old(rows)[i].(hours := hours)] && nextId == old(nextId)
        else
          && rows == old(rows) + [HourRow(old(nextId), workerId, categoryId, hours, year)]
          && nextId == old(nextId) + 1
      ensures (rows, nextId) == UpsertRows(old(rows), old(nextId), Triple(workerId, categoryId, year), hours)
      ensures old(Valid()) ==> Valid()
    {
      var index := -1;
      var i := 0;
      while i < |rows|
        invariant 0 <= i <= |rows|
        invariant forall j :: 0 <= j < i ==>
          !(rows[j].workerId == workerId && rows[j].categoryId == categoryId && rows[j].year == year)
      {
        if rows[i].workerId == workerId && rows[i].categoryId == categoryId && rows[i].year == year {
          index := i;
          break;
        }
        i := i + 1;
      }
      ghost var before := rows;
      ghost var counter := nextId;
      if index >= 0 {
        rows := rows[index := rows[index].(hours := hours)];
      } else {
        rows := rows + [HourRow(nextId, workerId, categoryId, hours, year)];
        nextId := nextId + 1;
      }
      UpsertKeepsValid(before, counter, Triple(workerId, categoryId, year), hours);
      ok := true;
    }
  }

  /** `eliminar_trabajador`. The soft path is `actualizar_trabajador(id,
      estatus='inactivo')` and leaves the ledger alone. The hard path removes
      every record with that id and then every ledger row of that worker, and
      answers true whether or not the id existed. Counters never move. */
  method DeleteWorker(workers: WorkerTable, hours: HoursTable, id: int, hard: bool) returns (ok: bool)
    modifies workers, hours
    ensures workers.nextId == old(workers.nextId) && hours.nextId == old(hours.nextId)
    ensures hard ==>
      && ok
      && workers.rows == RemoveWorkerRows(old(workers.rows), id)
      && hours.rows == RemoveHoursOf(old(hours.rows), id)
    ensures !hard ==>
      && ok == (IndexOfKey(old(workers.rows), WorkerId, id) >= 0)
      && workers.rows == UpdateWorkerRows(old(workers.rows), id, [SetStatus(INACTIVO)])
      && hours.rows == old(hours.rows)
    ensures old(workers.Valid()) ==> workers.Valid()
    ensures old(hours.Valid()) ==> hours.Valid()
  {
    if hard {
      if workers.Valid() {
        FilterKeepsKeys(workers.rows, (w: Worker) => w.id != id, WorkerId);
        FilterKeepsBound(workers.rows, (w: Worker) => w.id != id, WorkerId, workers.nextId);
      }
      workers.rows := RemoveWorkerRows(workers.rows, id);
      if hours.Valid() {
        FilterKeepsKeys(hours.rows, (h: HourRow) => h.workerId != id, HourId);
        FilterKeepsKeys(hours.rows, (h: HourRow) => h.workerId != id, TripleOf);
        FilterKeepsBound(hours.rows, (h: HourRow) => h.workerId != id, HourId, hours.nextId);
      }
      hours.rows := RemoveHoursOf(hours.rows, id);
      ok := true;
    } else {
      ok := workers.Update(id, [SetStatus(INACTIVO)]);
    }
  }

  // ==================== lemmas ====================

  lemma {:induction false} WorkerKwargsKeepId(w: Worker, ks: seq<WorkerKwarg>)
    ensures ApplyWorkerKwargs(w, ks).id == w.id
    decreases |ks|
  {
    if ks != [] {
      WorkerKwargsKeepId(w, ks[..|ks| - 1]);
    }
  }

  lemma SingleWorkerKwarg(w: Worker, k: WorkerKwarg)
    ensures ApplyWorkerKwargs(w, [k]) == ApplyWorkerKwarg(w, k)
  {
    assert [k][..0] == [];
  }

  /** Updating a worker never changes any id, so the invariant survives. */
  lemma UpdateKeepsIds(rows: seq<Worker>, id: int, ks: seq<WorkerKwarg>)
    ensures |UpdateWorkerRows(rows, id, ks)| == |rows|
    ensures forall j :: 0 <= j < |rows| ==> UpdateWorkerRows(rows, id, ks)[j].id == rows[j].id
    ensures forall n :: WorkersValid(rows, n) ==> WorkersValid(UpdateWorkerRows(rows, id, ks), n)
  {
    var i := IndexOfKey(rows, WorkerId, id);
    if i >= 0 {
      WorkerKwargsKeepId(rows[i], ks);
    }
  }

  lemma {:induction false} CategoryKwargsKeepId(c: Category, ks: seq<CategoryKwarg>)
    requires forall j :: 0 <= j < |ks| ==> KeepsId(ks[j])
    ensures ApplyCategoryKwargs(c, ks).id == c.id
    decreases |ks|
  {
    if ks != [] {
      CategoryKwargsKeepId(c, ks[..|ks| - 1]);
    }
  }

  lemma UpsertKeepsValid(rows: seq<HourRow>, nextId: nat, t: Triple, hours: real)
    ensures HoursValid(rows, nextId) ==> HoursValid(UpsertRows(rows, nextId, t, hours).0, UpsertRows(rows, nextId, t, hours).1)
  {
  }

  /** Keyword arguments outside the whitelist are ignored: applying all of
      them equals applying only the whitelisted ones. */
  lemma {:induction false} OtherKeysIgnored(w: Worker, ks: seq<WorkerKwarg>)
    ensures ApplyWorkerKwargs(w, ks) == ApplyWorkerKwargs(w, Filter(ks, Whitelisted))
    decreases |ks|
  {
    if ks != [] {
      var init, last := ks[..|ks| - 1], ks[|ks| - 1];
      assert ks == init + [last];
      OtherKeysIgnored(w, init);
      FilterAppend(init, [last], Whitelisted);
      var f := Filter(init, Whitelisted);
      if Whitelisted(last) {
        assert Filter([last], Whitelisted) == [last];
        assert (f + [last])[..|f + [last]| - 1] == f;
      } else {
        assert Filter([last], Whitelisted) == [];
        assert f + [] == f;
      }
    }
  }

  /** A key that no keyword argument names keeps its old value; the id is
      never among the keys an update can reach. */
  lemma {:induction false} UnnamedKeysKept(w: Worker, ks: seq<WorkerKwarg>)
    ensures ApplyWorkerKwargs(w, ks).id == w.id
    ensures (forall j :: 0 <= j < |ks| ==> !ks[j].SetName?) ==> ApplyWorkerKwargs(w, ks).name == w.name
    ensures (forall j :: 0 <= j < |ks| ==> !ks[j].SetEmail?) ==> ApplyWorkerKwargs(w, ks).email == w.email
    ensures (forall j :: 0 <= j < |ks| ==> !ks[j].SetPhone?) ==> ApplyWorkerKwargs(w, ks).phone == w.phone
    ensures (forall j :: 0 <= j < |ks| ==> !ks[j].SetArea?) ==> ApplyWorkerKwargs(w, ks).area == w.area
    ensures (forall j :: 0 <= j < |ks| ==> !ks[j].SetPhoto?) ==> ApplyWorkerKwargs(w, ks).photo == w.photo
    ensures (forall j :: 0 <= j < |ks| ==> !ks[j].SetStatus?) ==> ApplyWorkerKwargs(w, ks).status == w.status
    decreases |ks|
  {
    if ks != [] {
      var init := ks[..|ks| - 1];
      assert forall j :: 0 <= j < |init| ==> init[j] == ks[j];
      UnnamedKeysKept(w, init);
    }
  }

  /** With distinct ids, an update rewrites the record with that id and no
      other; the length of the collection does not change. */
  lemma UpdateTouchesOnlyTarget(rows: seq<Worker>, id: int, ks: seq<WorkerKwarg>)
    requires KeysDistinct(rows, WorkerId)
    ensures |UpdateWorkerRows(rows, id, ks)| == |rows|
    ensures forall j :: 0 <= j < |rows| ==>
      UpdateWorkerRows(rows, id, ks)[j] == (if rows[j].id == id then ApplyWorkerKwargs(rows[j], ks) else rows[j])
  {
    forall j | 0 <= j < |rows| && rows[j].id == id
      ensures IndexOfKey(rows, WorkerId, id) == j
    {
      IndexOfDistinct(rows, WorkerId, id, j);
    }
  }

  /** Soft delete is idempotent: deactivating twice is deactivating once. */
  lemma SoftDeleteIdempotent(rows: seq<Worker>, id: int)
    ensures var once := UpdateWorkerRows(rows, id, [SetStatus(INACTIVO)]);
      UpdateWorkerRows(once, id, [SetStatus(INACTIVO)]) == once
  {
    var i := IndexOfKey(rows, WorkerId, id);
    if i >= 0 {
      var once := UpdateWorkerRows(rows, id, [SetStatus(INACTIVO)]);
      SingleWorkerKwarg(rows[i], SetStatus(INACTIVO));
      SingleWorkerKwarg(once[i], SetStatus(INACTIVO));
      assert forall j :: 0 <= j < |once| ==> once[j].id == rows[j].id;
      assert IndexOfKey(once, WorkerId, id) == i;
    }
  }

  /** Creating a worker keeps emails unique: the creator refuses a taken
      email, so a collection with distinct emails stays so. */
  lemma AddKeepsEmailsUnique(rows: seq<Worker>, w: Worker)
    requires KeysDistinct(rows, WorkerEmail)
    requires !EmailInUse(rows, w.email)
    ensures KeysDistinct(rows + [w], WorkerEmail)
  {
  }

  /** `actualizar_trabajador` does not check email uniqueness again: from the
      seeded document, giving worker 2 worker 1's email succeeds and leaves
      two workers with one email. */
  lemma UpdateMayDuplicateEmail()
    ensures IndexOfKey(SeedWorkers(), WorkerId, 2) >= 0
    ensures !KeysDistinct(UpdateWorkerRows(SeedWorkers(), 2, [SetEmail("juan@empresa.com")]), WorkerEmail)
  {
    var rows := SeedWorkers();
    assert IndexOfKey(rows, WorkerId, 2) == 1;
    var r := UpdateWorkerRows(rows, 2, [SetEmail("juan@empresa.com")]);
    SingleWorkerKwarg(rows[1], SetEmail("juan@empresa.com"));
    assert r[0].email == r[1].email;
  }

  /** `actualizar_rubro` accepts `id` because every category record has that
      key: from the seeded document, renumbering category 1 to 5 leaves an id
      that is not below the counter, and the next `agregar_rubro` then hands
      out 5 a second time. */
  lemma CategoryIdRewriteBreaksCounter()
    ensures IndexOfKey(SeedCategories(), CategoryId, 1) == 0
    ensures var r := UpdateCategoryRows(SeedCategories(), 1, [SetCategoryId(5)]);
      && !CategoriesValid(r, SEED_CATEGORIES_NEXT_ID)
      && !NameInUse(r, "Soporte")
      && !KeysDistinct(r + [Category(SEED_CATEGORIES_NEXT_ID, "Soporte", "", true)], CategoryId)
  {
    var rows := SeedCategories();
    var r := UpdateCategoryRows(rows, 1, [SetCategoryId(5)]);
    assert [SetCategoryId(5)][..0] == [];
    assert r[0].id == 5;
    var r' := r + [Category(SEED_CATEGORIES_NEXT_ID, "Soporte", "", true)];
    assert r'[0].id == r'[4].id;
  }

  /** After an upsert on a ledger with at most one row per triple, that still
      holds, and the triple's one row carries the new hours. */
  lemma UpsertLeavesOneRow(rows: seq<HourRow>, nextId: nat, t: Triple, hours: real)
    requires KeysDistinct(rows, TripleOf)
    ensures var r := UpsertRows(rows, nextId, t, hours).0;
      && KeysDistinct(r, TripleOf)
      && (exists i :: 0 <= i < |r| && TripleOf(r[i]) == t)
      && forall i :: 0 <= i < |r| && TripleOf(r[i]) == t ==> r[i].hours == hours
  {
    var r := UpsertRows(rows, nextId, t, hours).0;
    var i := IndexOfKey(rows, TripleOf, t);
    if i < 0 {
      assert TripleOf(r[|rows|]) == t;
    } else {
      assert TripleOf(r[i]) == t;
    }
  }

  /** Latest call wins: upserting the same triple twice is one upsert with
      the second value (one row, not two, and no second id). */
  lemma UpsertTwice(rows: seq<HourRow>, nextId: nat, t: Triple, h1: real, h2: real)
    ensures var first := UpsertRows(rows, nextId, t, h1);
      UpsertRows(first.0, first.1, t, h2) == UpsertRows(rows, nextId, t, h2)
  {
    var first := UpsertRows(rows, nextId, t, h1);
    var i := IndexOfKey(rows, TripleOf, t);
    if i >= 0 {
      assert forall j :: 0 <= j < |rows| ==> TripleOf(first.0[j]) == TripleOf(rows[j]);
      assert IndexOfKey(first.0, TripleOf, t) == i;
      assert first.0[i := first.0[i].(hours := h2)] == rows[i := rows[i].(hours := h2)];
    } else {
      assert forall j :: 0 <= j < |rows| ==> first.0[j] == rows[j];
      assert TripleOf(first.0[|rows|]) == t;
      assert IndexOfKey(first.0, TripleOf, t) == |rows|;
      var added := HourRow(nextId, t.workerId, t.categoryId, h1, t.year);
      assert (rows + [added])[|rows| := added.(hours := h2)] == rows + [added.(hours := h2)];
    }
  }
}
