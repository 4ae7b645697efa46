/** The three record shapes of the flat-file store, as they appear in
    `trabajadores.json`, `rubros.json` and `horas_asignadas.json`, plus the
    key functions the invariants are phrased with. */
module Records {

  datatype Option<T> = None | Some(value: T)

  /** The `(id, None)` / `(None, message)` pair the creators return. */
  datatype Result<T> = Ok(value: T) | Err(message: string)

  /** Python truthiness of an optional text value: null and "" are false. */
  predicate Truthy(v: Option<string>) { v.Some? && v.value != "" }

  /** Values of the worker `estatus` key. */
  const ACTIVO: string := "activo"
  const INACTIVO: string := "inactivo"

  /** A worker: keys id, nombre, email, telefono, area, foto (null or an
      encoded image), estatus. */
  datatype Worker = Worker(
    id: int,
    name: string,
    email: string,
    phone: string,
    area: string,
    photo: Option<string>,
    status: string)

  /** A category ("rubro"): keys id, nombre, descripcion, activo. */
  datatype Category = Category(id: int, name: string, description: string, active: bool)

  /** A ledger row: keys id, trabajador_id, rubro_id, horas, año. */
  datatype HourRow = HourRow(id: int, workerId: int, categoryId: int, hours: real, year: int)

  /** The uniqueness key of the hours ledger. */
  datatype Triple = Triple(workerId: int, categoryId: int, year: int)

  function WorkerId(w: Worker): int { w.id }
  function WorkerEmail(w: Worker): string { w.email }
  function CategoryId(c: Category): int { c.id }
  function CategoryName(c: Category): string { c.name }
  function HourId(h: HourRow): int { h.id }
  function TripleOf(h: HourRow): Triple { Triple(h.workerId, h.categoryId, h.year) }
}
