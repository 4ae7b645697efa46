/** Role-based access rules. The session values the source reads from the
    UI's session state (`role`, `area`, `trabajador_id`) are passed in as a
    `Session`; an absent key is `None`. */
module Roles {
  import opened Seqs
  import opened Records

  const ADMIN: string := "admin"
  const SUPERVISOR: string := "supervisor"
  const TRABAJADOR: string := "trabajador"

  datatype Session = Session(role: Option<string>, area: Option<string>, workerId: Option<int>)

  /** What the `require_role` wrapper does: stop with "log in first", stop
      with "access denied", or run the wrapped page. */
  datatype Gate = NotLoggedIn | Denied | Granted

  function RequireRole(s: Session, allowed: seq<string>): (g: Gate)
    ensures g == Granted <==> s.role.Some? && s.role.value in allowed
    ensures g == NotLoggedIn <==> s.role.None?
  {
    if s.role.None? then NotLoggedIn
    else if s.role.value !in allowed then Denied
    else Granted
  }

  /** `can_edit_worker(id, data)`. `None` is the lookup of a missing `role`
      key, which raises in the source. */
  function CanEditWorker(s: Session, id: int, data: seq<Worker>): (r: Option<bool>)
    ensures r.None? <==> s.role.None?
    ensures s.role == Some(ADMIN) ==> r == Some(true)
    ensures s.role == Some(SUPERVISOR) && (forall t :: t in data ==> t.id != id) ==> r == Some(false)
    ensures s.role == Some(SUPERVISOR) && r == Some(true) ==>
      exists t :: t in data && t.id == id && s.area == Some(t.area)
    ensures s.role == Some(SUPERVISOR) && KeysDistinct(data, WorkerId) ==>
      (r == Some(true) <==> exists t :: t in data && t.id == id && s.area == Some(t.area))
    ensures s.role == Some(TRABAJADOR) ==> (r == Some(true) <==> s.workerId == Some(id))
    ensures s.role.Some? && s.role.value !in {ADMIN, SUPERVISOR, TRABAJADOR} ==> r == Some(false)
  {
    if s.role.None? then None
    else if s.role.value == ADMIN then Some(true)
    else if s.role.value == SUPERVISOR then
      var i := IndexOfKey(data, WorkerId, id);
      if i >= 0 then
        if s.area == Some(data[i].area) then Some(true) else Some(false)
      else
        Some(false)
    else if s.role.value == TRABAJADOR then
      Some(s.workerId == Some(id))
    else
      Some(false)
  }

  /** `get_accessible_workers(data)`. `None` as above. */
  function AccessibleWorkers(s: Session, data: seq<Worker>): (r: Option<seq<Worker>>)
    ensures r.None? <==> s.role.None?
    ensures r.Some? ==> Subseq(r.value, data)
    ensures s.role == Some(ADMIN) ==> r == Some(data)
    ensures s.role == Some(SUPERVISOR) ==>
      forall t :: t in r.value <==> t in data && s.area == Some(t.area)
    ensures s.role == Some(TRABAJADOR) ==>
      forall t :: t in r.value <==> t in data && s.workerId == Some(t.id)
    ensures s.role.Some? && s.role.value !in {ADMIN, SUPERVISOR, TRABAJADOR} ==> r == Some([])
  {
    if s.role.None? then None
    else if s.role.value == ADMIN then
      SubseqRefl(data);
      Some(data)
    else if s.role.value == SUPERVISOR then
      Some(Filter(data, (t: Worker) => s.area == Some(t.area)))
    else if s.role.value == TRABAJADOR then
      Some(Filter(data, (t: Worker) => s.workerId == Some(t.id)))
    else
      Some([])
  }

  /** The two rules agree: with distinct ids and a role present, a listed
      worker is exactly one its caller may edit. */
  lemma AccessibleMeansEditable(s: Session, data: seq<Worker>, t: Worker)
    requires s.role.Some?
    requires KeysDistinct(data, WorkerId)
    requires t in data
    ensures t in AccessibleWorkers(s, data).value <==> CanEditWorker(s, t.id, data) == Some(true)
  {
    if s.role == Some(SUPERVISOR) {
      var j :| 0 <= j < |data| && data[j] == t;
      IndexOfDistinct(data, WorkerId, t.id, j);
    }
  }
}
