/** Principals: the server-created identities of package auth, and the rules that tie their fields. */
module Principals {
  import opened Wrappers
  import opened Utf8
  import opened GoStrings

  const HUMAN: Bytes := Ascii("human")
  const OPERATOR: Bytes := Ascii("operator")
  const AGENT: Bytes := Ascii("agent")
  const ADMIN: Bytes := Ascii("admin")
  const VIEWER: Bytes := Ascii("viewer")

  type Uuid = nat
  const NIL_UUID: Uuid := 0

  datatype Principal = Principal(kind: Bytes, subject: Bytes, role: Bytes, satelliteId: Uuid)

  /** The zero Principal, which constructors return beside an error. */
  const ZERO := Principal([], [], [], NIL_UUID)

  datatype Invalid = SubjectRequired | RoleInvalid | CannotBind | NoHumanRole | BindingRequired | UnknownKind

  predicate Blank(s: Bytes) {
    TrimSpace(s) == []
  }

  /** Principal.Validate. */
  function Validate(p: Principal): Option<Invalid> {
    if Blank(p.subject) then Some(SubjectRequired)
    else if p.kind == HUMAN then
      if p.role != ADMIN && p.role != VIEWER then Some(RoleInvalid)
      else if p.satelliteId != NIL_UUID then Some(CannotBind)
      else None
    else if p.kind == OPERATOR then
      if p.role != [] then Some(NoHumanRole)
      else if p.satelliteId != NIL_UUID then Some(CannotBind)
      else None
    else if p.kind == AGENT then
      if p.role != [] then Some(NoHumanRole)
      else if p.satelliteId == NIL_UUID then Some(BindingRequired)
      else None
    else Some(UnknownKind)
  }

  function NewPrincipal(p: Principal): Result<Principal, Invalid> {
    match Validate(p)
    case None => Ok(p)
    case Some(e) => Err(e)
  }

  function NewHuman(subject: Bytes, role: Bytes): Result<Principal, Invalid> {
    NewPrincipal(Principal(HUMAN, subject, role, NIL_UUID))
  }

  function NewOperator(subject: Bytes): Result<Principal, Invalid> {
    NewPrincipal(Principal(OPERATOR, subject, [], NIL_UUID))
  }

  function NewAgent(subject: Bytes, satelliteId: Uuid): Result<Principal, Invalid> {
    NewPrincipal(Principal(AGENT, subject, [], satelliteId))
  }

  /** The (role, ok) pair of Principal.HumanRole. */
  function HumanRole(p: Principal): (Bytes, bool) {
    if p.kind != HUMAN then ([], false) else (p.role, true)
  }

  /** The (id, ok) pair of Principal.SatelliteID. */
  function SatelliteId(p: Principal): (Uuid, bool) {
    if p.kind != AGENT || p.satelliteId == NIL_UUID then (NIL_UUID, false) else (p.satelliteId, true)
  }

  lemma KindsDiffer()
    ensures HUMAN != OPERATOR && HUMAN != AGENT && OPERATOR != AGENT && ADMIN != VIEWER
    ensures [] != ADMIN && [] != VIEWER
  {
    assert HUMAN[0] == 'h' as int && OPERATOR[0] == 'o' as int && AGENT[0] == 'a' as int;
    assert ADMIN[0] == 'a' as int && VIEWER[0] == 'v' as int;
  }

  /** The rules of validity, all of them. */
  lemma ValidIsExact(p: Principal)
    ensures Validate(p) == None <==>
              && !Blank(p.subject)
              && (|| (p.kind == Ascii("human") && (p.role == Ascii("admin") || p.role == Ascii("viewer")) && p.satelliteId == 0)
                  || (p.kind == Ascii("operator") && p.role == [] && p.satelliteId == 0)
                  || (p.kind == Ascii("agent") && p.role == [] && p.satelliteId != 0))
    ensures Blank(p.subject) ==> Validate(p) == Some(SubjectRequired)
  {
    KindsDiffer();
  }

  /** The valid principals are exactly what the three constructors can produce, and a valid principal is
      of one kind only: a human role goes with no satellite, a satellite binding with no human role. */
  lemma ValidMeansConstructed(p: Principal)
    ensures Validate(p) == None <==>
              || NewHuman(p.subject, p.role) == Ok(p)
              || NewOperator(p.subject) == Ok(p)
              || NewAgent(p.subject, p.satelliteId) == Ok(p)
    ensures Validate(p) == None ==>
              && (HumanRole(p).1 <==> p.role == ADMIN || p.role == VIEWER)
              && (SatelliteId(p).1 <==> p.satelliteId != NIL_UUID)
              && !(HumanRole(p).1 && SatelliteId(p).1)
  {
    KindsDiffer();
  }
}
