/**
 * The machine service's registration call. Both daemons (the current one and
 * the older standalone one) implement it with the same code.
 */
module MachineService {
  import opened Common
  import opened Proto
  import Uuid

  /**
   * `MonitorSvc::register_machine`: a request that carries an identifier gets
   * that identifier back unchanged; a request without one gets a freshly
   * minted version-4 UUID, built from the bytes `random` drawn for this call.
   */
  function RegisterMachine(request: MachineInfo, random: Uuid.UuidBytes): (reply: MachineClientId)
    ensures request.uuid.Some? ==> reply.uuid == request.uuid.value
    ensures request.uuid.None? ==> reply.uuid == Uuid.NewV4String(random)
    ensures request.uuid.None? ==> |reply.uuid| == 36 && reply.uuid[14] == '4'
  {
    match request.uuid
    case Some(id) => MachineClientId(id)
    case None =>
      Uuid.NewV4Shape(random);
      MachineClientId(Uuid.NewV4String(random))
  }

  /**
   * Registration is idempotent for a client that keeps its identifier: sending
   * back the identifier it was given, with any other readings, returns it again.
   */
  lemma ReRegistrationEchoes(first: MachineInfo, later: MachineInfo, r1: Uuid.UuidBytes, r2: Uuid.UuidBytes)
    requires later.uuid == Some(RegisterMachine(first, r1).uuid)
    ensures RegisterMachine(later, r2) == RegisterMachine(first, r1)
  {
  }

  /**
   * Two registrations without an identifier get different identifiers exactly
   * when their random draws differ outside the version and variant bits.
   */
  lemma FreshRegistrationsDiffer(a: MachineInfo, b: MachineInfo, ra: Uuid.UuidBytes, rb: Uuid.UuidBytes)
    requires a.uuid.None? && b.uuid.None?
    ensures RegisterMachine(a, ra) != RegisterMachine(b, rb) <==> Uuid.Stamp(ra) != Uuid.Stamp(rb)
  {
    Uuid.NewV4Injective(ra, rb);
  }
}
