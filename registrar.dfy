/**
 * DatabaseServerRegistrar: the read-only view of the registration table that
 * the rest of the platform sees, holding its registration service lazily and
 * the options the heartbeat trigger reads.
 */
module Registrar {
  import opened Common
  import opened Registration

  /** DatabaseServerRegistrarOptions; the stale timeout is a TimeSpan in ticks. */
  datatype DatabaseServerRegistrarOptions = DatabaseServerRegistrarOptions(
    throttleSeconds: int,
    staleServerTimeout: int)

  /** The defaults: a 30-second throttle and a stale timeout of one hour. */
  const DefaultOptions := DatabaseServerRegistrarOptions(30, 3600 * TicksPerSecond)

  datatype DatabaseServerRegistrar = DatabaseServerRegistrar(
    options: DatabaseServerRegistrarOptions,
    registrationService: ServerRegistrationService)

  /**
   * The constructor: `Options` is exactly the object passed in, and a null
   * service is reported before a null options object. It reads no state, so
   * constructing a registrar never touches the registration table.
   */
  function NewRegistrar(registrationService: Option<ServerRegistrationService>,
                        options: Option<DatabaseServerRegistrarOptions>): (r: Construction<DatabaseServerRegistrar>)
    ensures registrationService.None? ==> r == ArgumentNull("registrationService")
    ensures registrationService.Some? && options.None? ==> r == ArgumentNull("options")
    ensures r.Constructed? <==> registrationService.Some? && options.Some?
    ensures r.Constructed? ==>
      r.value.options == options.value && r.value.registrationService == registrationService.value
  {
    if registrationService.None? then ArgumentNull("registrationService")
    else if options.None? then ArgumentNull("options")
    else Constructed(DatabaseServerRegistrar(options.value, registrationService.value))
  }

  /** `Registrations`: exactly what the service's GetActiveServers returns at the time of the read. */
  method Registrations(registrar: DatabaseServerRegistrar) returns (servers: seq<Registration>)
    ensures servers == ActiveOf(registrar.registrationService.store.rows)
    ensures forall i :: 0 <= i < |servers| ==>
      servers[i] in registrar.registrationService.store.rows && servers[i].isActive
  {
    servers := registrar.registrationService.GetActiveServers();
  }
}
