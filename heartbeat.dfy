/**
 * ServerRegistrationEventHandler: on each routed request, decides from the
 * routing outcome whether to consider a heartbeat, throttles heartbeats on the
 * time of the last one, and swallows any failure of the heartbeat write.
 *
 * Times are DateTime ticks; "now" is always a parameter.
 */
module Heartbeat {
  import opened Common
  import opened Registration
  import opened Registrar

  /** EnsureRoutableOutcome; `Other` stands for a value outside the named members. */
  datatype EnsureRoutableOutcome =
    | IsRoutable
    | NotDocumentRequest
    | NotReady
    | NotConfigured
    | NoContent
    | Other(code: int)

  /** DateTime.MinValue. */
  const MinValue := 0

  /**
   * The RouteAttempt filter: no request or no URL, nothing; a routable request
   * always goes on to the update check; a non-document request only when it is
   * for the back office; every other outcome never.
   */
  function ShouldCheckForUpdate(hasRequest: bool, hasUrl: bool, outcome: EnsureRoutableOutcome,
                                isBackOfficeRequest: bool): (r: bool)
    ensures r <==> hasRequest && hasUrl &&
                   (outcome == IsRoutable || (outcome == NotDocumentRequest && isBackOfficeRequest))
  {
    if !hasRequest || !hasUrl then false
    else match outcome
      case IsRoutable => true
      case NotDocumentRequest => isBackOfficeRequest
      case NotReady => false
      case NotConfigured => false
      case NoContent => false
      case Other(_) => false
  }

  /** The heartbeat throttle: due once at least `throttleSeconds` have passed (inclusive). */
  predicate ThrottleElapsed(now: int, lastUpdated: int, throttleSeconds: int) {
    now - lastUpdated >= throttleSeconds * TicksPerSecond
  }

  class ServerRegistrationEventHandler {
    /** The time of the last heartbeat attempt (a static field of the handler). */
    var lastUpdated: int
    /** The number of heartbeat failures logged. */
    var loggedErrors: nat
    const registrar: DatabaseServerRegistrar

    constructor (registrar: DatabaseServerRegistrar)
      ensures this.registrar == registrar
      ensures lastUpdated == MinValue && loggedErrors == 0
    {
      this.registrar := registrar;
      lastUpdated := MinValue;
      loggedErrors := 0;
    }

    /**
     * Handles one route attempt. A heartbeat happens when the outcome filter
     * passes and the throttle has elapsed; the time is recorded before the write,
     * so a failed write still uses up the window. `storeFails` says whether
     * EnsureActive throws; the exception is logged and never propagated.
     */
    method UmbracoModuleRouteAttempt(hasRequest: bool, hasUrl: bool, outcome: EnsureRoutableOutcome,
                                     isBackOfficeRequest: bool, now: int,
                                     address: string, computerName: string, storeFails: bool)
      modifies this, registrar.registrationService.store
      ensures var store := registrar.registrationService.store;
        var due := ShouldCheckForUpdate(hasRequest, hasUrl, outcome, isBackOfficeRequest) &&
                   ThrottleElapsed(now, old(lastUpdated), registrar.options.throttleSeconds);
        (!due ==> unchanged(this) && unchanged(store)) &&
        (due ==> lastUpdated == now) &&
        (due && storeFails ==> loggedErrors == old(loggedErrors) + 1 && unchanged(store)) &&
        (due && !storeFails ==>
           loggedErrors == old(loggedErrors) &&
           store.rows == Sweep(Upsert(old(store.rows), address, computerName, now),
                               store.isStale, registrar.options.staleServerTimeout, now) &&
           store.commits == old(store.commits) + 1)
    {
      if !ShouldCheckForUpdate(hasRequest, hasUrl, outcome, isBackOfficeRequest) {
        return;
      }
      PerformUpdateCheck(now, address, computerName, storeFails);
    }

    method PerformUpdateCheck(now: int, address: string, computerName: string, storeFails: bool)
      modifies this, registrar.registrationService.store
      ensures var store := registrar.registrationService.store;
        var due := ThrottleElapsed(now, old(lastUpdated), registrar.options.throttleSeconds);
        (!due ==> unchanged(this) && unchanged(store)) &&
        (due ==> lastUpdated == now) &&
        (due && storeFails ==> loggedErrors == old(loggedErrors) + 1 && unchanged(store)) &&
        (due && !storeFails ==>
           loggedErrors == old(loggedErrors) &&
           store.rows == Sweep(Upsert(old(store.rows), address, computerName, now),
                               store.isStale, registrar.options.staleServerTimeout, now) &&
           store.commits == old(store.commits) + 1)
    {
      if ThrottleElapsed(now, lastUpdated, registrar.options.throttleSeconds) {
        lastUpdated := now;
        UpdateServerEntry(now, address, computerName, storeFails);
      }
    }

    method UpdateServerEntry(now: int, address: string, computerName: string, storeFails: bool)
      modifies this`loggedErrors, registrar.registrationService.store
      ensures var store := registrar.registrationService.store;
        (storeFails ==> loggedErrors == old(loggedErrors) + 1 && unchanged(store)) &&
        (!storeFails ==>
           loggedErrors == old(loggedErrors) &&
           store.rows == Sweep(Upsert(old(store.rows), address, computerName, now),
                               store.isStale, registrar.options.staleServerTimeout, now) &&
           store.commits == old(store.commits) + 1)
    {
      if storeFails {
        loggedErrors := loggedErrors + 1;
      } else {
        registrar.registrationService.EnsureActive(address, computerName,
                                                   registrar.options.staleServerTimeout, now);
      }
    }
  }

  /**
   * The handler throttles with `>=` where the messenger skips with `<=`: at
   * exactly the throttle interval a heartbeat is due, while a sync at exactly
   * its own interval is skipped.
   */
  lemma ThrottleBoundaryInclusive(lastUpdated: int, throttleSeconds: int)
    ensures ThrottleElapsed(lastUpdated + throttleSeconds * TicksPerSecond, lastUpdated, throttleSeconds)
    ensures !ThrottleElapsed(lastUpdated + throttleSeconds * TicksPerSecond - 1, lastUpdated, throttleSeconds)
  {
  }

  /** Starting from DateTime.MinValue, the first eligible request at any real clock time is due. */
  lemma FirstRequestIsDue(now: int)
    requires now >= DefaultOptions.throttleSeconds * TicksPerSecond
    ensures ThrottleElapsed(now, MinValue, DefaultOptions.throttleSeconds)
  {
  }
}
