/**
  The data the diagnostic-event repository works on: one report of an
  occurrence, the aggregated record kept per error code, and the live map
  from error code to record.
 */
module DiagnosticEvents {
  import Wrappers

  /** Severity of a report; the values of Microsoft.Extensions.Logging.LogLevel. */
  datatype LogLevel = Trace | Debug | Information | Warning | Error | Critical | None

  /**
    The aggregated record (the repository's DiagnosticEvent). Timestamps are
    DateTime values written as ticks. Message and help link are nullable
    strings in the repository, so either may be absent. `details` is the
    formatted exception text, absent when the report carried no exception.
   */
  datatype Event = Event(
    errorCode: string,
    message: Wrappers.Option<string>,
    level: LogLevel,
    helpLink: Wrappers.Option<string>,
    details: Wrappers.Option<string>,
    lastTimeStamp: int,
    hitCount: int)

  /** The arguments of one AddDiagnosticEvent call. */
  datatype Report = Report(
    timestamp: int,
    errorCode: string,
    level: LogLevel,
    message: Wrappers.Option<string>,
    helpLink: Wrappers.Option<string>,
    details: Wrappers.Option<string>)

  /** The live accumulator: error code to aggregated record. */
  type Events = map<string, Event>

  /**
    The record built for a report before it is upserted. Its hit count is
    whatever a newly constructed DiagnosticEvent carries, which the caller
    supplies as `initialHitCount`.
   */
  function NewEvent(rep: Report, initialHitCount: int): Event {
    Event(rep.errorCode, rep.message, rep.level, rep.helpLink, rep.details, rep.timestamp, initialHitCount)
  }

  /** Two records agree on every field a repeated report leaves alone. */
  predicate SameContent(a: Event, b: Event) {
    && a.errorCode == b.errorCode
    && a.message == b.message
    && a.level == b.level
    && a.helpLink == b.helpLink
    && a.details == b.details
  }

  /** Every record is filed under its own error code. */
  ghost predicate WellKeyed(events: Events) {
    forall code :: code in events ==> events[code].errorCode == code
  }

  /** `small` is `big` with some entries deleted and no record altered. */
  ghost predicate IsSubMap(small: Events, big: Events) {
    forall code :: code in small ==> code in big && small[code] == big[code]
  }
}
