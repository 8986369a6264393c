/**
  The upsert half of the repository: AddDiagnosticEvent folds one report
  into the live map, and ReportAll folds a whole sequence of reports, one
  after another, as a single thread of callers would.
 */
module EventAccumulator {
  import opened DiagnosticEvents

  /**
    One report. A code not yet in the map gets the freshly built record; a
    code already present keeps its record, with the hit count raised by one
    and the timestamp replaced. Message, level, help link and details of a
    present record are NOT refreshed.
   */
  function AddDiagnosticEvent(events: Events, rep: Report, initialHitCount: int): (r: Events)
    ensures r.Keys == events.Keys + {rep.errorCode}
    ensures forall code :: code in events && code != rep.errorCode ==> r[code] == events[code]
    ensures rep.errorCode !in events ==>
              var e := r[rep.errorCode];
              && e.errorCode == rep.errorCode && e.message == rep.message && e.level == rep.level
              && e.helpLink == rep.helpLink && e.details == rep.details
              && e.lastTimeStamp == rep.timestamp && e.hitCount == initialHitCount
    ensures rep.errorCode in events ==>
              var was, now := events[rep.errorCode], r[rep.errorCode];
              && now.hitCount == was.hitCount + 1
              && now.lastTimeStamp == rep.timestamp
              && SameContent(now, was)
    ensures forall code :: code in events ==> r[code].hitCount >= events[code].hitCount
    ensures WellKeyed(events) ==> WellKeyed(r)
  {
    var code := rep.errorCode;
    if code in events then
      var was := events[code];
      events[code := was.(hitCount := was.hitCount + 1, lastTimeStamp := rep.timestamp)]
    else
      events[code := NewEvent(rep, initialHitCount)]
  }

  /** The map after the reports arrive in order, each one a call of AddDiagnosticEvent. */
  function ReportAll(events: Events, reports: seq<Report>, initialHitCount: int): Events
    decreases |reports|
  {
    if |reports| == 0 then events
    else ReportAll(AddDiagnosticEvent(events, reports[0], initialHitCount), reports[1..], initialHitCount)
  }

  /** How many of the reports carry `code`. */
  function Count(reports: seq<Report>, code: string): nat
    decreases |reports|
  {
    if |reports| == 0 then 0
    else (if reports[0].errorCode == code then 1 else 0) + Count(reports[1..], code)
  }

  /** The error codes the reports carry. */
  function Codes(reports: seq<Report>): set<string> {
    set i | 0 <= i < |reports| :: reports[i].errorCode
  }

  /** Reports only ever add keys: afterwards the map holds the old codes and the reported ones. */
  lemma {:induction false} ReportAllKeys(events: Events, reports: seq<Report>, initialHitCount: int)
    ensures ReportAll(events, reports, initialHitCount).Keys == events.Keys + Codes(reports)
    decreases |reports|
  {
    if |reports| > 0 {
      var next := AddDiagnosticEvent(events, reports[0], initialHitCount);
      ReportAllKeys(next, reports[1..], initialHitCount);
      assert Codes(reports) == {reports[0].errorCode} + Codes(reports[1..]) by {
        forall c | c in Codes(reports) ensures c in {reports[0].errorCode} + Codes(reports[1..]) {
          var i :| 0 <= i < |reports| && reports[i].errorCode == c;
          if i > 0 { assert reports[1..][i - 1] == reports[i]; }
        }
        forall c | c in Codes(reports[1..]) ensures c in Codes(reports) {
          var i :| 0 <= i < |reports[1..]| && reports[1..][i].errorCode == c;
          assert reports[i + 1] == reports[1..][i];
        }
      }
    }
  }

  /**
    A code already in the map: every further report of it adds one to the
    hit count, and none of them changes the record's content fields.
   */
  lemma {:induction false} KnownCodeAccumulates(events: Events, reports: seq<Report>, initialHitCount: int, code: string)
    requires code in events
    ensures var r := ReportAll(events, reports, initialHitCount);
            && code in r
            && r[code].hitCount == events[code].hitCount + Count(reports, code)
            && SameContent(r[code], events[code])
            && (Count(reports, code) == 0 ==> r[code] == events[code])
    decreases |reports|
  {
    if |reports| > 0 {
      var next := AddDiagnosticEvent(events, reports[0], initialHitCount);
      KnownCodeAccumulates(next, reports[1..], initialHitCount, code);
    }
  }

  /**
    A code not yet in the map: its record takes its content from the FIRST
    report carrying it, and its hit count is the initial one plus one for
    every later report of the same code.
   */
  lemma {:induction false} NewCodeKeepsFirstReport(events: Events, reports: seq<Report>, initialHitCount: int, code: string, first: nat)
    requires code !in events
    requires first < |reports| && reports[first].errorCode == code
    requires forall j :: 0 <= j < first ==> reports[j].errorCode != code
    ensures var r := ReportAll(events, reports, initialHitCount);
            && code in r
            && SameContent(r[code], NewEvent(reports[first], initialHitCount))
            && r[code].hitCount == initialHitCount + Count(reports, code) - 1
    decreases |reports|
  {
    var next := AddDiagnosticEvent(events, reports[0], initialHitCount);
    if first == 0 {
      KnownCodeAccumulates(next, reports[1..], initialHitCount, code);
    } else {
      assert reports[0].errorCode != code;
      forall j | 0 <= j < first - 1 ensures reports[1..][j].errorCode != code {
        assert reports[1..][j] == reports[j + 1];
      }
      NewCodeKeepsFirstReport(next, reports[1..], initialHitCount, code, first - 1);
    }
  }

  /** The stored timestamp is that of the LAST report carrying the code. */
  lemma {:induction false} LastTimeStampIsLatest(events: Events, reports: seq<Report>, initialHitCount: int, code: string, last: nat)
    requires last < |reports| && reports[last].errorCode == code
    requires forall j :: last < j < |reports| ==> reports[j].errorCode != code
    ensures var r := ReportAll(events, reports, initialHitCount);
            code in r && r[code].lastTimeStamp == reports[last].timestamp
    decreases |reports|
  {
    var next := AddDiagnosticEvent(events, reports[0], initialHitCount);
    if last == 0 {
      NoCountWithoutCode(reports[1..], code);
      KnownCodeAccumulates(next, reports[1..], initialHitCount, code);
    } else {
      forall j | last - 1 < j < |reports[1..]| ensures reports[1..][j].errorCode != code {
        assert reports[1..][j] == reports[j + 1];
      }
      LastTimeStampIsLatest(next, reports[1..], initialHitCount, code, last - 1);
    }
  }

  /** A sequence with no report of `code` counts none of it. */
  lemma {:induction false} NoCountWithoutCode(reports: seq<Report>, code: string)
    requires forall j :: 0 <= j < |reports| ==> reports[j].errorCode != code
    ensures Count(reports, code) == 0
    decreases |reports|
  {
    if |reports| > 0 {
      assert reports[0].errorCode != code;
      forall j | 0 <= j < |reports[1..]| ensures reports[1..][j].errorCode != code {
        assert reports[1..][j] == reports[j + 1];
      }
      NoCountWithoutCode(reports[1..], code);
    }
  }
}
