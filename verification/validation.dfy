/** The decision made by `check_stream_key`: connect to the store, build the
    query from the composite name, look the stream key up, test its expiry,
    and log the decision. The store, the clock and the log's time stamp are
    injected. */
module Validation {
  import opened Wrappers
  import opened Calendar
  import opened Timestamp
  import opened Credential
  import AuditLog

  const NotFoundMsg := "Stream key not found"
  const ExpiredMsg := "Stream key expired"
  const AcceptedMsg := "Stream key accepted"

  const ConnectPrefix := "Error connecting to MongoDB: "
  const ClientPrefix := "Error creating MongoDB client: "
  const FindPrefix := "Error finding stream key: "

  /** The body of a publish check: the publisher's address and stream name. */
  datatype PublishData = PublishData(ip: string, name: string)

  /** The store query: exact stream key and user name, not suspended, and
      the address not in the record's blacklist. */
  datatype Filter = Filter(streamkey: string, username: string, ip: string)

  /** A matching record, seen through its `end_duration` field: None when
      that field is absent or not a string. */
  datatype Record = Record(endDuration: Option<string>)

  /** What getting a store client yields before any query is made. */
  datatype Setup =
    | MissingConfig           // DATABASE_URL or DATABASE_NAME is not set
    | ConnectFailed(reason: string)
    | ClientFailed(reason: string)
    | Connected

  /** What the store answers to a query. */
  datatype Lookup = LookupFailed(reason: string) | NoMatch | Match(record: Record)

  /** Where the Rust handler panics instead of returning. */
  datatype PanicCause = ConfigMissing | NameWithoutSlash | EndDurationMissing | EndDurationMalformed

  /** `Ok(valid)` and `Err(message)` are the returned result; `Panic` is a
      panic of the request's task. */
  datatype Outcome = Ok(valid: bool) | Err(message: string) | Panic(cause: PanicCause)

  /** The outcome of one check together with the log after it. */
  datatype Decision = Decision(outcome: Outcome, log: AuditLog.Log)

  /** The query built from a composite name: segment 1 of the name is the
      stream key, segment 0 the user name, and the publisher's address is the
      one the record's blacklist must not hold. A name without '/' has no
      segment 1, so no query can be built (the Rust handler panics there). */
  function FilterFor(name: string, ip: string): (f: Option<Filter>)
    ensures f.None? <==> Separator !in name
    ensures f.Some? ==> f.value == Filter(Split(name, Separator)[1], Split(name, Separator)[0], ip)
  {
    var c :- ParseName(name);
    Some(Filter(c.streamkey, c.username, ip))
  }

  /** The decision for a found record, given the UTC clock in whole seconds:
      a missing or unparseable `end_duration` panics and logs nothing;
      otherwise the record is valid exactly when its expiry, moved to UTC, is
      strictly after now, and that verdict is logged. */
  function Judge(data: PublishData, record: Record, now: int, stamp: string, log: AuditLog.Log): (d: Decision)
    ensures d.outcome == Panic(EndDurationMissing) <==> record.endDuration.None?
    ensures d.outcome == Panic(EndDurationMalformed) <==>
      record.endDuration.Some? && ParseExpiry(record.endDuration.value).None?
    ensures record.endDuration.Some? && ParseExpiry(record.endDuration.value).Some? ==> d.outcome.Ok?
    ensures !d.outcome.Ok? ==> d.outcome.Panic? && d.log == log
    ensures d.outcome.Ok? ==>
      && record.endDuration.Some?
      && ParseExpiry(record.endDuration.value).Some?
      && (d.outcome.valid <==> now < KolkataToUtc(ParseExpiry(record.endDuration.value).value))
      && d.log == AuditLog.Append(log, data.name, if d.outcome.valid then AcceptedMsg else ExpiredMsg, stamp)
  {
    match record.endDuration
    case None => Decision(Panic(EndDurationMissing), log)
    case Some(text) =>
      match IsExpired(text, now)
      case None => Decision(Panic(EndDurationMalformed), log)
      case Some(expired) =>
        if expired then Decision(Ok(false), AuditLog.Append(log, data.name, ExpiredMsg, stamp))
        else Decision(Ok(true), AuditLog.Append(log, data.name, AcceptedMsg, stamp))
  }

  /** One call of the check. A returned Ok logs exactly one entry, whose
      subject is the whole unsplit name and whose message tells why; an
      error or a panic leaves the log and its counter as they were. */
  function CheckStreamKey(data: PublishData, setup: Setup, lookup: Filter -> Lookup, now: int, stamp: string, log: AuditLog.Log): (d: Decision)
    ensures !d.outcome.Ok? ==> d.log == log
    ensures d.outcome == Ok(true) ==> d.log == AuditLog.Append(log, data.name, AcceptedMsg, stamp)
    ensures d.outcome == Ok(false) ==>
      d.log == AuditLog.Append(log, data.name, NotFoundMsg, stamp) ||
      d.log == AuditLog.Append(log, data.name, ExpiredMsg, stamp)
  {
    match setup
    case MissingConfig => Decision(Panic(ConfigMissing), log)
    case ConnectFailed(reason) => Decision(Err(ConnectPrefix + reason), log)
    case ClientFailed(reason) => Decision(Err(ClientPrefix + reason), log)
    case Connected =>
      match FilterFor(data.name, data.ip)
      case None => Decision(Panic(NameWithoutSlash), log)
      case Some(filter) =>
        match lookup(filter)
        case LookupFailed(reason) => Decision(Err(FindPrefix + reason), log)
        case NoMatch => Decision(Ok(false), AuditLog.Append(log, data.name, NotFoundMsg, stamp))
        case Match(record) => Judge(data, record, now, stamp, log)
  }

  /** Every call keeps the log's invariant, and the counter moves by one
      exactly when the call returns Ok. */
  lemma OneEntryPerDecision(data: PublishData, setup: Setup, lookup: Filter -> Lookup, now: int, stamp: string, log: AuditLog.Log)
    requires AuditLog.Valid(log)
    ensures var d := CheckStreamKey(data, setup, lookup, now, stamp, log);
      && AuditLog.Valid(d.log)
      && (d.outcome.Ok? <==> d.log.next == log.next + 1)
      && (!d.outcome.Ok? <==> d.log.next == log.next)
      && (d.outcome.Ok? ==> d.log.entries[|d.log.entries| - 1].streamkey == data.name)
  {
    AuditLog.AppendKeepsValid(log, data.name, AcceptedMsg, stamp);
    AuditLog.AppendKeepsValid(log, data.name, ExpiredMsg, stamp);
    AuditLog.AppendKeepsValid(log, data.name, NotFoundMsg, stamp);
  }

  /** The stream is accepted exactly when the client set-up succeeds, the
      name has a '/', the store returns a record for (segment 1, segment 0,
      ip) whose `end_duration` parses, and that Kolkata wall time, moved to
      UTC, is strictly after now. */
  lemma AcceptedIff(data: PublishData, setup: Setup, lookup: Filter -> Lookup, now: int, stamp: string, log: AuditLog.Log)
    ensures CheckStreamKey(data, setup, lookup, now, stamp, log).outcome == Ok(true) <==>
      && setup == Connected
      && Separator in data.name
      && var parts := Split(data.name, Separator);
      && var found := lookup(Filter(parts[1], parts[0], data.ip));
      && found.Match?
      && found.record.endDuration.Some?
      && var expiry := ParseExpiry(found.record.endDuration.value);
      && expiry.Some?
      && ToSeconds(expiry.value) - KolkataOffset > now
  {
    var d := CheckStreamKey(data, setup, lookup, now, stamp, log);
    if setup == Connected && Separator in data.name {
      var found := lookup(FilterFor(data.name, data.ip).value);
      if found.Match? {
        assert d == Judge(data, found.record, now, stamp, log);
      }
    }
  }

  /** The stream is refused with `Ok(false)` exactly when the client set-up
      succeeds, the name has a '/', and the store either has no record for
      (segment 1, segment 0, ip) or has one whose `end_duration` parses to a
      Kolkata wall time that, moved to UTC, is at or before now. */
  lemma RejectedIff(data: PublishData, setup: Setup, lookup: Filter -> Lookup, now: int, stamp: string, log: AuditLog.Log)
    ensures CheckStreamKey(data, setup, lookup, now, stamp, log).outcome == Ok(false) <==>
      && setup == Connected
      && Separator in data.name
      && var parts := Split(data.name, Separator);
      && var found := lookup(Filter(parts[1], parts[0], data.ip));
      && (|| found.NoMatch?
          || (&& found.Match?
              && found.record.endDuration.Some?
              && var expiry := ParseExpiry(found.record.endDuration.value);
              && expiry.Some?
              && ToSeconds(expiry.value) - KolkataOffset <= now))
  {
    var d := CheckStreamKey(data, setup, lookup, now, stamp, log);
    if setup == Connected && Separator in data.name {
      var found := lookup(FilterFor(data.name, data.ip).value);
      if found.Match? {
        assert d == Judge(data, found.record, now, stamp, log);
      }
    }
  }

  /** The check panics exactly when the configuration is missing, or the
      client set-up succeeds and either the name has no '/' or the record
      found has a missing or unparseable `end_duration`. */
  lemma PanicIff(data: PublishData, setup: Setup, lookup: Filter -> Lookup, now: int, stamp: string, log: AuditLog.Log)
    ensures CheckStreamKey(data, setup, lookup, now, stamp, log).outcome.Panic? <==>
      || setup == MissingConfig
      || (&& setup == Connected
          && (|| Separator !in data.name
              || var parts := Split(data.name, Separator);
                 var found := lookup(Filter(parts[1], parts[0], data.ip));
                 && found.Match?
                 && (found.record.endDuration.None? || ParseExpiry(found.record.endDuration.value).None?)))
  {
    var d := CheckStreamKey(data, setup, lookup, now, stamp, log);
    if setup == Connected && Separator in data.name {
      var found := lookup(FilterFor(data.name, data.ip).value);
      if found.Match? {
        assert d == Judge(data, found.record, now, stamp, log);
      }
    }
  }

  /** Missing configuration panics before anything else, and nothing is
      logged. */
  lemma MissingConfigPanics(data: PublishData, lookup: Filter -> Lookup, now: int, stamp: string, log: AuditLog.Log)
    ensures CheckStreamKey(data, MissingConfig, lookup, now, stamp, log) == Decision(Panic(ConfigMissing), log)
  {
  }

  /** A found record without an `end_duration` text panics, and nothing is
      logged. */
  lemma MissingEndDurationPanics(data: PublishData, lookup: Filter -> Lookup, now: int, stamp: string, log: AuditLog.Log)
    requires Separator in data.name
    requires lookup(FilterFor(data.name, data.ip).value) == Match(Record(None))
    ensures CheckStreamKey(data, Connected, lookup, now, stamp, log) == Decision(Panic(EndDurationMissing), log)
  {
    FoundRecordJudged(data, lookup, now, stamp, log, Record(None));
  }

  /** A found record whose `end_duration` does not parse panics rather than
      counting as expired, and nothing is logged. */
  lemma MalformedExpiryPanics(data: PublishData, lookup: Filter -> Lookup, now: int, stamp: string, log: AuditLog.Log, text: string)
    requires Separator in data.name
    requires lookup(FilterFor(data.name, data.ip).value) == Match(Record(Some(text)))
    requires ParseExpiry(text).None?
    ensures CheckStreamKey(data, Connected, lookup, now, stamp, log) == Decision(Panic(EndDurationMalformed), log)
  {
    FoundRecordJudged(data, lookup, now, stamp, log, Record(Some(text)));
  }

  /** Store answers nothing: not valid, logged as not found. */
  lemma NotFoundPath(data: PublishData, lookup: Filter -> Lookup, now: int, stamp: string, log: AuditLog.Log)
    requires Separator in data.name
    requires lookup(FilterFor(data.name, data.ip).value) == NoMatch
    ensures CheckStreamKey(data, Connected, lookup, now, stamp, log) ==
      Decision(Ok(false), AuditLog.Append(log, data.name, NotFoundMsg, stamp))
  {
  }

  /** An expiry equal to the current instant already counts as expired. */
  lemma ExpiryBoundary(data: PublishData, lookup: Filter -> Lookup, now: int, stamp: string, log: AuditLog.Log, text: string)
    requires Separator in data.name
    requires lookup(FilterFor(data.name, data.ip).value) == Match(Record(Some(text)))
    requires ParseExpiry(text).Some? && ToSeconds(ParseExpiry(text).value) - KolkataOffset == now
    ensures CheckStreamKey(data, Connected, lookup, now, stamp, log) ==
      Decision(Ok(false), AuditLog.Append(log, data.name, ExpiredMsg, stamp))
  {
    FoundRecordDecides(data, lookup, now, stamp, log, text, ParseExpiry(text).value);
  }

  /** For a found record the verdict is the comparison of the stored wall
      time with the Kolkata wall time of now, field by field: accepted
      exactly when the stored time is later. */
  lemma WallClockDecides(data: PublishData, lookup: Filter -> Lookup, now: int, nowLocal: DateTime, stamp: string, log: AuditLog.Log, text: string)
    requires Separator in data.name
    requires lookup(FilterFor(data.name, data.ip).value) == Match(Record(Some(text)))
    requires ParseExpiry(text).Some?
    requires Valid(nowLocal) && nowLocal.second <= 59 && ToSeconds(nowLocal) == now + KolkataOffset
    ensures CheckStreamKey(data, Connected, lookup, now, stamp, log).outcome == Ok(!NotAfter(ParseExpiry(text).value, nowLocal))
  {
    var expiry := ParseExpiry(text).value;
    FoundRecordDecides(data, lookup, now, stamp, log, text, expiry);
    SecondsOrder(expiry, nowLocal);
  }

  /** A name without '/' panics once the client set-up succeeds, before any
      query, and nothing is logged. */
  lemma NameWithoutSlashPanics(data: PublishData, lookup: Filter -> Lookup, now: int, stamp: string, log: AuditLog.Log)
    requires Separator !in data.name
    ensures CheckStreamKey(data, Connected, lookup, now, stamp, log) == Decision(Panic(NameWithoutSlash), log)
  {
  }

  /** Connection failures are reported before the name is looked at, so even
      a name without '/' gets the error rather than a panic. */
  lemma SetupErrorsComeFirst(data: PublishData, setup: Setup, lookup: Filter -> Lookup, now: int, stamp: string, log: AuditLog.Log)
    requires setup.ConnectFailed? || setup.ClientFailed?
    ensures CheckStreamKey(data, setup, lookup, now, stamp, log) ==
      Decision(Err((if setup.ConnectFailed? then ConnectPrefix else ClientPrefix) + setup.reason), log)
  {
  }

  /** A failing query is an error, and is not logged. */
  lemma QueryErrorNotLogged(data: PublishData, lookup: Filter -> Lookup, now: int, stamp: string, log: AuditLog.Log)
    requires Separator in data.name
    requires lookup(FilterFor(data.name, data.ip).value).LookupFailed?
    ensures CheckStreamKey(data, Connected, lookup, now, stamp, log) ==
      Decision(Err(FindPrefix + lookup(FilterFor(data.name, data.ip).value).reason), log)
  {
  }

  /** Once the record is found and its expiry parses, the outcome is decided
      by the instant alone: accepted strictly before the expiry, expired from
      it on, and logged under the full name either way. */
  lemma FoundRecordDecides(data: PublishData, lookup: Filter -> Lookup, now: int, stamp: string, log: AuditLog.Log, text: string, expiry: DateTime)
    requires Separator in data.name
    requires lookup(FilterFor(data.name, data.ip).value) == Match(Record(Some(text)))
    requires ParseExpiry(text) == Some(expiry)
    ensures var accepted := now < KolkataToUtc(expiry);
      CheckStreamKey(data, Connected, lookup, now, stamp, log) ==
      Decision(Ok(accepted), AuditLog.Append(log, data.name, if accepted then AcceptedMsg else ExpiredMsg, stamp))
  {
    FoundRecordJudged(data, lookup, now, stamp, log, Record(Some(text)));
    assert IsExpired(text, now) == Some(!(now < KolkataToUtc(expiry)));
  }

  /** A found record is handed to the expiry judgement unchanged. */
  lemma FoundRecordJudged(data: PublishData, lookup: Filter -> Lookup, now: int, stamp: string, log: AuditLog.Log, record: Record)
    requires Separator in data.name
    requires lookup(FilterFor(data.name, data.ip).value) == Match(record)
    ensures CheckStreamKey(data, Connected, lookup, now, stamp, log) == Judge(data, record, now, stamp, log)
  {
    var filter := FilterFor(data.name, data.ip).value;
    assert FilterFor(data.name, data.ip) == Some(filter);
  }

  /** "bob" has no '/', so the check panics and logs nothing. */
  lemma BobPanics(lookup: Filter -> Lookup, now: int, stamp: string, log: AuditLog.Log)
    ensures CheckStreamKey(PublishData("1.2.3.4", "bob"), Connected, lookup, now, stamp, log) == Decision(Panic(NameWithoutSlash), log)
  {
    assert Separator !in "bob";
  }
}
