/**
 * Event records, the relevance filter, component extraction and the category
 * classifier of the guardian (SystemGuardian.py, lines 115-167).  Reading the
 * Windows event log and formatting its message text are outside the model: a
 * raw event arrives with its message already formatted.
 */
module Events {
  import opened Wrappers
  import opened Text

  // Values of win32evtlog.EVENTLOG_ERROR_TYPE and EVENTLOG_WARNING_TYPE.
  const EVENTLOG_ERROR_TYPE: int := 1
  const EVENTLOG_WARNING_TYPE: int := 2

  /** A platform event as read from the System log, message already formatted. */
  datatype RawEvent = RawEvent(
    timeGenerated: int,
    source: string,
    eventId: int,
    eventType: int,
    message: string)

  /** One severity's configured sources and event ids. */
  datatype PatternSet = PatternSet(sources: seq<string>, eventIds: seq<int>)

  /** The `event_patterns` configuration: one pattern set per severity. */
  datatype EventPatterns = EventPatterns(warnings: PatternSet, errors: PatternSet)

  /** The configuration used when `event_patterns.json` is absent. */
  const DefaultEventPatterns: EventPatterns := EventPatterns(
    PatternSet(["Service Control Manager", "Disk", "Netwtw14"], [1001, 6062, 219]),
    PatternSet(["DCOM", "DriverFrameworks-UserMode", "Service Control Manager"], [10005, 10010, 7000, 7009]))

  predicate MatchesPatternSet(ps: PatternSet, ev: RawEvent) {
    ev.source in ps.sources || ev.eventId in ps.eventIds
  }

  /**
   * is_relevant_event: warnings are checked against the warning lists, errors
   * against the error lists, and an event of any other type is never relevant.
   */
  function IsRelevantEvent(patterns: EventPatterns, ev: RawEvent): (r: bool)
    ensures r ==> ev.eventType == EVENTLOG_WARNING_TYPE || ev.eventType == EVENTLOG_ERROR_TYPE
    ensures ev.eventType == EVENTLOG_WARNING_TYPE ==> (r <==> MatchesPatternSet(patterns.warnings, ev))
    ensures ev.eventType == EVENTLOG_ERROR_TYPE ==> (r <==> MatchesPatternSet(patterns.errors, ev))
  {
    if ev.eventType == EVENTLOG_WARNING_TYPE then
      ev.source in patterns.warnings.sources || ev.eventId in patterns.warnings.eventIds
    else if ev.eventType == EVENTLOG_ERROR_TYPE then
      ev.source in patterns.errors.sources || ev.eventId in patterns.errors.eventIds
    else
      false
  }

  /** Pattern set `a` is contained in pattern set `b`. */
  predicate SubPatternSet(a: PatternSet, b: PatternSet) {
    (forall s :: s in a.sources ==> s in b.sources) && (forall id :: id in a.eventIds ==> id in b.eventIds)
  }

  /** Widening the configured lists never makes a relevant event irrelevant. */
  lemma RelevanceMonotone(p: EventPatterns, q: EventPatterns, ev: RawEvent)
    requires SubPatternSet(p.warnings, q.warnings) && SubPatternSet(p.errors, q.errors)
    ensures IsRelevantEvent(p, ev) ==> IsRelevantEvent(q, ev)
  {
  }

  // ---------------------------------------------------------------------------
  // extract_component: three fixed regular expressions, searched in order, all
  // case-insensitive:
  //   service   service\s+(?:"(.+?)")
  //   driver    driver\s+(?:"(.+?)")
  //   dcom      CLSID\s+\{([A-F0-9-]+)\}
  // ---------------------------------------------------------------------------

  datatype Rule = ServiceRule | DriverRule | DcomRule

  /** The key of the rule, which becomes the kind part of a component id. */
  function Label(rule: Rule): string {
    match rule
    case ServiceRule => "service"
    case DriverRule => "driver"
    case DcomRule => "dcom"
  }

  /** The literal that opens the rule's pattern, in lower case. */
  function Keyword(rule: Rule): string {
    match rule
    case ServiceRule => "service"
    case DriverRule => "driver"
    case DcomRule => "clsid"
  }

  /** `kw` (lower case) occurs at `p` in `m`, ignoring the case of ASCII letters. */
  predicate KeywordAt(m: string, kw: string, p: nat) {
    p + |kw| <= |m| && AsciiLower(m[p..p + |kw|]) == kw
  }

  /** The end of the run of whitespace that starts at `i` (greedy `\s+` / `\s*`). */
  function SpaceRunEnd(m: string, i: nat): (e: nat)
    requires i <= |m|
    ensures i <= e <= |m|
    decreases |m| - i
  {
    if i == |m| || !IsSpace(m[i]) then i else SpaceRunEnd(m, i + 1)
  }

  /** The run is all whitespace and ends at the end of `m` or at a non-whitespace character. */
  lemma {:induction false} SpaceRunEndSpec(m: string, i: nat)
    requires i <= |m|
    ensures forall j :: i <= j < SpaceRunEnd(m, i) ==> IsSpace(m[j])
    ensures SpaceRunEnd(m, i) < |m| ==> !IsSpace(m[SpaceRunEnd(m, i)])
    decreases |m| - i
  {
    if i < |m| && IsSpace(m[i]) {
      SpaceRunEndSpec(m, i + 1);
    }
  }

  /** The end of the run of `[A-F0-9-]` characters that starts at `i`. */
  function HexRunEnd(m: string, i: nat): (e: nat)
    requires i <= |m|
    ensures i <= e <= |m|
    decreases |m| - i
  {
    if i == |m| || !IsHexOrDash(m[i]) then i else HexRunEnd(m, i + 1)
  }

  /** The run is all `[A-F0-9-]` and ends at the end of `m` or at a character outside the class. */
  lemma {:induction false} HexRunEndSpec(m: string, i: nat)
    requires i <= |m|
    ensures forall j :: i <= j < HexRunEnd(m, i) ==> IsHexOrDash(m[j])
    ensures HexRunEnd(m, i) < |m| ==> !IsHexOrDash(m[HexRunEnd(m, i)])
    decreases |m| - i
  {
    if i < |m| && IsHexOrDash(m[i]) {
      HexRunEndSpec(m, i + 1);
    }
  }

  /**
   * The lazy `(.+?)"` after at least one character has been taken: the first
   * quote at or after `j`, provided no newline comes before it.
   */
  function LazyClose(m: string, j: nat): (r: Option<nat>)
    requires j <= |m|
    ensures r.Some? ==> j <= r.value < |m| && m[r.value] == '"'
    decreases |m| - j
  {
    if j == |m| then None
    else if m[j] == '"' then Some(j)
    else if m[j] == '\n' then None
    else LazyClose(m, j + 1)
  }

  /** Before the quote it finds there is neither a quote nor a newline. */
  lemma {:induction false} LazyCloseSpec(m: string, j: nat)
    requires j <= |m| && LazyClose(m, j).Some?
    ensures forall k :: j <= k < LazyClose(m, j).value ==> m[k] != '"' && m[k] != '\n'
    decreases |m| - j
  {
    if m[j] != '"' {
      LazyCloseSpec(m, j + 1);
    }
  }

  /** What `re.match` of the rule's pattern at position `p` captures, if it matches there. */
  function MatchAt(rule: Rule, m: string, p: nat): (r: Option<string>)
    requires p <= |m|
    ensures r.Some? ==> |r.value| > 0
  {
    if KeywordAt(m, Keyword(rule), p) then CaptureAfter(rule, m, p + |Keyword(rule)|) else None
  }

  /** The rest of the pattern after its keyword, from `q`: `\s+` and then the delimited capture. */
  function CaptureAfter(rule: Rule, m: string, q: nat): (r: Option<string>)
    requires q <= |m|
    ensures r.Some? ==> |r.value| > 0
  {
    var w := SpaceRunEnd(m, q);
    if w == q then None else Delimited(rule, m, w)
  }

  /**
   * The delimited part of the pattern from `w`: `\{([A-F0-9-]+)\}` for the
   * CLSID rule (greedy), `"(.+?)"` for the others (lazy, no newline).
   */
  function Delimited(rule: Rule, m: string, w: nat): (r: Option<string>)
    requires w <= |m|
    ensures r.Some? ==> |r.value| > 0
  {
    if w == |m| then None
    else if rule == DcomRule then
      if m[w] != '{' then None
      else
        var e := HexRunEnd(m, w + 1);
        if e == w + 1 || e == |m| || m[e] != '}' then None else Some(m[w + 1..e])
    else if m[w] != '"' || w + 1 == |m| || m[w + 1] == '\n' then None
    else
      match LazyClose(m, w + 2)
      case None => None
      case Some(e) => Some(m[w + 1..e])
  }

  /**
   * The declarative reading of the delimited part at `w`: an opening
   * delimiter at `w`, the capture strictly between `w` and `e`, and the
   * closing delimiter at `e`.  For the quoted rules the capture holds no
   * newline and (the lazy `.+?`) no quote after its first character; for the
   * CLSID rule it is all `[A-F0-9-]`.
   */
  ghost predicate DelimitedShape(rule: Rule, m: string, w: nat, e: nat) {
    && w + 1 < e < |m|
    && if rule == DcomRule then
         m[w] == '{' && m[e] == '}' && forall j :: w < j < e ==> IsHexOrDash(m[j])
       else
         && m[w] == '"' && m[e] == '"'
         && (forall j :: w < j < e ==> m[j] != '\n')
         && (forall j :: w + 1 < j < e ==> m[j] != '"')
  }

  /**
   * The declarative reading of a rule's pattern matching at `p`: keyword,
   * whitespace from its end up to `w`, and the delimited capture from `w` to `e`.
   */
  ghost predicate MatchShape(rule: Rule, m: string, p: nat, w: nat, e: nat) {
    var q := p + |Keyword(rule)|;
    && q < w
    && KeywordAt(m, Keyword(rule), p)
    && DelimitedShape(rule, m, w, e)
    && (forall j :: q <= j < w ==> IsSpace(m[j]))
  }

  /** Every capture `Delimited` reports has the declarative shape. */
  lemma DelimitedSound(rule: Rule, m: string, w: nat) returns (e: nat)
    requires w <= |m| && Delimited(rule, m, w).Some?
    ensures DelimitedShape(rule, m, w, e) && Delimited(rule, m, w).value == m[w + 1..e]
  {
    if rule == DcomRule {
      e := HexRunEnd(m, w + 1);
      HexRunEndSpec(m, w + 1);
    } else {
      e := LazyClose(m, w + 2).value;
      LazyCloseSpec(m, w + 2);
    }
  }

  /** Every capture `MatchAt` reports has the declarative shape. */
  lemma MatchAtSound(rule: Rule, m: string, p: nat)
    requires p <= |m| && MatchAt(rule, m, p).Some?
    ensures exists w: nat, e: nat :: MatchShape(rule, m, p, w, e) && MatchAt(rule, m, p).value == m[w + 1..e]
  {
    var q := p + |Keyword(rule)|;
    assert KeywordAt(m, Keyword(rule), p);
    var w := SpaceRunEnd(m, q);
    assert MatchAt(rule, m, p) == Delimited(rule, m, w);
    SpaceRunEndSpec(m, q);
    var e := DelimitedSound(rule, m, w);
    assert MatchShape(rule, m, p, w, e);
  }

  lemma {:induction false} SpaceRunEndAt(m: string, i: nat, e: nat)
    requires i <= e < |m| && !IsSpace(m[e])
    requires forall j :: i <= j < e ==> IsSpace(m[j])
    ensures SpaceRunEnd(m, i) == e
    decreases e - i
  {
    if i < e {
      SpaceRunEndAt(m, i + 1, e);
    }
  }

  lemma {:induction false} HexRunEndAt(m: string, i: nat, e: nat)
    requires i <= e < |m| && !IsHexOrDash(m[e])
    requires forall j :: i <= j < e ==> IsHexOrDash(m[j])
    ensures HexRunEnd(m, i) == e
    decreases e - i
  {
    if i < e {
      HexRunEndAt(m, i + 1, e);
    }
  }

  lemma {:induction false} LazyCloseAt(m: string, j: nat, e: nat)
    requires j <= e < |m| && m[e] == '"'
    requires forall k :: j <= k < e ==> m[k] != '"' && m[k] != '\n'
    ensures LazyClose(m, j) == Some(e)
    decreases e - j
  {
    if j < e {
      LazyCloseAt(m, j + 1, e);
    }
  }

  /** Whenever the declarative shape is present at `p`, `MatchAt` finds exactly that capture. */
  lemma MatchAtComplete(rule: Rule, m: string, p: nat, w: nat, e: nat)
    requires MatchShape(rule, m, p, w, e)
    ensures MatchAt(rule, m, p) == Some(m[w + 1..e])
  {
    var q := p + |Keyword(rule)|;
    SpaceRunEndAt(m, q, w);
    DelimitedComplete(rule, m, w, e);
    assert CaptureAfter(rule, m, q) == Some(m[w + 1..e]);
  }

  lemma DelimitedComplete(rule: Rule, m: string, w: nat, e: nat)
    requires DelimitedShape(rule, m, w, e)
    ensures Delimited(rule, m, w) == Some(m[w + 1..e])
  {
    if rule == DcomRule {
      HexRunEndAt(m, w + 1, e);
    } else {
      LazyCloseAt(m, w + 2, e);
    }
  }

  /** The rule matches somewhere in `m`. */
  ghost predicate Matches(rule: Rule, m: string) {
    exists p: nat :: p <= |m| && MatchAt(rule, m, p).Some?
  }

  /** `k` is the leftmost position at which the rule matches: what `re.search` reports. */
  ghost predicate LeftmostMatchAt(rule: Rule, m: string, k: nat) {
    && k <= |m|
    && MatchAt(rule, m, k).Some?
    && forall q: nat :: q < k ==> MatchAt(rule, m, q).None?
  }

  /**
   * The outcome of trying the rule at each position of `m` in turn, from the
   * start up to and including the end of the string.
   */
  function Attempts(rule: Rule, m: string): (hits: seq<Option<string>>)
    ensures |hits| == |m| + 1
  {
    seq(|m| + 1, q requires 0 <= q <= |m| => MatchAt(rule, m, q))
  }

  /** The first successful attempt at or after position `p`. */
  function FirstHit(hits: seq<Option<string>>, p: nat): Option<string>
    requires p <= |hits|
    decreases |hits| - p
  {
    if p == |hits| then None
    else if hits[p].Some? then hits[p]
    else FirstHit(hits, p + 1)
  }

  /** No attempt from `p` up to `k` (exclusive) succeeds. */
  ghost predicate NoHitBetween(hits: seq<Option<string>>, p: nat, k: nat) {
    forall q: nat :: p <= q < k && q < |hits| ==> hits[q].None?
  }

  /** Nothing is found from `p` on exactly when no attempt from `p` on succeeds. */
  lemma {:induction false} FirstHitNone(hits: seq<Option<string>>, p: nat)
    requires p <= |hits|
    ensures FirstHit(hits, p).None? <==> NoHitBetween(hits, p, |hits|)
    decreases |hits| - p
  {
    if p < |hits| && hits[p].None? {
      FirstHitNone(hits, p + 1);
    }
  }

  /** What is found from `p` on is the attempt at the leftmost successful position. */
  lemma {:induction false} FirstHitLeftmost(hits: seq<Option<string>>, p: nat)
    requires p <= |hits| && FirstHit(hits, p).Some?
    ensures exists k: nat :: p <= k < |hits| && hits[k] == FirstHit(hits, p) && NoHitBetween(hits, p, k)
    decreases |hits| - p
  {
    if hits[p].Some? {
      assert NoHitBetween(hits, p, p);
    } else {
      FirstHitLeftmost(hits, p + 1);
      var k: nat :| p + 1 <= k < |hits| && hits[k] == FirstHit(hits, p + 1) && NoHitBetween(hits, p + 1, k);
      assert NoHitBetween(hits, p, k);
    }
  }

  /**
   * `re.search(pattern, m, re.IGNORECASE)` followed by `group(1)`: the
   * capture of the first position, scanning from the start, where the rule
   * matches.
   */
  function Search(rule: Rule, m: string): (r: Option<string>)
    ensures r.Some? ==> |r.value| > 0
  {
    FirstHitNonEmpty(rule, m, 0);
    FirstHit(Attempts(rule, m), 0)
  }

  /** Every attempt that succeeds captures a non-empty text, so whatever the scan finds is non-empty. */
  lemma {:induction false} FirstHitNonEmpty(rule: Rule, m: string, p: nat)
    requires p <= |m| + 1
    ensures FirstHit(Attempts(rule, m), p).Some? ==> |FirstHit(Attempts(rule, m), p).value| > 0
    decreases |m| + 1 - p
  {
    if p <= |m| {
      var hits := Attempts(rule, m);
      assert hits[p] == MatchAt(rule, m, p);
      if hits[p].None? {
        FirstHitNonEmpty(rule, m, p + 1);
      }
    }
  }

  /** The search fails exactly when the rule matches nowhere, and otherwise reports the leftmost match. */
  lemma SearchSpec(rule: Rule, m: string)
    ensures Search(rule, m).None? <==> !Matches(rule, m)
    ensures Search(rule, m).Some? ==> exists k: nat :: LeftmostMatchAt(rule, m, k) && MatchAt(rule, m, k) == Search(rule, m)
  {
    var hits := Attempts(rule, m);
    FirstHitNone(hits, 0);
    if Search(rule, m).Some? {
      FirstHitLeftmost(hits, 0);
      var k: nat :| k < |hits| && hits[k] == Search(rule, m) && NoHitBetween(hits, 0, k);
      assert hits[k] == MatchAt(rule, m, k);
      forall q: nat | q < k ensures MatchAt(rule, m, q).None? {
        assert hits[q] == MatchAt(rule, m, q);
      }
      assert LeftmostMatchAt(rule, m, k);
    } else {
      forall p: nat | p <= |m| ensures MatchAt(rule, m, p).None? {
        assert hits[p] == MatchAt(rule, m, p);
      }
    }
  }

  const UNKNOWN_COMPONENT := "unknown"

  /**
   * extract_component: the rules are tried in table order and the first one
   * that matches anywhere gives `kind:capture`; no match gives "unknown".
   */
  function ExtractComponent(message: string): (id: string)
    ensures id == UNKNOWN_COMPONENT
            <==> Search(ServiceRule, message).None? && Search(DriverRule, message).None? && Search(DcomRule, message).None?
  {
    FirstMatchId(Search(ServiceRule, message), Search(DriverRule, message), Search(DcomRule, message))
  }

  /** The id built from the three rules' search results, taken in table order. */
  function FirstMatchId(service: Option<string>, driver: Option<string>, dcom: Option<string>): (id: string)
    ensures id == UNKNOWN_COMPONENT <==> service.None? && driver.None? && dcom.None?
  {
    match service
    case Some(cap) => RuleId(ServiceRule, cap)
    case None =>
      match driver
      case Some(cap) => RuleId(DriverRule, cap)
      case None =>
        match dcom
        case Some(cap) => RuleId(DcomRule, cap)
        case None => UNKNOWN_COMPONENT
  }

  /** `label:capture`, which never reads "unknown". */
  function RuleId(rule: Rule, cap: string): (id: string)
    ensures id == Label(rule) + ":" + cap
    ensures id != UNKNOWN_COMPONENT
  {
    var id := Label(rule) + ":" + cap;
    assert id[0] == Label(rule)[0] != UNKNOWN_COMPONENT[0];
    id
  }

  /** The kind prefix of an id tells which search decided it. */
  lemma FirstMatchIdKind(service: Option<string>, driver: Option<string>, dcom: Option<string>, rule: Rule)
    requires StartsWith(FirstMatchId(service, driver, dcom), Label(rule) + ":")
    ensures rule == ServiceRule ==> service.Some?
    ensures rule == DriverRule ==> service.None? && driver.Some?
    ensures rule == DcomRule ==> service.None? && driver.None? && dcom.Some?
  {
    var id := FirstMatchId(service, driver, dcom);
    var pre := Label(rule) + ":";
    assert id[0] == pre[0] && id[1] == pre[1] by {
      assert id[..|pre|] == pre;
    }
    if service.Some? {
      assert id[0] == 's';
    } else if driver.Some? {
      assert id[0] == 'd' && id[1] == 'r';
    } else if dcom.Some? {
      assert id[0] == 'd' && id[1] == 'c';
    }
  }

  /** The id `ExtractComponent` builds from a rule's leftmost match in `m`. */
  ghost predicate IdFromLeftmost(rule: Rule, m: string, id: string) {
    exists k: nat :: LeftmostMatchAt(rule, m, k) && id == Label(rule) + ":" + MatchAt(rule, m, k).value
  }

  /**
   * The service rule decides whenever it matches; the driver rule only when the
   * service rule matches nowhere; the CLSID rule only when neither does; the
   * result is "unknown" exactly when none matches.
   */
  lemma ExtractComponentFirstMatchWins(m: string)
    ensures Matches(ServiceRule, m) ==> IdFromLeftmost(ServiceRule, m, ExtractComponent(m))
    ensures !Matches(ServiceRule, m) && Matches(DriverRule, m) ==> IdFromLeftmost(DriverRule, m, ExtractComponent(m))
    ensures !Matches(ServiceRule, m) && !Matches(DriverRule, m) && Matches(DcomRule, m)
            ==> IdFromLeftmost(DcomRule, m, ExtractComponent(m))
    ensures ExtractComponent(m) == UNKNOWN_COMPONENT
            <==> !Matches(ServiceRule, m) && !Matches(DriverRule, m) && !Matches(DcomRule, m)
  {
    var id := ExtractComponent(m);
    SearchSpec(ServiceRule, m);
    SearchSpec(DriverRule, m);
    SearchSpec(DcomRule, m);
    if Matches(ServiceRule, m) {
      RuleIdFromSearch(ServiceRule, m, id);
    } else if Matches(DriverRule, m) {
      RuleIdFromSearch(DriverRule, m, id);
    } else if Matches(DcomRule, m) {
      RuleIdFromSearch(DcomRule, m, id);
    }
  }

  /** An id built from a successful search is the leftmost match's id, and is not "unknown". */
  lemma RuleIdFromSearch(rule: Rule, m: string, id: string)
    requires Search(rule, m).Some? && id == Label(rule) + ":" + Search(rule, m).value
    ensures IdFromLeftmost(rule, m, id) && id != UNKNOWN_COMPONENT
  {
    SearchSpec(rule, m);
    assert id[|Label(rule)|] == ':';
    assert ':' !in UNKNOWN_COMPONENT;
  }

  // ---------------------------------------------------------------------------
  // classify_event
  // ---------------------------------------------------------------------------

  const CRITICAL_COM := "critical_com"
  const CRITICAL_DRIVER := "critical_driver"
  const SYSTEM_ERROR := "system_error"
  const SERVICE_WARNING := "service_warning"
  const HARDWARE_WARNING := "hardware_warning"

  const Categories: set<string> := {CRITICAL_COM, CRITICAL_DRIVER, SYSTEM_ERROR, SERVICE_WARNING, HARDWARE_WARNING}

  predicate IsErrorCategory(category: string) {
    category == CRITICAL_COM || category == CRITICAL_DRIVER || category == SYSTEM_ERROR
  }

  /**
   * classify_event: one of the five labels, and an error label exactly when
   * the event is of error type.
   */
  function ClassifyEvent(eventType: int, message: string): (r: string)
    ensures r in Categories
    ensures IsErrorCategory(r) <==> eventType == EVENTLOG_ERROR_TYPE
  {
    if eventType == EVENTLOG_ERROR_TYPE then
      if Contains(message, "DCOM") || Contains(message, "CLSID") then CRITICAL_COM
      else if Contains(AsciiLower(message), "driver") then CRITICAL_DRIVER
      else SYSTEM_ERROR
    else if Contains(AsciiLower(message), "service") then SERVICE_WARNING
    else HARDWARE_WARNING
  }

  /**
   * Which label each event gets.  The `DCOM`/`CLSID` test is case-sensitive
   * and wins over the driver test; the driver and service tests ignore case.
   */
  lemma ClassifyEventLabels(eventType: int, message: string)
    ensures var com := Contains(message, "DCOM") || Contains(message, "CLSID");
            var r := ClassifyEvent(eventType, message);
            && (r == CRITICAL_COM <==> eventType == EVENTLOG_ERROR_TYPE && com)
            && (r == CRITICAL_DRIVER <==> eventType == EVENTLOG_ERROR_TYPE && !com && Contains(AsciiLower(message), "driver"))
            && (r == SYSTEM_ERROR <==> eventType == EVENTLOG_ERROR_TYPE && !com && !Contains(AsciiLower(message), "driver"))
            && (r == SERVICE_WARNING <==> eventType != EVENTLOG_ERROR_TYPE && Contains(AsciiLower(message), "service"))
            && (r == HARDWARE_WARNING <==> eventType != EVENTLOG_ERROR_TYPE && !Contains(AsciiLower(message), "service"))
  {
  }

  /** A rule's match puts its keyword, lower-cased, into the lower-cased message. */
  lemma MatchImpliesKeyword(rule: Rule, m: string, p: nat)
    requires p <= |m| && MatchAt(rule, m, p).Some?
    ensures Contains(AsciiLower(m), Keyword(rule))
  {
    var kw := Keyword(rule);
    assert AsciiLower(m)[p..p + |kw|] == AsciiLower(m[p..p + |kw|]);
    assert OccursAt(AsciiLower(m), kw, p);
  }

  /** A component id of kind `Label(rule)` is only produced when that rule matched. */
  lemma ExtractedKindMatched(m: string, rule: Rule)
    requires StartsWith(ExtractComponent(m), Label(rule) + ":")
    ensures Matches(rule, m)
  {
    FirstMatchIdKind(Search(ServiceRule, m), Search(DriverRule, m), Search(DcomRule, m), rule);
    SearchSpec(rule, m);
  }

  /**
   * Extraction and classification agree on drivers and services: an error
   * whose component is a driver is never a plain `system_error`, and a
   * non-error event whose component is a service is a `service_warning`.
   */
  lemma ClassifyAgreesWithExtraction(eventType: int, m: string)
    ensures StartsWith(ExtractComponent(m), "driver:") && eventType == EVENTLOG_ERROR_TYPE
            ==> ClassifyEvent(eventType, m) in {CRITICAL_COM, CRITICAL_DRIVER}
    ensures StartsWith(ExtractComponent(m), "service:") && eventType != EVENTLOG_ERROR_TYPE
            ==> ClassifyEvent(eventType, m) == SERVICE_WARNING
  {
    if StartsWith(ExtractComponent(m), "driver:") {
      assert Label(DriverRule) + ":" == "driver:";
      ExtractedKindMatched(m, DriverRule);
      var k: nat :| k <= |m| && MatchAt(DriverRule, m, k).Some?;
      MatchImpliesKeyword(DriverRule, m, k);
    }
    if StartsWith(ExtractComponent(m), "service:") {
      assert Label(ServiceRule) + ":" == "service:";
      ExtractedKindMatched(m, ServiceRule);
      var k: nat :| k <= |m| && MatchAt(ServiceRule, m, k).Some?;
      MatchImpliesKeyword(ServiceRule, m, k);
    }
  }

  /** A needle with a character that `s` lacks does not occur in `s`. */
  lemma NotContainedWithoutChar(s: string, needle: string, j: nat)
    requires j < |needle| && needle[j] !in s
    ensures !Contains(s, needle)
  {
    forall i: nat | i <= |s| ensures !OccursAt(s, needle, i) {
    }
  }

  /**
   * The two case rules differ: the CLSID pattern ignores case but the
   * `critical_com` test does not, so an error mentioning `clsid {AB}` in lower
   * case yields a DCOM component yet is classified `system_error`.
   */
  lemma LowerCaseClsidIsNotCriticalCom(m: string)
    requires m == "clsid {AB}"
    ensures ExtractComponent(m) == "dcom:AB"
    ensures ClassifyEvent(EVENTLOG_ERROR_TYPE, m) == SYSTEM_ERROR
  {
    LowerCaseClsidKeywords(m);
    LowerCaseClsidNoQuotedRule(m);
    LowerCaseClsidMatch(m);
    assert Label(DcomRule) + ":" + "AB" == "dcom:AB";
  }

  lemma LowerCaseClsidNoQuotedRule(m: string)
    requires !Contains(AsciiLower(m), "service") && !Contains(AsciiLower(m), "driver")
    ensures Search(ServiceRule, m).None? && Search(DriverRule, m).None?
  {
    forall p: nat | p <= |m|
      ensures MatchAt(ServiceRule, m, p).None? && MatchAt(DriverRule, m, p).None?
    {
      if MatchAt(ServiceRule, m, p).Some? { MatchImpliesKeyword(ServiceRule, m, p); }
      if MatchAt(DriverRule, m, p).Some? { MatchImpliesKeyword(DriverRule, m, p); }
    }
    SearchSpec(ServiceRule, m);
    SearchSpec(DriverRule, m);
  }

  lemma LowerCaseClsidKeywords(m: string)
    requires m == "clsid {AB}"
    ensures !Contains(AsciiLower(m), "service") && !Contains(AsciiLower(m), "driver")
    ensures !Contains(m, "DCOM") && !Contains(m, "CLSID")
  {
    var l := AsciiLower(m);
    assert l == "clsid {ab}";
    NotContainedWithoutChar(l, "service", 1);
    NotContainedWithoutChar(l, "driver", 1);
    NotContainedWithoutChar(m, "DCOM", 0);
    NotContainedWithoutChar(m, "CLSID", 0);
  }

  lemma LowerCaseClsidMatch(m: string)
    requires m == "clsid {AB}"
    ensures Search(DcomRule, m) == Some("AB")
  {
    assert MatchShape(DcomRule, m, 0, 6, 9) by {
      assert AsciiLower(m[0..5]) == "clsid";
    }
    MatchAtComplete(DcomRule, m, 0, 6, 9);
    assert m[7..9] == "AB";
  }

  // ---------------------------------------------------------------------------
  // process_event and the filter loop of monitor_event_logs
  // ---------------------------------------------------------------------------

  /** The dictionary process_event builds for a relevant event. */
  datatype ProcessedEvent = ProcessedEvent(
    timestamp: int,
    source: string,
    eventId: int,
    eventType: int,
    message: string,
    component: string,
    category: string)

  function ProcessEvent(ev: RawEvent): (r: ProcessedEvent)
    ensures r.eventType == ev.eventType && r.message == ev.message
    ensures r.category in Categories
    ensures IsErrorCategory(r.category) <==> ev.eventType == EVENTLOG_ERROR_TYPE
    ensures r.component == UNKNOWN_COMPONENT
            <==> Search(ServiceRule, ev.message).None? && Search(DriverRule, ev.message).None? && Search(DcomRule, ev.message).None?
  {
    ProcessedEvent(ev.timeGenerated, ev.source, ev.eventId, ev.eventType, ev.message,
                   ExtractComponent(ev.message), ClassifyEvent(ev.eventType, ev.message))
  }

  /** The events a poll puts on the event queue, in the order the poll returns them: the relevant ones, processed. */
  function RelevantProcessed(patterns: EventPatterns, batch: seq<RawEvent>): (r: seq<ProcessedEvent>)
    ensures |r| <= |batch|
  {
    if |batch| == 0 then []
    else
      var rest := RelevantProcessed(patterns, batch[1..]);
      if IsRelevantEvent(patterns, batch[0]) then [ProcessEvent(batch[0])] + rest else rest
  }

  /**
   * The filter drops events and never adds any: every queued event is a
   * warning or an error, its category is an error category exactly when it
   * is an error, and when every event is relevant none is dropped.
   */
  lemma {:induction false} RelevantProcessedShape(patterns: EventPatterns, batch: seq<RawEvent>)
    ensures var r := RelevantProcessed(patterns, batch);
            && |r| <= |batch|
            && (forall i :: 0 <= i < |r| ==>
                  && (r[i].eventType == EVENTLOG_WARNING_TYPE || r[i].eventType == EVENTLOG_ERROR_TYPE)
                  && (IsErrorCategory(r[i].category) <==> r[i].eventType == EVENTLOG_ERROR_TYPE))
            && ((forall i :: 0 <= i < |batch| ==> IsRelevantEvent(patterns, batch[i])) ==> |r| == |batch|)
    decreases |batch|
  {
    if |batch| > 0 {
      RelevantProcessedShape(patterns, batch[1..]);
      var rest := RelevantProcessed(patterns, batch[1..]);
      assert forall i :: 1 <= i < |batch| ==> batch[i] == batch[1..][i - 1];
      if IsRelevantEvent(patterns, batch[0]) {
        var r := [ProcessEvent(batch[0])] + rest;
        assert RelevantProcessed(patterns, batch) == r;
        forall i | 1 <= i < |r| ensures r[i] == rest[i - 1] { }
      }
    }
  }

  /** Filtering a batch one more event long appends that event's contribution. */
  lemma {:induction false} RelevantProcessedAppend(patterns: EventPatterns, batch: seq<RawEvent>, ev: RawEvent)
    ensures RelevantProcessed(patterns, batch + [ev])
            == RelevantProcessed(patterns, batch) + (if IsRelevantEvent(patterns, ev) then [ProcessEvent(ev)] else [])
    decreases |batch|
  {
    if |batch| == 0 {
      assert batch + [ev] == [ev];
    } else {
      assert (batch + [ev])[1..] == batch[1..] + [ev];
      RelevantProcessedAppend(patterns, batch[1..], ev);
    }
  }

  /** The filter of a batch prefix one event longer. */
  lemma RelevantProcessedStep(patterns: EventPatterns, batch: seq<RawEvent>, i: nat)
    requires i < |batch|
    ensures IsRelevantEvent(patterns, batch[i])
            ==> RelevantProcessed(patterns, batch[..i + 1]) == RelevantProcessed(patterns, batch[..i]) + [ProcessEvent(batch[i])]
    ensures !IsRelevantEvent(patterns, batch[i])
            ==> RelevantProcessed(patterns, batch[..i + 1]) == RelevantProcessed(patterns, batch[..i])
  {
    assert batch[..i + 1] == batch[..i] + [batch[i]];
    RelevantProcessedAppend(patterns, batch[..i], batch[i]);
  }
}
