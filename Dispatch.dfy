/**
 * Dispatch of a component id on its kind prefix, shared by attempt_repair
 * (SystemGuardian.py:253-265) and process_isolation_queue (lines 457-462),
 * and the record of calls into the Windows adapters and of user
 * notifications that the model keeps in place of performing them.
 */
module Dispatch {
  import opened Wrappers
  import opened Text
  import opened Events

  /** The three kinds of component the guardian can repair or isolate. */
  datatype Kind = Service | Driver | Dcom

  /** The name of a kind, as it appears in front of the colon of an id. */
  function KindWord(kind: Kind): string {
    match kind
    case Service => "service"
    case Driver => "driver"
    case Dcom => "dcom"
  }

  /** The prefix of a component id of this kind. */
  function Prefix(kind: Kind): string {
    KindWord(kind) + ":"
  }

  lemma KindWordHasNoColon(kind: Kind)
    ensures ':' !in KindWord(kind)
  {
  }

  /** No string starts with the prefixes of two different kinds. */
  lemma PrefixesExclusive(s: string, a: Kind, b: Kind)
    requires StartsWith(s, Prefix(a)) && StartsWith(s, Prefix(b))
    ensures a == b
  {
    assert s[0] == Prefix(a)[0] == Prefix(b)[0];
    assert s[1] == Prefix(a)[1] == Prefix(b)[1];
  }

  /** The kind whose ids the extraction rule produces. */
  function KindOf(rule: Rule): (kind: Kind)
    ensures KindWord(kind) == Label(rule)
  {
    match rule
    case ServiceRule => Service
    case DriverRule => Driver
    case DcomRule => Dcom
  }

  /**
   * `component.split(':')[1]` for an id that starts with a kind prefix: the
   * text after the prefix up to the next colon.
   */
  function NameAfterPrefix(component: string, kind: Kind): (name: string)
    requires StartsWith(component, Prefix(kind))
    ensures name == Split(component[|Prefix(kind)|..], ':')[0]
  {
    var p := Prefix(kind);
    assert component == KindWord(kind) + [':'] + component[|p|..] by {
      assert component[..|p|] == p;
    }
    KindWordHasNoColon(kind);
    SecondPiece(KindWord(kind), ':', component[|p|..]);
    Split(component, ':')[1]
  }

  /**
   * The adapter a component id is dispatched to and the name handed to it:
   * the prefixes are tried in the order service, driver, dcom; an id with none
   * of them reaches no adapter.
   */
  function Target(component: string): (t: Option<(Kind, string)>)
    ensures t.Some? ==> StartsWith(component, Prefix(t.value.0))
    ensures t.None? <==> forall kind: Kind :: !StartsWith(component, Prefix(kind))
  {
    if StartsWith(component, Prefix(Service)) then Some((Service, NameAfterPrefix(component, Service)))
    else if StartsWith(component, Prefix(Driver)) then Some((Driver, NameAfterPrefix(component, Driver)))
    else if StartsWith(component, Prefix(Dcom)) then Some((Dcom, NameAfterPrefix(component, Dcom)))
    else None
  }

  /**
   * Only the text between the first and the second colon reaches the adapter:
   * the name is colon-free and is followed in the id by a colon or by the end.
   */
  lemma TargetNameIsSecondField(component: string)
    requires Target(component).Some?
    ensures ':' !in Target(component).value.1
    ensures StartsWith(component, Prefix(Target(component).value.0) + Target(component).value.1)
    ensures var n := |Prefix(Target(component).value.0) + Target(component).value.1|;
            n == |component| || component[n] == ':'
  {
    FirstPieceAfterPrefix(component, Prefix(Target(component).value.0), ':');
  }

  /** Building an id from a kind and a name and dispatching it gives back the name, up to its first colon. */
  lemma TargetOfId(kind: Kind, name: string)
    ensures Target(Prefix(kind) + name) == Some((kind, Split(name, ':')[0]))
    ensures ':' !in name ==> Target(Prefix(kind) + name) == Some((kind, name))
  {
    var p := Prefix(kind);
    var id := p + name;
    assert StartsWith(id, p) by {
      assert id[..|p|] == p;
    }
    assert id[|p|..] == name;
    forall other | StartsWith(id, Prefix(other)) ensures other == kind {
      PrefixesExclusive(id, other, kind);
    }
    if ':' !in name {
      SplitNoSeparator(name, ':');
    }
  }

  /** "unknown", the id of every unclassifiable event, reaches no adapter. */
  lemma UnknownHasNoTarget()
    ensures Target(UNKNOWN_COMPONENT).None?
  {
    forall kind: Kind ensures !StartsWith(UNKNOWN_COMPONENT, Prefix(kind)) {
      assert Prefix(kind)[0] != UNKNOWN_COMPONENT[0];
    }
  }

  /**
   * Every id extraction produces other than "unknown" reaches an adapter of
   * the deciding rule's kind, with the capture up to its first colon as the
   * name; "unknown" reaches none.
   */
  lemma ExtractedIdDispatch(m: string)
    ensures Target(ExtractComponent(m)).None? <==> ExtractComponent(m) == UNKNOWN_COMPONENT
    ensures Search(ServiceRule, m).Some?
            ==> Target(ExtractComponent(m)) == Some((Service, Split(Search(ServiceRule, m).value, ':')[0]))
    ensures Search(ServiceRule, m).None? && Search(DriverRule, m).Some?
            ==> Target(ExtractComponent(m)) == Some((Driver, Split(Search(DriverRule, m).value, ':')[0]))
    ensures Search(ServiceRule, m).None? && Search(DriverRule, m).None? && Search(DcomRule, m).Some?
            ==> Target(ExtractComponent(m)) == Some((Dcom, Split(Search(DcomRule, m).value, ':')[0]))
  {
    FirstMatchIdDispatch(Search(ServiceRule, m), Search(DriverRule, m), Search(DcomRule, m));
  }

  lemma FirstMatchIdDispatch(s: Option<string>, d: Option<string>, c: Option<string>)
    ensures Target(FirstMatchId(s, d, c)).None? <==> FirstMatchId(s, d, c) == UNKNOWN_COMPONENT
    ensures s.Some? ==> Target(FirstMatchId(s, d, c)) == Some((Service, Split(s.value, ':')[0]))
    ensures s.None? && d.Some? ==> Target(FirstMatchId(s, d, c)) == Some((Driver, Split(d.value, ':')[0]))
    ensures s.None? && d.None? && c.Some? ==> Target(FirstMatchId(s, d, c)) == Some((Dcom, Split(c.value, ':')[0]))
  {
    UnknownHasNoTarget();
    if s.Some? {
      TargetOfId(Service, s.value);
    } else if d.Some? {
      TargetOfId(Driver, d.value);
    } else if c.Some? {
      TargetOfId(Dcom, c.value);
    }
  }

  /**
   * attempt_repair: the outcome of the adapter the prefix selects, and False
   * when no prefix matches.  `adapterOk` is what that adapter would return.
   */
  function AttemptRepair(component: string, adapterOk: bool): (repaired: bool)
    ensures repaired ==> Target(component).Some?
    ensures Target(component).Some? ==> repaired == adapterOk
  {
    match Target(component)
    case Some(_) => adapterOk
    case None => false
  }

  /** attempt_repair never succeeds for the shared "unknown" component. */
  lemma UnknownNeverRepaired(adapterOk: bool)
    ensures !AttemptRepair(UNKNOWN_COMPONENT, adapterOk)
  {
    UnknownHasNoTarget();
  }

  /** The outward actions of the guardian, recorded instead of performed. */
  datatype Effect =
    | RepairCalled(kind: Kind, name: string)
    | IsolateCalled(kind: Kind, name: string)
    | QuarantineCalled(service: string)
    | Notified(title: string, message: string)

  /** The repair adapter call attempt_repair makes, if any. */
  function RepairCalls(component: string): (effs: seq<Effect>)
    ensures |effs| <= 1
    ensures |effs| == 1 <==> Target(component).Some?
    ensures |effs| == 1 ==> effs[0] == RepairCalled(Target(component).value.0, Target(component).value.1)
  {
    match Target(component)
    case Some((kind, name)) => [RepairCalled(kind, name)]
    case None => []
  }

  const ISOLATION_TITLE := "System Component Isolation"

  /**
   * What processing one isolation request does: the isolate adapter its
   * prefix selects, if any, and then always the notification.  Only the
   * component is consulted, never the requested action.
   */
  function IsolationEffects(component: string): (effs: seq<Effect>)
    ensures 1 <= |effs| <= 2
    ensures effs[|effs| - 1] == Notified(ISOLATION_TITLE, "Component isolated: " + component)
    ensures |effs| == 2 <==> Target(component).Some?
    ensures |effs| == 2 ==> effs[0] == IsolateCalled(Target(component).value.0, Target(component).value.1)
  {
    var call := match Target(component)
      case Some((kind, name)) => [IsolateCalled(kind, name)]
      case None => [];
    call + [Notified(ISOLATION_TITLE, "Component isolated: " + component)]
  }

  /** The effects of isolating a component whose dispatch target is known. */
  lemma IsolationEffectsOfTarget(component: string, kind: Kind, name: string)
    requires Target(component) == Some((kind, name))
    ensures IsolationEffects(component)
            == [IsolateCalled(kind, name), Notified(ISOLATION_TITLE, "Component isolated: " + component)]
  {
  }
}
