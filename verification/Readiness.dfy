/** What a pass of the reconciler leaves in the status. */
module Readiness {
  import opened Wrappers
  import opened Conditions

  /** How the Deployment part of a pass went. */
  datatype DeploymentResult =
    | NotMade                                   // the desired Deployment could not be built
    | Found(reported: seq<Condition>)           // found by the lister, updated or not
    | Created(reported: seq<Condition>)
    | Rejected(error: string)                   // creation failed
    | Unlisted                                  // the lister failed otherwise

  datatype ServiceResult = ServiceFound | ServiceCreated | ServiceRejected(error: string) | ServiceUnlisted

  function AfterDeployment(cs: seq<Condition>, d: DeploymentResult, now: int): seq<Condition> {
    match d
    case NotMade => cs
    case Found(reported) => WithExists(WithDeployment(cs, reported, now), DEPLOYMENT, None, now)
    case Created(reported) => WithDeployment(WithExists(cs, DEPLOYMENT, None, now), reported, now)
    case Rejected(e) => WithExists(cs, DEPLOYMENT, Some(e), now)
    case Unlisted => cs
  }

  function AfterService(cs: seq<Condition>, s: ServiceResult, now: int): seq<Condition> {
    match s
    case ServiceFound => WithExists(cs, SERVICE, None, now)
    case ServiceCreated => WithExists(cs, SERVICE, None, now)
    case ServiceRejected(e) => WithExists(cs, SERVICE, Some(e), now)
    case ServiceUnlisted => cs
  }

  /** The conditions after a pass on the Deployment path. */
  function AfterPass(cs: seq<Condition>, d: DeploymentResult, s: ServiceResult, now: int): seq<Condition> {
    WithReady(AfterService(AfterDeployment(Initialized(cs, now), d, now), s, now), now)
  }

  /** The condition edits of a pass, in the order of the source. */
  method ReconcileStatus(status: EventListenerStatus, d: DeploymentResult, s: ServiceResult, now: int)
    modifies status
    ensures status.conditions == old(AfterPass(status.conditions, d, s, now))
  {
    hide Set;
    status.InitializeConditions(now);
    match d {
      case NotMade =>
      case Found(reported) =>
        status.SetDeploymentConditions(reported, now);
        status.SetExistsCondition(DEPLOYMENT, None, now);
      case Created(reported) =>
        status.SetExistsCondition(DEPLOYMENT, None, now);
        status.SetDeploymentConditions(reported, now);
      case Rejected(e) => status.SetExistsCondition(DEPLOYMENT, Some(e), now);
      case Unlisted =>
    }
    match s {
      case ServiceFound => status.SetExistsCondition(SERVICE, None, now);
      case ServiceCreated => status.SetExistsCondition(SERVICE, None, now);
      case ServiceRejected(e) => status.SetExistsCondition(SERVICE, Some(e), now);
      case ServiceUnlisted =>
    }
    status.SetReadyCondition(now);
  }

  // ---- Lookups through the edits -----------------------------------------------------

  lemma InitializedMeaning(cs: seq<Condition>, now: int)
    requires Unique(cs)
    ensures var r := Initialized(cs, now);
      && Unique(r)
      && StatusOf(r, SERVICE) == StatusOf(r, DEPLOYMENT) == StatusOf(r, READY) == Some(No)
      && forall t :: t != SERVICE && t != DEPLOYMENT && t != READY ==> Get(r, t) == Get(cs, t)
  {
    hide Set;
    var a := Set(cs, Bare(SERVICE, No, ""), now);
    var b := Set(a, Bare(DEPLOYMENT, No, ""), now);
    SetMeaning(cs, Bare(SERVICE, No, ""), now);
    SetMeaning(a, Bare(DEPLOYMENT, No, ""), now);
    SetMeaning(b, Bare(READY, No, ""), now);
  }

  predicate Reports(reported: seq<Condition>, t: string) {
    exists i :: 0 <= i < |reported| && reported[i].ctype == t
  }

  /** The status reported last under a type. */
  function LastStatus(reported: seq<Condition>, t: string): (r: Option<Truth>)
    ensures r.Some? <==> Reports(reported, t)
  {
    if reported == [] then None
    else
      var n := |reported| - 1;
      assert forall i :: 0 <= i < n ==> reported[..n][i] == reported[i];
      assert reported[n].ctype == t ==> Reports(reported, t);
      if reported[n].ctype == t then Some(reported[n].status) else LastStatus(reported[..n], t)
  }

  function OrElse(a: Option<Truth>, b: Option<Truth>): Option<Truth> {
    if a.Some? then a else b
  }

  /** Copied conditions keep the types unique, touch no type that is not reported, and leave of every
      other type the status reported last. */
  lemma {:induction false} SetAllMeaning(cs: seq<Condition>, reported: seq<Condition>, now: int, t: string)
    requires Unique(cs)
    ensures Unique(SetAll(cs, reported, now))
    ensures StatusOf(SetAll(cs, reported, now), t) == OrElse(LastStatus(reported, t), StatusOf(cs, t))
    ensures !Reports(reported, t) ==> Get(SetAll(cs, reported, now), t) == Get(cs, t)
    ensures Reports(reported, t) ==> Get(SetAll(cs, reported, now), t).Some?
    decreases |reported|
  {
    hide Set, Get, Unique;
    if reported != [] {
      var n := |reported| - 1;
      var before := SetAll(cs, reported[..n], now);
      SetAllMeaning(cs, reported[..n], now, t);
      SetMeaning(before, reported[n].(severity := ""), now);
      assert LastStatus(reported[..n], t).Some? <==> Reports(reported[..n], t);
      if reported[n].ctype != t { assert Get(SetAll(cs, reported, now), t) == Get(before, t); }
    }
  }

  lemma DropsReplicaFailure(cs: seq<Condition>, t: string)
    requires Unique(cs)
    ensures Unique(WithoutReplicaFailure(cs)) && Get(WithoutReplicaFailure(cs), REPLICA_FAILURE) == None
    ensures t != REPLICA_FAILURE ==> Get(WithoutReplicaFailure(cs), t) == Get(cs, t)
  {
    var i := FirstOfType(cs, REPLICA_FAILURE);
    var r := WithoutReplicaFailure(cs);
    assert r == if i < |cs| then cs[..i] + cs[i + 1..] else cs;
    hide FirstOfType, WithoutReplicaFailure, Get;
    assert forall j :: 0 <= j < |r| ==> r[j] == cs[if j < i then j else j + 1];
    if i < |cs| && t != REPLICA_FAILURE {
      var g := Get(cs, t);
      if g.Some? {
        var j :| 0 <= j < |cs| && cs[j] == g.value;
        assert r[if j < i then j else j - 1] == g.value;
        GetIsMember(r, g.value);
      }
    }
  }

  /** After a Deployment's status is copied, a replica failure is present only if it is reported now;
      every type that is not reported, but for that one, is as before, and the others have the status
      reported last. */
  lemma DeploymentCopy(cs: seq<Condition>, reported: seq<Condition>, now: int, t: string)
    requires Unique(cs)
    ensures var r := WithDeployment(cs, reported, now);
      && Unique(r)
      && (Get(r, REPLICA_FAILURE).Some? <==> Reports(reported, REPLICA_FAILURE))
      && (t != REPLICA_FAILURE && !Reports(reported, t) ==> Get(r, t) == Get(cs, t))
      && (t != REPLICA_FAILURE ==> StatusOf(r, t) == OrElse(LastStatus(reported, t), StatusOf(cs, t)))
  {
    hide SetAll, Get, WithoutReplicaFailure, Unique, LastStatus;
    DropsReplicaFailure(cs, t);
    DropsReplicaFailure(cs, REPLICA_FAILURE);
    SetAllMeaning(WithoutReplicaFailure(cs), reported, now, t);
    SetAllMeaning(WithoutReplicaFailure(cs), reported, now, REPLICA_FAILURE);
  }

  lemma WithExistsMeaning(cs: seq<Condition>, t: string, error: Option<string>, now: int)
    requires Unique(cs)
    ensures var r := WithExists(cs, t, error, now);
      && Unique(r) && StatusOf(r, t) == Some(if error.Some? then No else Yes)
      && forall u :: u != t ==> Get(r, u) == Get(cs, u)
  {
    SetMeaning(cs, if error.Some? then Bare(t, No, error.value) else Bare(t, Yes, t + " exists"), now);
  }

  // ---- Ready -------------------------------------------------------------------------

  predicate DeploymentThere(d: DeploymentResult) {
    d.Found? || d.Created?
  }

  predicate ServiceThere(s: ServiceResult) {
    s.ServiceFound? || s.ServiceCreated?
  }

  /** What the Deployment reports in this pass. */
  function ReportedBy(d: DeploymentResult): seq<Condition> {
    if DeploymentThere(d) then d.reported else []
  }

  /** The Deployment gate: found it is open; a Deployment just created may close it by a report of its
      own under that name. */
  function DeploymentGate(d: DeploymentResult): Option<Truth> {
    match d
    case Found(_) => Some(Yes)
    case Created(reported) => OrElse(LastStatus(reported, DEPLOYMENT), Some(Yes))
    case _ => Some(No)
  }

  /** The Service gate: if the lister failed, all there is is a report of the Deployment under that
      name. */
  function ServiceGate(d: DeploymentResult, s: ServiceResult): Option<Truth> {
    match s
    case ServiceRejected(_) => Some(No)
    case ServiceUnlisted => OrElse(LastStatus(ReportedBy(d), SERVICE), Some(No))
    case _ => Some(Yes)
  }

  /** Progressing or Available: reported last in this pass, or else left from an earlier one. */
  function RolloutGate(cs: seq<Condition>, d: DeploymentResult, t: string): Option<Truth> {
    OrElse(LastStatus(ReportedBy(d), t), StatusOf(cs, t))
  }

  lemma DeploymentStatus(cs: seq<Condition>, d: DeploymentResult, now: int, t: string)
    requires Unique(cs) && StatusOf(cs, DEPLOYMENT) == Some(No) && t != REPLICA_FAILURE && t != DEPLOYMENT
    ensures var r := AfterDeployment(cs, d, now);
      && Unique(r) && StatusOf(r, DEPLOYMENT) == DeploymentGate(d)
      && StatusOf(r, t) == OrElse(LastStatus(ReportedBy(d), t), StatusOf(cs, t))
  {
    hide WithDeployment, WithExists, Get, Unique, LastStatus;
    NothingReported(t);
    match d
    case NotMade =>
    case Unlisted =>
    case Rejected(e) => WithExistsMeaning(cs, DEPLOYMENT, Some(e), now);
    case Found(reported) =>
      DeploymentCopy(cs, reported, now, t);
      WithExistsMeaning(WithDeployment(cs, reported, now), DEPLOYMENT, None, now);
    case Created(reported) =>
      WithExistsMeaning(cs, DEPLOYMENT, None, now);
      var there := WithExists(cs, DEPLOYMENT, None, now);
      DeploymentCopy(there, reported, now, t);
      DeploymentCopy(there, reported, now, DEPLOYMENT);
  }

  lemma NothingReported(t: string)
    ensures LastStatus([], t) == None
  {
  }

  lemma ServiceStatus(cs: seq<Condition>, s: ServiceResult, now: int)
    requires Unique(cs)
    ensures var r := AfterService(cs, s, now);
      && Unique(r)
      && StatusOf(r, SERVICE) ==
         (if ServiceThere(s) then Some(Yes) else if s.ServiceRejected? then Some(No) else StatusOf(cs, SERVICE))
      && forall t :: t != SERVICE ==> Get(r, t) == Get(cs, t)
  {
    match s
    case ServiceFound => WithExistsMeaning(cs, SERVICE, None, now);
    case ServiceCreated => WithExistsMeaning(cs, SERVICE, None, now);
    case ServiceRejected(e) => WithExistsMeaning(cs, SERVICE, Some(e), now);
    case ServiceUnlisted =>
  }

  predicate Open(cs: seq<Condition>, t: string) {
    StatusOf(cs, t) in {None, Some(Yes)}
  }

  lemma ReadyFromGates(cs: seq<Condition>, now: int)
    requires Unique(cs)
    ensures var r := WithReady(cs, now);
      && Unique(r)
      && (StatusOf(r, READY) == Some(Yes) <==>
          Open(cs, SERVICE) && Open(cs, DEPLOYMENT) && Open(cs, PROGRESSING) && Open(cs, AVAILABLE))
      && StatusOf(r, READY) in {Some(Yes), Some(No)}
      && forall t :: t != READY ==> Get(r, t) == Get(cs, t)
  {
    assert GATES[0] == SERVICE && GATES[1] == DEPLOYMENT && GATES[2] == PROGRESSING && GATES[3] == AVAILABLE;
    var g := ClosedGate(cs, 0);
    var ready := if g.Some? then Bare(READY, No, GateMessage(g.value)) else Bare(READY, Yes, "EventListener is ready");
    SetMeaning(cs, ready, now);
  }

  /** Absent or true. */
  predicate Passes(g: Option<Truth>) {
    g in {None, Some(Yes)}
  }

  /** From any status with unique types, a pass on the Deployment path keeps them unique, and Ready
      is true exactly when all four gates pass, each told from the old status and what happened in
      the pass; else it is false. */
  lemma ReadyMeaning(cs: seq<Condition>, d: DeploymentResult, s: ServiceResult, now: int)
    requires Unique(cs)
    ensures var r := AfterPass(cs, d, s, now);
      && Unique(r)
      && StatusOf(r, SERVICE) == ServiceGate(d, s) && StatusOf(r, DEPLOYMENT) == DeploymentGate(d)
      && StatusOf(r, READY) == Some(
        if Passes(ServiceGate(d, s)) && Passes(DeploymentGate(d))
           && Passes(RolloutGate(cs, d, PROGRESSING)) && Passes(RolloutGate(cs, d, AVAILABLE)) then Yes else No)
  {
    hide Set, SetAll, Get, Unique, Initialized, AfterDeployment, AfterService, WithReady, LastStatus;
    var a := Initialized(cs, now);
    InitializedMeaning(cs, now);
    var b := AfterDeployment(a, d, now);
    DeploymentStatus(a, d, now, SERVICE);
    DeploymentStatus(a, d, now, PROGRESSING);
    DeploymentStatus(a, d, now, AVAILABLE);
    var c := AfterService(b, s, now);
    ServiceStatus(b, s, now);
    ReadyFromGates(c, now);
  }

  /** As long as the Deployment reports nothing under the names the reconciler owns, the first two
      gates say that Service and Deployment were found or created in this pass. */
  lemma OwnNamesDecide(d: DeploymentResult, s: ServiceResult)
    requires !Reports(ReportedBy(d), SERVICE) && !Reports(ReportedBy(d), DEPLOYMENT)
    ensures Passes(ServiceGate(d, s)) <==> ServiceThere(s)
    ensures Passes(DeploymentGate(d)) <==> DeploymentThere(d)
  {
  }

  // ---- The custom object path --------------------------------------------------------

  /** How a pass for a custom object ended: at some step before its conditions were looked at, or
      with the conditions of the object (`None`: it has none). */
  datatype CustomResult = Ended | Looked(reported: Option<seq<Condition>>)

  predicate NotReadyYet(reported: seq<Condition>) {
    exists i :: 0 <= i < |reported| && reported[i].ctype == READY && reported[i].status != Yes
  }

  function AfterCustomPass(cs: seq<Condition>, c: CustomResult, now: int): seq<Condition> {
    var a := Initialized(cs, now);
    if c.Looked? && c.reported.Some? && !NotReadyYet(c.reported.value) then WithDynamic(a, c.reported.value, now) else a
  }

  method ReconcileCustomStatus(status: EventListenerStatus, c: CustomResult, now: int)
    modifies status
    ensures status.conditions == old(AfterCustomPass(status.conditions, c, now))
  {
    hide Set;
    status.InitializeConditions(now);
    if c.Ended? || c.reported.None? { return; }
    var cs := c.reported.value;
    var i := 0;
    while i < |cs|
      invariant 0 <= i <= |cs| && status.conditions == old(Initialized(status.conditions, now))
      invariant forall j :: 0 <= j < i ==> !(cs[j].ctype == READY && cs[j].status != Yes)
    {
      if cs[i].ctype == READY && cs[i].status != Yes { return; }
      i := i + 1;
    }
    status.SetConditionsForDynamicObjects(cs, now);
  }

  /** On the custom path Ready is true exactly when the object had conditions and none of them is a
      Ready that is not true; the types stay unique. */
  lemma CustomReadyMeaning(cs: seq<Condition>, c: CustomResult, now: int)
    requires Unique(cs)
    ensures var r := AfterCustomPass(cs, c, now);
      && Unique(r)
      && (StatusOf(r, READY) == Some(Yes) <==> c.Looked? && c.reported.Some? && !NotReadyYet(c.reported.value))
  {
    InitializedMeaning(cs, now);
    var a := Initialized(cs, now);
    if c.Looked? && c.reported.Some? && !NotReadyYet(c.reported.value) {
      SetAllMeaning(a, c.reported.value, now, READY);
      SetMeaning(SetAll(a, c.reported.value, now), Bare(READY, Yes, "EventListener is ready"), now);
    }
  }

  // ---- Reported conditions are copied whole ------------------------------------------

  /** The condition reported last under a type. */
  function LastReported(reported: seq<Condition>, t: string): Option<Condition> {
    if reported == [] then None
    else if reported[|reported| - 1].ctype == t then Some(reported[|reported| - 1])
    else LastReported(reported[..|reported| - 1], t)
  }

  lemma {:induction false} LastReportedExact(reported: seq<Condition>, t: string)
    ensures LastReported(reported, t).Some? <==> Reports(reported, t)
    ensures LastReported(reported, t).Some? ==> LastReported(reported, t).value.ctype == t
    decreases |reported|
  {
    if reported != [] {
      var n := |reported| - 1;
      LastReportedExact(reported[..n], t);
      assert forall i :: 0 <= i < n ==> reported[..n][i] == reported[i];
      assert reported[n].ctype == t ==> Reports(reported, t);
    }
  }

  /** What is there says what was reported: type, status, reason and message. */
  predicate Tells(there: Option<Condition>, c: Condition) {
    && there.Some? && there.value.ctype == c.ctype && there.value.status == c.status
    && there.value.reason == c.reason && there.value.message == c.message
  }

  lemma {:induction false} SetAllCopies(cs: seq<Condition>, reported: seq<Condition>, now: int, t: string)
    requires Unique(cs)
    ensures var last := LastReported(reported, t); last.Some? ==> Tells(Get(SetAll(cs, reported, now), t), last.value)
    decreases |reported|
  {
    hide Set, Get, Unique;
    if reported != [] {
      var n := |reported| - 1;
      var before := SetAll(cs, reported[..n], now);
      SetAllMeaning(cs, reported[..n], now, t);
      SetAllCopies(cs, reported[..n], now, t);
      SetWhole(before, reported[n].(severity := ""), now);
      SetMeaning(before, reported[n].(severity := ""), now);
    }
  }

  /** A Deployment's reported conditions are in the status afterwards, as last reported. */
  lemma DeploymentCopiesAll(cs: seq<Condition>, reported: seq<Condition>, now: int, t: string)
    requires Unique(cs)
    ensures var last := LastReported(reported, t);
      last.Some? ==> Tells(Get(WithDeployment(cs, reported, now), t), last.value)
  {
    hide SetAll, Get, WithoutReplicaFailure;
    DropsReplicaFailure(cs, t);
    SetAllCopies(WithoutReplicaFailure(cs), reported, now, t);
  }

  /** A custom object's reported conditions are in the status afterwards, as last reported, except
      that Ready is true; unreported types are as they were. */
  lemma DynamicCopiesAll(cs: seq<Condition>, reported: seq<Condition>, now: int, t: string)
    requires Unique(cs)
    ensures var r := WithDynamic(cs, reported, now); var last := LastReported(reported, t);
      && Unique(r)
      && (t != READY && last.Some? ==> Tells(Get(r, t), last.value))
      && (t != READY && last.None? ==> Get(r, t) == Get(cs, t))
      && Tells(Get(r, READY), Bare(READY, Yes, "EventListener is ready"))
  {
    hide SetAll, Get, Set, Unique;
    SetAllMeaning(cs, reported, now, t);
    SetAllCopies(cs, reported, now, t);
    LastReportedExact(reported, t);
    var c := Bare(READY, Yes, "EventListener is ready");
    SetMeaning(SetAll(cs, reported, now), c, now);
    SetWhole(SetAll(cs, reported, now), c, now);
  }

  // ---- What the messages say ---------------------------------------------------------

  /** Whether something exists is told with the error, if there is one. */
  lemma ExistsTells(cs: seq<Condition>, t: string, error: Option<string>, now: int)
    requires Unique(cs)
    ensures Tells(Get(WithExists(cs, t, error, now), t),
                  Bare(t, if error.Some? then No else Yes, if error.Some? then error.value else t + " exists"))
  {
    hide Get, Set, Unique;
    SetWhole(cs, if error.Some? then Bare(t, No, error.value) else Bare(t, Yes, t + " exists"), now);
  }

  /** Not ready is told with the first of Service, Deployment, Progressing and Available that is there
      and not true, its status and its message. */
  lemma NotReadyTells(cs: seq<Condition>, now: int, i: nat)
    requires Unique(cs) && i < 4
    requires var gates := ["Service", "Deployment", "Progressing", "Available"];
      && (forall k :: 0 <= k < i ==> StatusOf(cs, gates[k]) in {None, Some(Yes)})
      && StatusOf(cs, gates[i]) !in {None, Some(Yes)}
    ensures var gate := Get(cs, ["Service", "Deployment", "Progressing", "Available"][i]);
      && gate.Some?
      && Tells(Get(WithReady(cs, now), READY), Bare(READY, No,
        "Condition " + gate.value.ctype + " has status: " + (if gate.value.status == No then "False" else "Unknown") +
        " with message: " + gate.value.message))
  {
    assert GATES == ["Service", "Deployment", "Progressing", "Available"];
    FirstClosed(cs, 0, i);
    var gate := Get(cs, GATES[i]);
    hide Get, Set, Unique, ClosedGate;
    SetWhole(cs, Bare(READY, No, GateMessage(gate.value)), now);
  }

  lemma {:induction false} FirstClosed(cs: seq<Condition>, from: nat, i: nat)
    requires from <= i < 4 && (forall k :: from <= k < i ==> StatusOf(cs, GATES[k]) in {None, Some(Yes)})
    requires StatusOf(cs, GATES[i]) !in {None, Some(Yes)}
    ensures ClosedGate(cs, from) == Get(cs, GATES[i])
    decreases i - from
  {
    if from < i { FirstClosed(cs, from + 1, i); }
  }
}
