/** A whole pass on the Deployment path: the cluster and the status together, and what Ready says
    about the cluster. */
module Passes {
  import opened Wrappers
  import opened Conditions
  import opened Readiness
  import Reconcile

  function DeploymentOutcome(observed: Option<Reconcile.Deployment>, api: Reconcile.Api<Reconcile.Deployment>,
                             reported: seq<Condition>, error: string): DeploymentResult
  {
    if api.listFails then Unlisted
    else if observed.Some? then Found(reported)
    else if api.writeFails then Rejected(error)
    else Created(reported)
  }

  function ServiceOutcome(observed: Option<Reconcile.Service>, api: Reconcile.Api<Reconcile.Service>,
                          error: string): ServiceResult {
    if api.listFails then ServiceUnlisted
    else if observed.Some? then ServiceFound
    else if api.writeFails then ServiceRejected(error)
    else ServiceCreated
  }

  /** Deployment, then Service, with the status edited on the way; `reported` is what the
      Deployment's own status says and `error` the API's answer to a failed creation. */
  method ReconcilePass(cluster: Reconcile.Cluster, status: EventListenerStatus, el: Reconcile.EventListener,
                       c: Reconcile.Config,
                       sapi: Reconcile.Api<Reconcile.Service>, dapi: Reconcile.Api<Reconcile.Deployment>,
                       reported: seq<Condition>, error: string, now: int)
    returns (ok: bool)
    modifies cluster, status
    ensures Reconcile.World(cluster.service, cluster.deployment) ==
      old(Reconcile.Next(Reconcile.World(cluster.service, cluster.deployment), Reconcile.Pass(el, c, sapi, dapi)))
    ensures ok <==> old(PassSucceeds(Reconcile.World(cluster.service, cluster.deployment), el, c, sapi, dapi))
    ensures status.conditions ==
      old(AfterPass(status.conditions, DeploymentOutcome(cluster.deployment, dapi, reported, error),
                    ServiceOutcome(cluster.service, sapi, error), now))
  {
    hide AfterPass, Reconcile.MakeService, Reconcile.MakeDeployment;
    var d := DeploymentOutcome(cluster.deployment, dapi, reported, error);
    var s := ServiceOutcome(cluster.service, sapi, error);
    ok := cluster.ReconcileKind(el, c, sapi, dapi);
    ReconcileStatus(status, d, s, now);
  }

  predicate PassSucceeds(w: Reconcile.World, el: Reconcile.EventListener, c: Reconcile.Config,
                         sapi: Reconcile.Api<Reconcile.Service>, dapi: Reconcile.Api<Reconcile.Deployment>)
  {
    && Reconcile.ServicePass(Reconcile.MakeService(el, c), w.service, sapi).ok
    && Reconcile.DeploymentPass(Reconcile.MakeDeployment(el, c), w.deployment, dapi).ok
  }

  /** The status after a pass. */
  function StatusAfter(cs: seq<Condition>, w: Reconcile.World, sapi: Reconcile.Api<Reconcile.Service>,
                       dapi: Reconcile.Api<Reconcile.Deployment>, reported: seq<Condition>, error: string,
                       now: int): seq<Condition>
  {
    AfterPass(cs, DeploymentOutcome(w.deployment, dapi, reported, error), ServiceOutcome(w.service, sapi, error), now)
  }

  /** After a pass Ready is true exactly when
      - the Deployment lister answered and the Deployment is in the cluster now (and, if it was just
        created, does not deny itself under the name Deployment),
      - the Service is in the cluster now or, if its lister failed, the Deployment reports a true
        condition under the name Service,
      - Progressing and Available are each true or absent: as reported last in this pass, or else as
        an earlier pass left them. */
  lemma ReadyMeansStored(cs: seq<Condition>, w: Reconcile.World, el: Reconcile.EventListener, c: Reconcile.Config,
                         sapi: Reconcile.Api<Reconcile.Service>, dapi: Reconcile.Api<Reconcile.Deployment>,
                         reported: seq<Condition>, error: string, now: int)
    requires Unique(cs)
    ensures var w' := Reconcile.Next(w, Reconcile.Pass(el, c, sapi, dapi));
      var r := StatusAfter(cs, w, sapi, dapi, reported, error, now);
      && Unique(r)
      && (StatusOf(r, READY) == Some(Yes) <==>
            && !dapi.listFails && w'.deployment.Some?
            && (w.deployment.Some? || Passes(LastStatus(reported, DEPLOYMENT)))
            && (if sapi.listFails then LastStatus(reported, SERVICE) == Some(Yes) else w'.service.Some?)
            && Passes(OrElse(LastStatus(reported, PROGRESSING), StatusOf(cs, PROGRESSING)))
            && Passes(OrElse(LastStatus(reported, AVAILABLE), StatusOf(cs, AVAILABLE))))
  {
    hide AfterPass, Unique, StatusOf, LastStatus;
    hide Reconcile.MakeService, Reconcile.MakeDeployment, Reconcile.MergeService, Reconcile.MergeDeployment;
    ReadyMeaning(cs, DeploymentOutcome(w.deployment, dapi, reported, error), ServiceOutcome(w.service, sapi, error),
                 now);
  }

  /** An object that is there has to change and the server refuses the update. */
  predicate ServiceRefused(w: Reconcile.World, el: Reconcile.EventListener, c: Reconcile.Config,
                           sapi: Reconcile.Api<Reconcile.Service>)
  {
    && w.service.Some? && sapi.writeFails
    && Reconcile.MergeService(Reconcile.MakeService(el, c), w.service.value) != w.service.value
  }

  predicate DeploymentRefused(w: Reconcile.World, el: Reconcile.EventListener, c: Reconcile.Config,
                              dapi: Reconcile.Api<Reconcile.Deployment>)
  {
    && w.deployment.Some? && dapi.writeFails
    && Reconcile.MergeDeployment(Reconcile.MakeDeployment(el, c), w.deployment.value) != w.deployment.value
  }

  /** A pass that leaves Ready true failed exactly when an update was refused, or the Service could
      not be looked up and the Deployment vouched for it. */
  lemma ReadyDespiteFailure(cs: seq<Condition>, w: Reconcile.World, el: Reconcile.EventListener, c: Reconcile.Config,
                            sapi: Reconcile.Api<Reconcile.Service>, dapi: Reconcile.Api<Reconcile.Deployment>,
                            reported: seq<Condition>, error: string, now: int)
    requires Unique(cs)
    requires StatusOf(StatusAfter(cs, w, sapi, dapi, reported, error, now), READY) == Some(Yes)
    ensures !PassSucceeds(w, el, c, sapi, dapi) <==>
      ServiceRefused(w, el, c, sapi) || DeploymentRefused(w, el, c, dapi) || sapi.listFails
    ensures sapi.listFails ==> LastStatus(reported, SERVICE) == Some(Yes)
  {
    hide StatusAfter, Unique, StatusOf, LastStatus;
    hide Reconcile.MakeService, Reconcile.MakeDeployment, Reconcile.MergeService, Reconcile.MergeDeployment;
    ReadyMeansStored(cs, w, el, c, sapi, dapi, reported, error, now);
  }

  /** Such passes exist for every listener: both objects there, nothing reported, and a server that
      refuses to change the Service. */
  lemma ReadyAndFailed(el: Reconcile.EventListener, c: Reconcile.Config, store: Reconcile.Service -> Reconcile.Service,
                       dapi: Reconcile.Api<Reconcile.Deployment>, error: string, now: int) returns (w: Reconcile.World)
    requires !dapi.listFails
    ensures var sapi := Reconcile.Api(false, true, store);
      && StatusOf(StatusAfter([], w, sapi, dapi, [], error, now), READY) == Some(Yes)
      && !PassSucceeds(w, el, c, sapi, dapi)
  {
    var want := Reconcile.MakeService(el, c);
    var stale := want.(spec := want.spec.(ports := []), annotations := map[]);
    w := Reconcile.World(Some(stale), Some(Reconcile.MakeDeployment(el, c)));
    var sapi := Reconcile.Api(false, true, store);
    assert |Reconcile.MergeService(want, stale).spec.ports| == 2;
    hide StatusAfter, Reconcile.MakeService, Reconcile.MakeDeployment, Reconcile.MergeService,
      Reconcile.MergeDeployment;
    ReadyMeansStored([], w, el, c, sapi, dapi, [], error, now);
  }
}
