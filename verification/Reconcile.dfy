/** The Service and the Deployment of an EventListener: the desired objects, how a pass merges them
    with what the lister found, and that passes settle.

    Comparison is semantic: a nil map or list equals an empty one, so maps and sequences stand
    for both.  What the API server does to an object it stores is a parameter. */
module Reconcile {
  import opened Wrappers

  type Labels = map<string, string>

  datatype ServicePort = ServicePort(name: string, protocol: string, port: int, targetPort: int, nodePort: int)

  /** `rest` stands for every other field of the spec; the desired spec leaves them unset. */
  datatype ServiceSpec = ServiceSpec(clusterIP: string, kind: string, selector: Labels, ports: seq<ServicePort>,
                                     loadBalancerClass: Option<string>, rest: string)

  datatype Service = Service(labels: Labels, annotations: Labels, spec: ServiceSpec)

  /** `template` stands for the selector and the pod template. */
  datatype DeploymentSpec = DeploymentSpec(replicas: Option<int>, template: string)

  datatype Deployment = Deployment(labels: Labels, annotations: Labels, spec: DeploymentSpec)

  /** An environment variable taken from a key of a secret. */
  datatype EnvVar = EnvVar(name: string, key: string)

  datatype KubernetesResource = KubernetesResource(serviceType: string, servicePort: Option<int>,
                                                   loadBalancerClass: Option<string>, env: seq<EnvVar>,
                                                   replicas: Option<int>)

  /** `labels` are the labels that pass the exclusion pattern; `template` is the pod template the
      Deployment builder makes of the rest of the listener and its configuration. */
  datatype EventListener = EventListener(name: string, labels: Labels, annotations: Labels,
                                         kubernetes: Option<KubernetesResource>, template: string)

  datatype Config = Config(port: int, staticLabels: Labels)

  const NODE_PORT := "NodePort"
  const DEFAULT_PORT := 8080
  const TLS_PORT := 8443
  const CONTAINER_PORT := 8080
  const METRICS_PORT := 9000

  /** Later maps win. */
  function UnionMaps(a: Labels, b: Labels): Labels {
    a + b
  }

  function GenerateLabels(name: string, staticLabels: Labels): Labels {
    staticLabels["eventlistener" := name]
  }

  // ---- Desired objects ---------------------------------------------------------------

  /** The key of the last variable with that name, or nothing. */
  function KeyOf(env: seq<EnvVar>, name: string): string {
    if env == [] then ""
    else if env[|env| - 1].name == name then env[|env| - 1].key
    else KeyOf(env[..|env| - 1], name)
  }

  /** Listener port and its name, from the configuration and the listener. */
  function PortOf(el: EventListener, c: Config): ServicePort {
    var tls := el.kubernetes.Some? && KeyOf(el.kubernetes.value.env, "TLS_CERT") != "" &&
      KeyOf(el.kubernetes.value.env, "TLS_KEY") != "";
    var custom := el.kubernetes.Some? && el.kubernetes.value.servicePort.Some?;
    ServicePort(
      if tls then "https-listener" else "http-listener",
      "TCP",
      if tls && c.port == DEFAULT_PORT then TLS_PORT
      else if custom then el.kubernetes.value.servicePort.value
      else c.port,
      CONTAINER_PORT,
      if custom && el.kubernetes.value.serviceType == NODE_PORT then el.kubernetes.value.servicePort.value else 0)
  }

  function MakeService(el: EventListener, c: Config): Service {
    var custom := el.kubernetes.Some? && el.kubernetes.value.servicePort.Some?;
    var c' := if custom then c.(port := el.kubernetes.value.servicePort.value) else c;
    Service(
      UnionMaps(el.labels, GenerateLabels(el.name, c.staticLabels)),
      el.annotations,
      ServiceSpec(
        "",
        if el.kubernetes.Some? then el.kubernetes.value.serviceType else "",
        GenerateLabels(el.name, c.staticLabels),
        [PortOf(el, c'), ServicePort("http-metrics", "TCP", METRICS_PORT, METRICS_PORT, 0)],
        if el.kubernetes.Some? then el.kubernetes.value.loadBalancerClass else None,
        ""))
  }

  function MakeDeployment(el: EventListener, c: Config): Deployment {
    Deployment(
      UnionMaps(el.labels, GenerateLabels(el.name, c.staticLabels)),
      el.annotations,
      DeploymentSpec(if el.kubernetes.Some? then el.kubernetes.value.replicas else None, el.template))
  }

  // ---- Merging with what is there ----------------------------------------------------

  function MergeAnnotations(desired: Labels, existing: Labels): Labels {
    if existing != map[] then UnionMaps(desired, existing) else desired
  }

  /** Node ports already assigned are taken over, port by port. */
  function CopyNodePorts(ports: seq<ServicePort>, from: seq<ServicePort>): (r: seq<ServicePort>)
    ensures |r| == |ports|
  {
    seq(|ports|, i requires 0 <= i < |ports| =>
      if i < |from| then ports[i].(nodePort := from[i].nodePort) else ports[i])
  }

  function MergeService(desired: Service, existing: Service): Service {
    var ports := if desired.spec.kind == NODE_PORT && existing.spec.kind == NODE_PORT
                 then CopyNodePorts(desired.spec.ports, existing.spec.ports) else desired.spec.ports;
    desired.(spec := desired.spec.(clusterIP := existing.spec.clusterIP, ports := ports),
             annotations := MergeAnnotations(desired.annotations, existing.annotations))
  }

  function MergeDeployment(desired: Deployment, existing: Deployment): Deployment {
    var replicas := if desired.spec.replicas.None? then existing.spec.replicas else desired.spec.replicas;
    desired.(spec := desired.spec.(replicas := replicas),
             annotations := MergeAnnotations(desired.annotations, existing.annotations))
  }

  // ---- A pass ------------------------------------------------------------------------

  /** How the API server answers one pass: whether the lister fails, which writes fail, and what it
      stores for an object it is sent. */
  datatype Api<!T> = Api(listFails: bool, writeFails: bool, store: T -> T)

  /** The cluster as the reconciler sees it; `writes` counts what was stored. */
  class Cluster {
    var service: Option<Service>
    var deployment: Option<Deployment>
    var writes: nat

    constructor (service: Option<Service>, deployment: Option<Deployment>)
      ensures this.service == service && this.deployment == deployment && writes == 0
    {
      this.service, this.deployment, this.writes := service, deployment, 0;
    }

    /** Creates, updates or leaves the Service; returns whether it succeeded. */
    method ReconcileService(desired: Service, api: Api<Service>) returns (ok: bool)
      modifies this
      ensures service == old(ServicePass(desired, service, api)).stored &&
        ok == old(ServicePass(desired, service, api)).ok
      ensures writes == old(writes) + (if old(ServicePass(desired, service, api)).wrote then 1 else 0)
      ensures deployment == old(deployment)
    {
      if api.listFails { return false; }
      var want := desired;
      if service.None? {
        if api.writeFails { return false; }
        service := Some(api.store(want));
        writes := writes + 1;
        return true;
      }
      var existing := service.value;
      want := want.(spec := want.spec.(clusterIP := existing.spec.clusterIP));
      if want.spec.kind == NODE_PORT && existing.spec.kind == NODE_PORT {
        var ports := want.spec.ports;
        var i := 0;
        while i < |ports| && i < |existing.spec.ports|
          invariant 0 <= i <= |ports| == |desired.spec.ports| && i <= |existing.spec.ports|
          invariant forall j :: 0 <= j < i ==>
            ports[j] == desired.spec.ports[j].(nodePort := existing.spec.ports[j].nodePort)
          invariant forall j :: i <= j < |ports| ==> ports[j] == desired.spec.ports[j]
        {
          ports := ports[i := ports[i].(nodePort := existing.spec.ports[i].nodePort)];
          i := i + 1;
        }
        assert ports == CopyNodePorts(desired.spec.ports, existing.spec.ports);
        want := want.(spec := want.spec.(ports := ports));
      }
      if existing.annotations != map[] {
        want := want.(annotations := UnionMaps(want.annotations, existing.annotations));
      }
      assert want == MergeService(desired, existing);
      if existing != want {
        if api.writeFails { return false; }
        service := Some(api.store(want));
        writes := writes + 1;
      }
      return true;
    }

    method ReconcileDeployment(desired: Deployment, api: Api<Deployment>) returns (ok: bool)
      modifies this
      ensures deployment == old(DeploymentPass(desired, deployment, api)).stored &&
        ok == old(DeploymentPass(desired, deployment, api)).ok
      ensures writes == old(writes) + (if old(DeploymentPass(desired, deployment, api)).wrote then 1 else 0)
      ensures service == old(service)
    {
      if api.listFails { return false; }
      var want := desired;
      if deployment.None? {
        if api.writeFails { return false; }
        deployment := Some(api.store(want));
        writes := writes + 1;
        return true;
      }
      var existing := deployment.value;
      if want.spec.replicas.None? {
        want := want.(spec := want.spec.(replicas := existing.spec.replicas));
      }
      if existing.annotations != map[] {
        want := want.(annotations := UnionMaps(want.annotations, existing.annotations));
      }
      if existing != want {
        if api.writeFails { return false; }
        deployment := Some(api.store(want));
        writes := writes + 1;
      }
      return true;
    }

    /** Both objects of a pass on the Deployment path, in the order of the source. */
    method ReconcileKind(el: EventListener, c: Config, sapi: Api<Service>, dapi: Api<Deployment>) returns (ok: bool)
      modifies this
      ensures service == old(ServicePass(MakeService(el, c), service, sapi)).stored
      ensures deployment == old(DeploymentPass(MakeDeployment(el, c), deployment, dapi)).stored
      ensures ok <==>
        && old(ServicePass(MakeService(el, c), service, sapi)).ok
        && old(DeploymentPass(MakeDeployment(el, c), deployment, dapi)).ok
      ensures writes == old(writes)
        + (if old(ServicePass(MakeService(el, c), service, sapi)).wrote then 1 else 0)
        + (if old(DeploymentPass(MakeDeployment(el, c), deployment, dapi)).wrote then 1 else 0)
    {
      var d := ReconcileDeployment(MakeDeployment(el, c), dapi);
      var s := ReconcileService(MakeService(el, c), sapi);
      ok := s && d;
    }
  }

  datatype PassResult<T> = PassResult(stored: Option<T>, wrote: bool, ok: bool)

  function ServicePass(desired: Service, observed: Option<Service>, api: Api<Service>): PassResult<Service> {
    if api.listFails then PassResult(observed, false, false)
    else
      var want := if observed.Some? then MergeService(desired, observed.value) else desired;
      if observed == Some(want) then PassResult(observed, false, true)
      else if api.writeFails then PassResult(observed, false, false)
      else PassResult(Some(api.store(want)), true, true)
  }

  function DeploymentPass(desired: Deployment, observed: Option<Deployment>,
                          api: Api<Deployment>): PassResult<Deployment> {
    if api.listFails then PassResult(observed, false, false)
    else
      var want := if observed.Some? then MergeDeployment(desired, observed.value) else desired;
      if observed == Some(want) then PassResult(observed, false, true)
      else if api.writeFails then PassResult(observed, false, false)
      else PassResult(Some(api.store(want)), true, true)
  }

  // ---- Passes settle -----------------------------------------------------------------

  predicate SamePorts(sent: seq<ServicePort>, stored: seq<ServicePort>, nodePorts: bool) {
    && |sent| == |stored|
    && forall i :: 0 <= i < |sent| ==>
      stored[i] == if nodePorts then sent[i].(nodePort := stored[i].nodePort) else sent[i]
  }

  /** A Service is stored as sent, but for the cluster IP and the node ports of a NodePort service. */
  ghost predicate StoresService(store: Service -> Service) {
    forall s: Service ::
      var r := store(s);
      && r.labels == s.labels && r.annotations == s.annotations
      && r.spec == s.spec.(clusterIP := r.spec.clusterIP, ports := r.spec.ports)
      && SamePorts(s.spec.ports, r.spec.ports, s.spec.kind == NODE_PORT)
  }

  /** A Deployment is stored as sent, but for a replica count that is not given. */
  ghost predicate StoresDeployment(store: Deployment -> Deployment) {
    forall d: Deployment ::
      var r := store(d);
      && r.labels == d.labels && r.annotations == d.annotations && r.spec.template == d.spec.template
      && (d.spec.replicas.Some? ==> r.spec.replicas == d.spec.replicas)
  }

  lemma AnnotationsSettle(desired: Labels, existing: Labels)
    ensures MergeAnnotations(desired, MergeAnnotations(desired, existing)) == MergeAnnotations(desired, existing)
  {
  }

  lemma MergeServiceSettles(desired: Service, sent: Service, stored: Service)
    requires sent.labels == desired.labels &&
      MergeAnnotations(desired.annotations, sent.annotations) == sent.annotations
    requires sent.spec == desired.spec.(clusterIP := sent.spec.clusterIP, ports := sent.spec.ports)
    requires SamePorts(desired.spec.ports, sent.spec.ports, desired.spec.kind == NODE_PORT)
    requires stored.labels == sent.labels && stored.annotations == sent.annotations
    requires stored.spec == sent.spec.(clusterIP := stored.spec.clusterIP, ports := stored.spec.ports)
    requires SamePorts(sent.spec.ports, stored.spec.ports, sent.spec.kind == NODE_PORT)
    ensures MergeService(desired, stored) == stored
  {
    var m := MergeService(desired, stored);
    assert m.spec.ports == stored.spec.ports by {
      assert forall i :: 0 <= i < |stored.spec.ports| ==> m.spec.ports[i] == stored.spec.ports[i];
    }
  }

  lemma MergeServiceSends(desired: Service, existing: Service)
    ensures var sent := MergeService(desired, existing);
      && sent.labels == desired.labels && MergeAnnotations(desired.annotations, sent.annotations) == sent.annotations
      && sent.spec == desired.spec.(clusterIP := sent.spec.clusterIP, ports := sent.spec.ports)
      && SamePorts(desired.spec.ports, sent.spec.ports, desired.spec.kind == NODE_PORT)
  {
    AnnotationsSettle(desired.annotations, existing.annotations);
  }

  /** After a pass that succeeded, a second pass with the same listener and configuration writes no
      Service, whatever was there before and whatever the server assigned. */
  lemma ServiceConverges(desired: Service, observed: Option<Service>, api: Api<Service>, api': Api<Service>)
    requires StoresService(api.store) && ServicePass(desired, observed, api).ok
    ensures !ServicePass(desired, ServicePass(desired, observed, api).stored, api').wrote
  {
    hide MergeService, MergeAnnotations, CopyNodePorts, SamePorts, StoresService;
    if ServicePass(desired, observed, api).wrote {
      var want := if observed.Some? then MergeService(desired, observed.value) else desired;
      if observed.Some? { MergeServiceSends(desired, observed.value); } else { FirstSent(desired); }
      StoredAs(api.store, want);
      MergeServiceSettles(desired, want, api.store(want));
    }
  }

  lemma FirstSent(desired: Service)
    ensures MergeAnnotations(desired.annotations, desired.annotations) == desired.annotations
    ensures SamePorts(desired.spec.ports, desired.spec.ports, desired.spec.kind == NODE_PORT)
    ensures desired.spec == desired.spec.(clusterIP := desired.spec.clusterIP, ports := desired.spec.ports)
  {
  }

  lemma StoredAs(store: Service -> Service, s: Service)
    requires StoresService(store)
    ensures var r := store(s);
      && r.labels == s.labels && r.annotations == s.annotations
      && r.spec == s.spec.(clusterIP := r.spec.clusterIP, ports := r.spec.ports)
      && SamePorts(s.spec.ports, r.spec.ports, s.spec.kind == NODE_PORT)
  {
  }

  lemma DeploymentConverges(desired: Deployment, observed: Option<Deployment>, api: Api<Deployment>,
                            api': Api<Deployment>)
    requires StoresDeployment(api.store) && DeploymentPass(desired, observed, api).ok
    ensures !DeploymentPass(desired, DeploymentPass(desired, observed, api).stored, api').wrote
  {
    var p := DeploymentPass(desired, observed, api);
    if p.wrote {
      var want := if observed.Some? then MergeDeployment(desired, observed.value) else desired;
      var stored := api.store(want);
      if observed.Some? { AnnotationsSettle(desired.annotations, observed.value.annotations); }
      assert MergeDeployment(desired, stored) == stored;
    }
  }

  // ---- What every run of passes keeps ------------------------------------------------

  /** One thing that happens: a pass for the listener as it is then, or somebody else's edit. */
  datatype Event =
    | Pass(el: EventListener, c: Config, sapi: Api<Service>, dapi: Api<Deployment>)
    | Edit(service: Option<Service>, deployment: Option<Deployment>)

  datatype World = World(service: Option<Service>, deployment: Option<Deployment>)

  function Next(w: World, e: Event): World {
    match e
    case Edit(s, d) => World(s, d)
    case Pass(el, c, sapi, dapi) =>
      World(ServicePass(MakeService(el, c), w.service, sapi).stored,
            DeploymentPass(MakeDeployment(el, c), w.deployment, dapi).stored)
  }

  function AfterEvents(w: World, es: seq<Event>): World {
    if es == [] then w else Next(AfterEvents(w, es[..|es| - 1]), es[|es| - 1])
  }

  ghost predicate StoresAsSent(e: Event) {
    e.Pass? ==> StoresService(e.sapi.store) && StoresDeployment(e.dapi.store)
  }

  /** Every annotation of `a` is in `b` with the same value. */
  predicate KeepsAll(a: Labels, b: Labels) {
    forall k :: k in a ==> k in b && b[k] == a[k]
  }

  lemma ServicePassKeeps(desired: Service, existing: Service, api: Api<Service>)
    requires StoresService(api.store)
    ensures var p := ServicePass(desired, Some(existing), api);
      p.stored.Some? && KeepsAll(existing.annotations, p.stored.value.annotations)
  {
    hide MergeService, StoresService, SamePorts, KeepsAll;
    MergeKeeps(desired, existing);
    StoredAs(api.store, MergeService(desired, existing));
    KeepsSelf(existing.annotations);
  }

  lemma MergeKeeps(desired: Service, existing: Service)
    ensures KeepsAll(existing.annotations, MergeService(desired, existing).annotations)
  {
    hide CopyNodePorts;
  }

  lemma KeepsSelf(a: Labels)
    ensures KeepsAll(a, a)
  {
  }

  lemma DeploymentPassKeeps(desired: Deployment, existing: Deployment, api: Api<Deployment>)
    requires StoresDeployment(api.store)
    ensures var p := DeploymentPass(desired, Some(existing), api);
      && p.stored.Some? && KeepsAll(existing.annotations, p.stored.value.annotations)
      && (desired.spec.replicas.None? && existing.spec.replicas.Some? ==>
          p.stored.value.spec.replicas == existing.spec.replicas)
  {
    var want := MergeDeployment(desired, existing);
    assert KeepsAll(existing.annotations, want.annotations);
    assert api.store(want).annotations == want.annotations;
  }

  /** The listener of a pass leaves the replica count open. */
  predicate ReplicasOpen(e: Event) {
    e.Pass? && (e.el.kubernetes.Some? ==> e.el.kubernetes.value.replicas.None?)
  }

  predicate SameReplicas(w: World, w': World) {
    w.deployment.Some? && w'.deployment.Some? && w.deployment.value.spec.replicas.Some? ==>
      w'.deployment.value.spec.replicas == w.deployment.value.spec.replicas
  }

  /** Both objects are still there with all the annotations they had. */
  predicate Kept(w: World, w': World) {
    && (w.service.Some? ==> w'.service.Some? && KeepsAll(w.service.value.annotations, w'.service.value.annotations))
    && (w.deployment.Some? ==>
        w'.deployment.Some? && KeepsAll(w.deployment.value.annotations, w'.deployment.value.annotations))
  }

  lemma OnePassKeeps(w: World, e: Event)
    requires e.Pass? && StoresAsSent(e)
    ensures Kept(w, Next(w, e)) && (ReplicasOpen(e) ==> SameReplicas(w, Next(w, e)))
  {
    hide StoresService;
    hide StoresDeployment;
    hide ServicePass;
    hide DeploymentPass;
    if w.service.Some? { ServicePassKeeps(MakeService(e.el, e.c), w.service.value, e.sapi); }
    if w.deployment.Some? { DeploymentPassKeeps(MakeDeployment(e.el, e.c), w.deployment.value, e.dapi); }
  }

  /** In every run of passes and outside edits: between any two points with only passes between
      them, however the listener is edited meanwhile, no annotation that is on the Service or the
      Deployment is removed or altered, and while the replica count is left open the live one never
      changes. */
  lemma {:induction false} PassesKeep(w: World, es: seq<Event>, i: nat, j: nat)
    requires i <= j <= |es| && OnlyPasses(es[i..j])
    ensures Kept(AfterEvents(w, es[..i]), AfterEvents(w, es[..j]))
    ensures AllOpen(es[i..j]) ==> SameReplicas(AfterEvents(w, es[..i]), AfterEvents(w, es[..j]))
    decreases j
  {
    hide Kept, SameReplicas, Next, StoresAsSent, ReplicasOpen;
    var u := AfterEvents(w, es[..i]);
    if i == j {
      KeptSame(u);
    } else {
      var v := AfterEvents(w, es[..j - 1]);
      assert es[i..j][j - 1 - i] == es[j - 1];
      assert es[i..j - 1] == es[i..j][..j - 1 - i];
      PassesKeep(w, es, i, j - 1);
      OnePassKeeps(v, es[j - 1]);
      assert es[..j][..j - 1] == es[..j - 1];
      KeptTwice(u, v, Next(v, es[j - 1]));
    }
  }

  ghost predicate OnlyPasses(es: seq<Event>) {
    forall i :: 0 <= i < |es| ==> es[i].Pass? && StoresAsSent(es[i])
  }

  predicate AllOpen(es: seq<Event>) {
    forall i :: 0 <= i < |es| ==> ReplicasOpen(es[i])
  }

  lemma KeptSame(w: World)
    ensures Kept(w, w) && SameReplicas(w, w)
  {
  }

  lemma KeptTwice(w: World, v: World, u: World)
    requires Kept(w, v) && Kept(v, u)
    ensures Kept(w, u) && (SameReplicas(w, v) && SameReplicas(v, u) ==> SameReplicas(w, u))
  {
  }

  /** The server keeps a node port it is sent, and assigns one where there is none. */
  ghost predicate KeepsNodePorts(store: Service -> Service) {
    forall s: Service, i :: 0 <= i < |s.spec.ports| && s.spec.ports[i].nodePort != 0 ==>
      i < |store(s).spec.ports| && store(s).spec.ports[i].nodePort == s.spec.ports[i].nodePort
  }

  /** A NodePort service whose listener and metrics ports have these node ports. */
  predicate HasNodePorts(s: Option<Service>, listener: int, metrics: int) {
    && s.Some? && s.value.spec.kind == NODE_PORT && |s.value.spec.ports| >= 2
    && s.value.spec.ports[0].nodePort == listener && s.value.spec.ports[1].nodePort == metrics
  }

  ghost predicate NodePortPass(e: Event) {
    && e.Pass? && StoresService(e.sapi.store) && KeepsNodePorts(e.sapi.store)
    && e.el.kubernetes.Some? && e.el.kubernetes.value.serviceType == NODE_PORT
  }

  lemma OnePassSticks(w: World, e: Event, listener: int, metrics: int)
    requires NodePortPass(e) && HasNodePorts(w.service, listener, metrics) && listener != 0 && metrics != 0
    ensures HasNodePorts(Next(w, e).service, listener, metrics)
  {
    hide MakeService, MakeDeployment, MergeService, StoresService, KeepsNodePorts, HasNodePorts, DeploymentPass;
    var desired := MakeService(e.el, e.c);
    NodePortDesired(e.el, e.c);
    assert w.service.Some? by { NodePortsThere(w.service, listener, metrics); }
    MergedNodePorts(desired, w.service.value, listener, metrics);
    StoredNodePorts(e.sapi.store, MergeService(desired, w.service.value), listener, metrics);
  }

  lemma NodePortsThere(s: Option<Service>, listener: int, metrics: int)
    requires HasNodePorts(s, listener, metrics)
    ensures s.Some?
  {
  }

  lemma NodePortDesired(el: EventListener, c: Config)
    requires el.kubernetes.Some? && el.kubernetes.value.serviceType == NODE_PORT
    ensures |MakeService(el, c).spec.ports| == 2 && MakeService(el, c).spec.kind == NODE_PORT
  {
    hide PortOf;
  }

  lemma MergedNodePorts(desired: Service, existing: Service, listener: int, metrics: int)
    requires |desired.spec.ports| == 2 && desired.spec.kind == NODE_PORT
    requires HasNodePorts(Some(existing), listener, metrics)
    ensures HasNodePorts(Some(MergeService(desired, existing)), listener, metrics)
  {
    hide MergeAnnotations;
  }

  lemma StoredNodePorts(store: Service -> Service, sent: Service, listener: int, metrics: int)
    requires StoresService(store) && KeepsNodePorts(store)
    requires HasNodePorts(Some(sent), listener, metrics) && listener != 0 && metrics != 0
    ensures HasNodePorts(Some(store(sent)), listener, metrics)
  {
    StoredAs(store, sent);
    assert sent.spec.ports[0].nodePort != 0 && sent.spec.ports[1].nodePort != 0;
  }

  /** Node ports once assigned stay through every run of passes in which the listener remains a
      NodePort one: no later change of the listener's port reaches them. */
  lemma {:induction false} NodePortSticks(w: World, es: seq<Event>, listener: int, metrics: int)
    requires forall i :: 0 <= i < |es| ==> NodePortPass(es[i])
    requires HasNodePorts(w.service, listener, metrics) && listener != 0 && metrics != 0
    ensures HasNodePorts(AfterEvents(w, es).service, listener, metrics)
    decreases |es|
  {
    hide HasNodePorts, NodePortPass, Next;
    if es != [] {
      var n := |es| - 1;
      NodePortSticks(w, es[..n], listener, metrics);
      OnePassSticks(AfterEvents(w, es[..n]), es[n], listener, metrics);
    }
  }

  /** Two passes over the whole listener: the second writes nothing. */
  lemma PassesConverge(w: World, el: EventListener, c: Config, sapi: Api<Service>, dapi: Api<Deployment>,
                       sapi': Api<Service>, dapi': Api<Deployment>)
    requires StoresService(sapi.store) && StoresDeployment(dapi.store)
    requires ServicePass(MakeService(el, c), w.service, sapi).ok &&
      DeploymentPass(MakeDeployment(el, c), w.deployment, dapi).ok
    ensures var w' := Next(w, Pass(el, c, sapi, dapi));
      && !ServicePass(MakeService(el, c), w'.service, sapi').wrote
      && !DeploymentPass(MakeDeployment(el, c), w'.deployment, dapi').wrote
      && Next(w', Pass(el, c, sapi', dapi')) == w'
  {
    hide MakeService, MakeDeployment, MergeService, MergeDeployment, StoresService, StoresDeployment;
    ServiceConverges(MakeService(el, c), w.service, sapi, sapi');
    DeploymentConverges(MakeDeployment(el, c), w.deployment, dapi, dapi');
  }

  // ---- What a successful pass brings about -------------------------------------------

  /** The name of the listener, the static labels, and below them the listener's own. */
  predicate Carries(labels: Labels, el: EventListener, c: Config) {
    && "eventlistener" in labels && labels["eventlistener"] == el.name
    && (forall k :: k in c.staticLabels && k != "eventlistener" ==> k in labels && labels[k] == c.staticLabels[k])
    && (forall k :: k in el.labels && k != "eventlistener" && k !in c.staticLabels ==>
        k in labels && labels[k] == el.labels[k])
    && (forall k :: k in labels ==> k == "eventlistener" || k in c.staticLabels || k in el.labels)
  }

  /** The selector of the pods: the name of the listener and the static labels, nothing else. */
  predicate SelectsPods(selector: Labels, el: EventListener, c: Config) {
    && "eventlistener" in selector && selector["eventlistener"] == el.name
    && (forall k :: k in c.staticLabels && k != "eventlistener" ==> k in selector && selector[k] == c.staticLabels[k])
    && (forall k :: k in selector ==> k == "eventlistener" || k in c.staticLabels)
  }

  /** The annotations that were there, and of the wanted ones those that were not. */
  predicate Annotated(after: Labels, wanted: Labels, before: Labels) {
    && after.Keys == wanted.Keys + before.Keys
    && (forall k :: k in before ==> after[k] == before[k])
    && (forall k :: k in wanted && k !in before ==> after[k] == wanted[k])
  }

  /** Entry `i` is the last variable of that name, and it has a secret key. */
  predicate KeyedBy(env: seq<EnvVar>, name: string, i: int) {
    && 0 <= i < |env| && env[i].name == name && env[i].key != ""
    && forall j :: i < j < |env| ==> env[j].name != name
  }

  ghost predicate Keyed(env: seq<EnvVar>, name: string) {
    exists i :: KeyedBy(env, name, i)
  }

  lemma {:induction false} KeyOfExact(env: seq<EnvVar>, name: string)
    ensures KeyOf(env, name) != "" <==> Keyed(env, name)
    decreases |env|
  {
    if env != [] {
      var n := |env| - 1;
      var front := env[..n];
      KeyOfExact(front, name);
      if env[n].name == name {
        assert KeyedBy(env, name, n) <==> env[n].key != "";
      } else {
        forall i ensures KeyedBy(front, name, i) <==> KeyedBy(env, name, i) { KeyedFront(env, name, i); }
      }
    }
  }

  lemma KeyedFront(env: seq<EnvVar>, name: string, i: int)
    requires env != [] && env[|env| - 1].name != name
    ensures KeyedBy(env[..|env| - 1], name, i) <==> KeyedBy(env, name, i)
  {
    var n := |env| - 1;
    assert forall j :: 0 <= j < n ==> env[..n][j] == env[j];
  }

  /** Certificate and key of the listener both come from a secret. */
  ghost predicate Secure(el: EventListener) {
    el.kubernetes.Some? && Keyed(el.kubernetes.value.env, "TLS_CERT") && Keyed(el.kubernetes.value.env, "TLS_KEY")
  }

  /** The port the listener asks for, or else the configured one. */
  function WantedPort(el: EventListener, c: Config): int {
    if el.kubernetes.Some? && el.kubernetes.value.servicePort.Some?
    then el.kubernetes.value.servicePort.value else c.port
  }

  /** The listener's port, told from the listener and the configuration; the node port aside. */
  ghost predicate ListenerPort(p: ServicePort, el: EventListener, c: Config) {
    && p.name == (if Secure(el) then "https-listener" else "http-listener")
    && p.port == (if Secure(el) && WantedPort(el, c) == 8080 then 8443 else WantedPort(el, c))
    && p.protocol == "TCP" && p.targetPort == 8080
  }

  predicate MetricsPort(p: ServicePort) {
    p.name == "http-metrics" && p.port == 9000 && p.protocol == "TCP" && p.targetPort == 9000
  }

  /** The spec of a Service as the listener wants it, what the server assigns aside. */
  ghost predicate WantedSpec(s: ServiceSpec, el: EventListener, c: Config) {
    && SelectsPods(s.selector, el, c)
    && s.kind == (if el.kubernetes.Some? then el.kubernetes.value.serviceType else "")
    && s.loadBalancerClass == (if el.kubernetes.Some? then el.kubernetes.value.loadBalancerClass else None)
    && |s.ports| == 2 && ListenerPort(s.ports[0], el, c) && MetricsPort(s.ports[1])
  }

  /** The desired Service; a NodePort listener with a port of its own asks for that node port. */
  lemma DesiredService(el: EventListener, c: Config)
    ensures var s := MakeService(el, c);
      && Carries(s.labels, el, c) && s.annotations == el.annotations && WantedSpec(s.spec, el, c)
      && s.spec.ports[1].nodePort == 0
      && s.spec.ports[0].nodePort ==
         (if s.spec.kind == "NodePort" && el.kubernetes.value.servicePort.Some? then WantedPort(el, c) else 0)
  {
    if el.kubernetes.Some? {
      KeyOfExact(el.kubernetes.value.env, "TLS_CERT");
      KeyOfExact(el.kubernetes.value.env, "TLS_KEY");
    }
    hide KeyOf, Keyed;
  }

  lemma AnnotatedMerge(wanted: Labels, before: Labels)
    ensures Annotated(MergeAnnotations(wanted, before), wanted, before)
    ensures Annotated(wanted, wanted, map[])
  {
  }

  /** What the Service pass sends, or finds to be there already. */
  function ServiceToSend(el: EventListener, c: Config, observed: Option<Service>): Service {
    if observed.Some? then MergeService(MakeService(el, c), observed.value) else MakeService(el, c)
  }

  function ServiceNotes(observed: Option<Service>): Labels {
    if observed.Some? then observed.value.annotations else map[]
  }

  /** A Service as the listener and the configuration want it: labels, selector, type and ports, with
      every annotation that was there and the listener's others. */
  ghost predicate ServiceAsWanted(s: Service, el: EventListener, c: Config, before: Labels) {
    && Carries(s.labels, el, c) && WantedSpec(s.spec, el, c) && Annotated(s.annotations, el.annotations, before)
    && (s.spec.kind != "NodePort" ==> s.spec.ports[0].nodePort == s.spec.ports[1].nodePort == 0)
  }

  lemma ServiceSent(el: EventListener, c: Config, observed: Option<Service>)
    ensures ServiceAsWanted(ServiceToSend(el, c, observed), el, c, ServiceNotes(observed))
  {
    DesiredService(el, c);
    AnnotatedMerge(el.annotations, ServiceNotes(observed));
    hide MakeService, Carries, SelectsPods, Annotated, MergeAnnotations, Secure;
  }

  /** After a successful pass the Service is there as wanted, whatever was there before. */
  lemma ServiceReached(el: EventListener, c: Config, observed: Option<Service>, api: Api<Service>)
    requires StoresService(api.store) && ServicePass(MakeService(el, c), observed, api).ok
    ensures var after := ServicePass(MakeService(el, c), observed, api).stored;
      after.Some? && ServiceAsWanted(after.value, el, c, ServiceNotes(observed))
  {
    ServiceSent(el, c, observed);
    hide MakeService, MergeService, StoresService, Carries, SelectsPods, Annotated, Secure;
    StoredAs(api.store, ServiceToSend(el, c, observed));
  }

  function DeploymentToSend(el: EventListener, c: Config, observed: Option<Deployment>): Deployment {
    if observed.Some? then MergeDeployment(MakeDeployment(el, c), observed.value) else MakeDeployment(el, c)
  }

  function DeploymentNotes(observed: Option<Deployment>): Labels {
    if observed.Some? then observed.value.annotations else map[]
  }

  /** The replica count the listener sets, if it does. */
  function WantedReplicas(el: EventListener): Option<int> {
    if el.kubernetes.Some? then el.kubernetes.value.replicas else None
  }

  /** The replica count that is there, if any. */
  function LiveReplicas(observed: Option<Deployment>): Option<int> {
    if observed.Some? then observed.value.spec.replicas else None
  }

  /** A Deployment as the listener and the configuration want it: labels and template, the replica
      count the listener sets or else the live one, and annotations as for the Service. */
  predicate DeploymentAsWanted(d: Deployment, el: EventListener, c: Config, before: Labels, live: Option<int>) {
    && Carries(d.labels, el, c) && d.spec.template == el.template && Annotated(d.annotations, el.annotations, before)
    && (WantedReplicas(el).Some? ==> d.spec.replicas == WantedReplicas(el))
    && (WantedReplicas(el).None? && live.Some? ==> d.spec.replicas == live)
  }

  lemma DeploymentSent(el: EventListener, c: Config, observed: Option<Deployment>)
    ensures var sent := DeploymentToSend(el, c, observed);
      DeploymentAsWanted(sent, el, c, DeploymentNotes(observed), LiveReplicas(observed))
  {
    AnnotatedMerge(el.annotations, DeploymentNotes(observed));
    hide MergeAnnotations, Annotated;
  }

  /** After a successful pass the Deployment is there as wanted, whatever was there before. */
  lemma DeploymentReached(el: EventListener, c: Config, observed: Option<Deployment>, api: Api<Deployment>)
    requires StoresDeployment(api.store) && DeploymentPass(MakeDeployment(el, c), observed, api).ok
    ensures var after := DeploymentPass(MakeDeployment(el, c), observed, api).stored;
      after.Some? && DeploymentAsWanted(after.value, el, c, DeploymentNotes(observed), LiveReplicas(observed))
  {
    DeploymentSent(el, c, observed);
    hide MakeDeployment, MergeDeployment, Carries, Annotated;
    var want := DeploymentToSend(el, c, observed);
    assert api.store(want).labels == want.labels;
  }
}
