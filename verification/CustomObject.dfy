/** The custom object of an EventListener: the field-by-field patcher, and passes over the object.

    Fields compared with deep equality and copied as a whole are opaque values. */
module CustomObject {
  import opened Wrappers
  import opened Conditions
  import opened Readiness
  import Reconcile

  type Value = string

  datatype Container = Container(name: string, image: string, ports: Value, args: Value, command: Option<Value>,
                                 resources: Value,
                                 env: Value, readinessProbe: Value, volumeMounts: Value, untracked: Value)

  /** The pod template of an object; `untracked` is every field the patcher does not look at. */
  datatype Pod = Pod(name: string, labels: Value, annotations: Value, serviceAccount: string, tolerations: Value,
                     nodeSelector: Value, affinity: Value, topology: Value, containers: seq<Container>,
                     volumes: Value, untracked: Value)

  function PatchContainer(want: Container, c: Container): Container {
    want.(command := None, untracked := c.untracked)
  }

  /** What one call of the patcher makes of an object. */
  function Patched(want: Pod, x: Pod): Pod
    requires want.containers != []
  {
    var same := want.(untracked := x.untracked, containers := x.containers, volumes := x.volumes);
    if |x.containers| != 1 then same.(containers := want.containers)
    else same.(containers := [PatchContainer(want.containers[0], x.containers[0])], volumes := want.volumes)
  }

  class WithPod {
    var name: string
    var labels: Value
    var annotations: Value
    var serviceAccount: string
    var tolerations: Value
    var nodeSelector: Value
    var affinity: Value
    var topology: Value
    var containers: seq<Container>
    var volumes: Value
    var untracked: Value

    constructor (p: Pod)
      ensures Contents() == p
    {
      name, labels, annotations, serviceAccount := p.name, p.labels, p.annotations, p.serviceAccount;
      tolerations, nodeSelector, affinity, topology := p.tolerations, p.nodeSelector, p.affinity, p.topology;
      containers, volumes, untracked := p.containers, p.volumes, p.untracked;
    }

    function Contents(): Pod
      reads this
    {
      Pod(name, labels, annotations, serviceAccount, tolerations, nodeSelector, affinity, topology, containers,
          volumes, untracked)
    }

    /** Name, labels, annotations and account; returns whether one of them changed. */
    method PatchMeta(want: Pod) returns (updated: bool)
      modifies this`name, this`labels, this`annotations, this`serviceAccount
      ensures name == want.name && labels == want.labels && annotations == want.annotations &&
        serviceAccount == want.serviceAccount
      ensures updated <==>
        (name, labels, annotations, serviceAccount) != old((name, labels, annotations, serviceAccount))
    {
      updated := false;
      if name != want.name { name := want.name; updated := true; }
      if labels != want.labels { labels := want.labels; updated := true; }
      if annotations != want.annotations { annotations := want.annotations; updated := true; }
      if serviceAccount != want.serviceAccount { serviceAccount := want.serviceAccount; updated := true; }
    }

    /** The scheduling fields; returns whether one of them changed. */
    method PatchScheduling(want: Pod) returns (updated: bool)
      modifies this`tolerations, this`nodeSelector, this`affinity, this`topology
      ensures tolerations == want.tolerations && nodeSelector == want.nodeSelector && affinity == want.affinity &&
        topology == want.topology
      ensures updated <==>
        (tolerations, nodeSelector, affinity, topology) != old((tolerations, nodeSelector, affinity, topology))
    {
      updated := false;
      if tolerations != want.tolerations { tolerations := want.tolerations; updated := true; }
      if nodeSelector != want.nodeSelector { nodeSelector := want.nodeSelector; updated := true; }
      if affinity != want.affinity { affinity := want.affinity; updated := true; }
      if topology != want.topology { topology := want.topology; updated := true; }
    }

    /** All fields of the template outside the containers; returns whether one of them changed. */
    method PatchTemplate(want: Pod) returns (updated: bool)
      modifies this
      ensures Contents() == want.(containers := old(containers), volumes := old(volumes), untracked := old(untracked))
      ensures updated <==> Contents() != old(Contents())
    {
      var meta := PatchMeta(want);
      var scheduling := PatchScheduling(want);
      updated := meta || scheduling;
    }

    /** What the only container runs; returns whether it changed. */
    method PatchProgram(want: Container) returns (updated: bool)
      requires |containers| == 1
      modifies this`containers
      ensures containers == [old(containers)[0].(name := want.name, image := want.image, ports := want.ports,
                                                 args := want.args, command := None)]
      ensures updated <==> containers != old(containers)
    {
      updated := false;
      var c := containers[0];
      if c.name != want.name { c := c.(name := want.name); updated := true; }
      if c.image != want.image { c := c.(image := want.image); updated := true; }
      if c.ports != want.ports { c := c.(ports := want.ports); updated := true; }
      if c.args != want.args { c := c.(args := want.args); updated := true; }
      if c.command.Some? { c := c.(command := None); updated := true; }
      containers := containers[0 := c];
      assert old(containers) == [old(containers)[0]];
    }

    /** What the only container runs with; returns whether it changed. */
    method PatchSurroundings(want: Container) returns (updated: bool)
      requires |containers| == 1
      modifies this`containers
      ensures containers == [old(containers)[0].(resources := want.resources, env := want.env,
                                                 readinessProbe := want.readinessProbe,
                                                 volumeMounts := want.volumeMounts)]
      ensures updated <==> containers != old(containers)
    {
      updated := false;
      var c := containers[0];
      if c.resources != want.resources { c := c.(resources := want.resources); updated := true; }
      if c.env != want.env { c := c.(env := want.env); updated := true; }
      if c.readinessProbe != want.readinessProbe { c := c.(readinessProbe := want.readinessProbe); updated := true; }
      if c.volumeMounts != want.volumeMounts { c := c.(volumeMounts := want.volumeMounts); updated := true; }
      containers := containers[0 := c];
      assert old(containers) == [old(containers)[0]];
    }

    /** The fields of the only container; returns whether one of them changed. */
    method PatchOnlyContainer(want: Container) returns (updated: bool)
      requires |containers| == 1
      modifies this`containers
      ensures containers == [PatchContainer(want, old(containers)[0])]
      ensures updated <==> containers != old(containers)
    {
      var program := PatchProgram(want);
      var surroundings := PatchSurroundings(want);
      updated := program || surroundings;
      assert old(containers) == [old(containers)[0]];
    }

    /** Patches the object towards the desired one; the flag is true exactly when it changed. */
    method UpdateCustomObject(want: Pod) returns (updated: bool)
      requires |want.containers| == 1
      modifies this
      ensures Contents() == old(Patched(want, Contents()))
      ensures updated <==> Contents() != old(Contents())
    {
      updated := PatchTemplate(want);
      if |containers| == 0 || |containers| > 1 {
        containers := want.containers;
        updated := true;
      } else {
        var changed := PatchOnlyContainer(want.containers[0]);
        updated := updated || changed;
        if volumes != want.volumes {
          volumes := want.volumes;
          updated := true;
        }
      }
    }
  }

  // ---- Fixpoints ---------------------------------------------------------------------

  /** With one container one patch is enough; otherwise two are, and the second changes something
      exactly when the volumes differ.  In the first case nothing untracked changes. */
  lemma PatchSettles(want: Pod, x: Pod)
    requires |want.containers| == 1
    ensures Patched(want, Patched(want, Patched(want, x))) == Patched(want, Patched(want, x))
    ensures |x.containers| == 1 ==>
      && Patched(want, Patched(want, x)) == Patched(want, x)
      && Patched(want, x).untracked == x.untracked
      && Patched(want, x).containers[0].untracked == x.containers[0].untracked
    ensures |x.containers| != 1 && want.containers[0].command.None? ==>
      (Patched(want, Patched(want, x)) == Patched(want, x) <==> x.volumes == want.volumes)
  {
    var c := want.containers[0];
    assert want.containers == [c];
    if |x.containers| == 1 { assert x.containers == [x.containers[0]]; }
  }

  /** The template fields of an object are the desired ones. */
  predicate TemplateReached(y: Pod, want: Pod) {
    && y.name == want.name && y.labels == want.labels && y.annotations == want.annotations
    && y.serviceAccount == want.serviceAccount && y.tolerations == want.tolerations
    && y.nodeSelector == want.nodeSelector && y.affinity == want.affinity && y.topology == want.topology
  }

  /** The tracked fields of a container are the desired ones. */
  predicate ContainerReached(c: Container, want: Container) {
    && c.name == want.name && c.image == want.image && c.ports == want.ports && c.args == want.args
    && c.resources == want.resources && c.env == want.env && c.readinessProbe == want.readinessProbe
    && c.volumeMounts == want.volumeMounts
  }

  predicate PodReached(y: Pod, want: Pod) {
    && TemplateReached(y, want) && y.volumes == want.volumes
    && |y.containers| == |want.containers| == 1 && ContainerReached(y.containers[0], want.containers[0])
  }

  /** A patch brings the template fields and, where there is one container, its tracked fields and the
      volumes to what is desired, and takes its command away; other containers are replaced.  Fields
      that are not tracked stay, but for those of replaced containers.  Two patches bring everything. */
  lemma PatchReaches(want: Pod, x: Pod)
    requires |want.containers| == 1
    ensures TemplateReached(Patched(want, x), want) && Patched(want, x).untracked == x.untracked
    ensures |x.containers| == 1 ==>
      && PodReached(Patched(want, x), want) && Patched(want, x).containers[0].command.None?
      && Patched(want, x).containers[0].untracked == x.containers[0].untracked
    ensures |x.containers| != 1 ==>
      Patched(want, x).containers == want.containers && Patched(want, x).volumes == x.volumes
    ensures PodReached(Patched(want, Patched(want, x)), want)
  {
  }

  // ---- Objects and the duck type -----------------------------------------------------

  /** A field of a spec: a pod template, or anything else. */
  datatype Field = Template(pod: Pod) | Plain(value: Value)

  /** `conditions` is what the object's status reports, if anything. */
  datatype Object = Object(labels: Reconcile.Labels, annotations: Reconcile.Labels, spec: map<string, Field>,
                           conditions: Option<seq<Condition>>)

  /** The object as the patcher's type has it: metadata and the pod template of the spec. */
  datatype Duck = Duck(labels: Reconcile.Labels, annotations: Reconcile.Labels, template: Pod)

  const TEMPLATE := "template"
  const EMPTY_POD := Pod("", "", "", "", "", "", "", "", [], "", "")

  /** The object can be read into that type. */
  predicate Readable(x: Object) {
    TEMPLATE in x.spec ==> x.spec[TEMPLATE].Template?
  }

  function PodOf(x: Object): Pod
    requires Readable(x)
  {
    if TEMPLATE in x.spec then x.spec[TEMPLATE].pod else EMPTY_POD
  }

  function ToDuck(x: Object): Duck
    requires Readable(x)
  {
    Duck(x.labels, x.annotations, PodOf(x))
  }

  function FromDuck(d: Duck): Object {
    Object(d.labels, d.annotations, map[TEMPLATE := Template(d.template)], None)
  }

  /** An object as the builder makes it: with a pod template of one container. */
  predicate Built(want: Object) {
    TEMPLATE in want.spec && want.spec[TEMPLATE].Template? && |want.spec[TEMPLATE].pod.containers| == 1
  }

  // ---- Passes ------------------------------------------------------------------------

  /** Labels and annotations of the object in a pass: desired ones, with every annotation that is
      there kept. */
  function Labelled(want: Object, x: Object): Object {
    x.(labels := want.labels, annotations := Reconcile.UnionMaps(want.annotations, x.annotations))
  }

  /** The object after the edits of a pass: relabelled and, if the specs differ and the patcher finds
      something to change, sent through the duck type.  `None` if it cannot be read into it. */
  function Edited(want: Object, x: Object): Option<Object>
    requires Built(want)
  {
    var l := Labelled(want, x);
    if want.spec == x.spec then Some(l)
    else if !Readable(x) then None
    else
      var d := ToDuck(l);
      var patched := Patched(PodOf(want), d.template);
      if patched == d.template then Some(l) else Some(FromDuck(d.(template := patched)))
  }

  /** The pass looks into the spec and the patcher finds something to change. */
  predicate NeedsPatch(want: Object, x: Object)
    requires Built(want) && Readable(x)
  {
    want.spec != x.spec && Patched(PodOf(want), PodOf(x)) != PodOf(x)
  }

  /** Whether a pass sends the object back to the server. */
  predicate Writes(want: Object, x: Object)
    requires Built(want)
  {
    Edited(want, x).Some? && Edited(want, x).value != x
  }

  /** What the server holds after a pass that found the object: as sent, the status being its own. */
  function AfterWrite(want: Object, x: Object, status: Option<seq<Condition>>): Object
    requires Built(want)
  {
    if Writes(want, x) then Edited(want, x).value.(conditions := status) else x
  }

  /** A pass creates an object that is not there. */
  function AfterPass(want: Object, o: Option<Object>, status: Option<seq<Condition>>): Option<Object>
    requires Built(want)
  {
    Some(if o.Some? then AfterWrite(want, o.value, status) else want.(conditions := status))
  }

  // ---- Passes settle -----------------------------------------------------------------

  /** How often passes with the same desired object write, the server reporting these statuses. */
  function WriteCount(want: Object, o: Option<Object>, statuses: seq<Option<seq<Condition>>>): nat
    requires Built(want)
    decreases |statuses|
  {
    if statuses == [] then 0
    else
      (if o.None? || Writes(want, o.value) then 1 else 0) +
      WriteCount(want, AfterPass(want, o, statuses[0]), statuses[1..])
  }

  /** However many passes there are, they write at most twice, whatever the object was and whatever
      status the server reports in between; at most once, if the object has exactly one container or
      was not there. */
  lemma {:induction false} CustomPassesSettle(want: Object, o: Option<Object>, statuses: seq<Option<seq<Condition>>>)
    requires Built(want)
    ensures WriteCount(want, o, statuses) <= 2
    ensures o.None? || (Readable(o.value) && |PodOf(o.value).containers| == 1) ==> WriteCount(want, o, statuses) <= 1
  {
    hide Writes, AfterWrite, Built;
    if statuses != [] {
      var y := AfterPass(want, o, statuses[0]);
      var later := statuses[1..];
      if o.None? {
        CreatedIsQuiet(want, statuses[0]);
        QuietStays(want, y.value, later);
      } else if later == [] {
      } else {
        TwoPassesSettle(want, o.value, statuses[0], later[0]);
        QuietStays(want, AfterWrite(want, y.value, later[0]), later[1..]);
        if Readable(o.value) && |PodOf(o.value).containers| == 1 { QuietStays(want, y.value, later); }
      }
    }
  }

  lemma CreatedIsQuiet(want: Object, s: Option<seq<Condition>>)
    requires Built(want)
    ensures !Writes(want, want.(conditions := s))
  {
  }

  lemma {:induction false} QuietStays(want: Object, x: Object, statuses: seq<Option<seq<Condition>>>)
    requires Built(want) && !Writes(want, x)
    ensures WriteCount(want, Some(x), statuses) == 0
    decreases |statuses|
  {
    hide Writes;
    if statuses != [] { QuietStays(want, x, statuses[1..]); }
  }

  lemma TwoPassesSettle(want: Object, x: Object, s1: Option<seq<Condition>>, s2: Option<seq<Condition>>)
    requires Built(want)
    ensures !Writes(want, AfterWrite(want, AfterWrite(want, x, s1), s2))
    ensures Readable(x) && |PodOf(x).containers| == 1 ==> !Writes(want, AfterWrite(want, x, s1))
  {
    if Readable(x) {
      var y := AfterWrite(want, x, s1);
      AfterOne(want, x, s1);
      AfterOne(want, y, s2);
      hide AfterWrite, Patched;
      PatchSettles(PodOf(want), PodOf(x));
      QuietWhenSettled(want, y);
      QuietWhenSettled(want, AfterWrite(want, y, s2));
    } else {
      assert Edited(want, x).None?;
    }
  }

  /** After a pass the labels and annotations are settled, and the template is the old one, if the
      spec was what is wanted, and else the patched one. */
  lemma AfterOne(want: Object, x: Object, s: Option<seq<Condition>>)
    requires Built(want) && Readable(x)
    ensures var y := AfterWrite(want, x, s);
      && Readable(y) && y.labels == want.labels
      && Reconcile.UnionMaps(want.annotations, y.annotations) == y.annotations
      && PodOf(y) == (if want.spec == x.spec then PodOf(x) else Patched(PodOf(want), PodOf(x)))
      && (want.spec == x.spec ==> y.spec == x.spec)
  {
    hide Patched;
    UnionSettles(want.annotations, x.annotations);
    if NeedsPatch(want, x) {
      PatchWrites(want, x);
    } else {
      UnpatchedPass(want, x, s);
    }
  }

  lemma UnionSettles(a: Reconcile.Labels, b: Reconcile.Labels)
    ensures Reconcile.UnionMaps(a, Reconcile.UnionMaps(a, b)) == Reconcile.UnionMaps(a, b)
  {
  }

  /** Without a patch only labels and annotations can change. */
  lemma UnpatchedPass(want: Object, x: Object, s: Option<seq<Condition>>)
    requires Built(want) && Readable(x) && !NeedsPatch(want, x)
    ensures Edited(want, x) == Some(Labelled(want, x))
    ensures var y, l := AfterWrite(want, x, s), Labelled(want, x);
      y.spec == x.spec && y.labels == l.labels && y.annotations == l.annotations
  {
    hide Patched;
    var l := Labelled(want, x);
    assert PodOf(l) == PodOf(x);
    assert Edited(want, x) == Some(l);
    if !Writes(want, x) { assert l == x; }
  }

  lemma QuietWhenSettled(want: Object, y: Object)
    requires Built(want) && Readable(y)
    requires y.labels == want.labels && Reconcile.UnionMaps(want.annotations, y.annotations) == y.annotations
    ensures !NeedsPatch(want, y) ==> !Writes(want, y)
  {
  }

  /** After two passes whose writes are accepted the object is what is desired: labels, every tracked
      field of the template, and of the annotations those that were there and the desired others. */
  lemma CustomReached(want: Object, x: Object, s1: Option<seq<Condition>>, s2: Option<seq<Condition>>)
    requires Built(want) && Readable(x)
    ensures var y := AfterWrite(want, AfterWrite(want, x, s1), s2);
      && Readable(y) && PodReached(PodOf(y), PodOf(want)) && y.labels == want.labels
      && Reconcile.Annotated(y.annotations, want.annotations, x.annotations)
  {
    var y := AfterWrite(want, x, s1);
    AfterOne(want, x, s1);
    AfterOne(want, y, s2);
    PatchReaches(PodOf(want), PodOf(x));
    PatchReaches(PodOf(want), PodOf(y));
    PassAnnotates(want, x, s1);
    PassAnnotates(want, y, s2);
    hide AfterWrite, Patched, Built;
    SelfReached(PodOf(want));
    AnnotatedTwice(want.annotations, x.annotations, y.annotations, AfterWrite(want, y, s2).annotations);
  }

  lemma SelfReached(want: Pod)
    requires |want.containers| == 1
    ensures PodReached(want, want)
  {
  }

  lemma PassAnnotates(want: Object, x: Object, s: Option<seq<Condition>>)
    requires Built(want) && Readable(x)
    ensures Reconcile.Annotated(AfterWrite(want, x, s).annotations, want.annotations, x.annotations)
  {
    hide Patched;
    if NeedsPatch(want, x) { PatchWrites(want, x); } else { UnpatchedPass(want, x, s); }
  }

  lemma AnnotatedTwice(wanted: Reconcile.Labels, a: Reconcile.Labels, b: Reconcile.Labels, c: Reconcile.Labels)
    requires Reconcile.Annotated(b, wanted, a) && Reconcile.Annotated(c, wanted, b)
    ensures Reconcile.Annotated(c, wanted, a)
  {
  }

  // ---- Every run ---------------------------------------------------------------------

  /** A pass, its writes refused or not, or somebody else's edit. */
  datatype CustomEvent =
    | CustomPass(want: Object, refused: bool, status: Option<seq<Condition>>)
    | CustomEdit(edited: Option<Object>)

  predicate Possible(e: CustomEvent) {
    e.CustomPass? ==> Built(e.want)
  }

  function Next(o: Option<Object>, e: CustomEvent): Option<Object>
    requires Possible(e)
  {
    match e
    case CustomEdit(x) => x
    case CustomPass(want, refused, status) => if refused then o else AfterPass(want, o, status)
  }

  predicate AllPossible(es: seq<CustomEvent>) {
    forall k :: 0 <= k < |es| ==> Possible(es[k])
  }

  function AfterEvents(o: Option<Object>, es: seq<CustomEvent>): Option<Object>
    requires AllPossible(es)
  {
    if es == [] then o else Next(AfterEvents(o, es[..|es| - 1]), es[|es| - 1])
  }

  /** The object is still there with all the annotations it had. */
  predicate Kept(o: Option<Object>, o': Option<Object>) {
    o.Some? ==> o'.Some? && Reconcile.KeepsAll(o.value.annotations, o'.value.annotations)
  }

  lemma OnePassKeeps(o: Option<Object>, e: CustomEvent)
    requires Possible(e) && e.CustomPass?
    ensures Kept(o, Next(o, e))
  {
  }

  /** In every run of passes, refused writes and outside edits: between any two points with only
      passes between them, however the listener changes meanwhile, no annotation that is on the
      object is removed or altered. */
  lemma {:induction false} CustomAnnotationsKept(o: Option<Object>, es: seq<CustomEvent>, i: nat, j: nat)
    requires AllPossible(es) && i <= j <= |es| && forall k :: i <= k < j ==> es[k].CustomPass?
    ensures Kept(AfterEvents(o, es[..i]), AfterEvents(o, es[..j]))
    decreases j
  {
    hide Next, Possible;
    if i < j {
      var n := j - 1;
      CustomAnnotationsKept(o, es, i, n);
      assert es[..j][..n] == es[..n];
      OnePassKeeps(AfterEvents(o, es[..n]), es[n]);
    }
  }

  // ---- What a patch costs ------------------------------------------------------------

  /** The fields of the spec outside the pod template. */
  function OtherFields(x: Object): map<string, Field> {
    map k | k in x.spec && k != TEMPLATE :: x.spec[k]
  }

  /** They survive a pass exactly when there are none or the template needs no patch; a pass that
      patches loses them all, because the duck type has no place for them. */
  lemma PatchDropsOutside(want: Object, x: Object, s: Option<seq<Condition>>)
    requires Built(want) && Readable(x)
    ensures OtherFields(AfterWrite(want, x, s)) == OtherFields(x) <==> OtherFields(x) == map[] || !NeedsPatch(want, x)
    ensures NeedsPatch(want, x) ==> OtherFields(AfterWrite(want, x, s)) == map[]
  {
    var y := AfterWrite(want, x, s);
    if NeedsPatch(want, x) {
      PatchWrites(want, x);
      assert y.spec == map[TEMPLATE := Template(Patched(PodOf(want), PodOf(x)))];
      assert OtherFields(y) == map[];
    } else {
      UnpatchedPass(want, x, s);
    }
  }

  lemma PatchWrites(want: Object, x: Object)
    requires Built(want) && Readable(x) && NeedsPatch(want, x)
    ensures Writes(want, x)
    ensures Edited(want, x).value.spec == map[TEMPLATE := Template(Patched(PodOf(want), PodOf(x)))]
    ensures Edited(want, x).value.conditions.None?
  {
    var e := Edited(want, x).value;
    assert PodOf(e) != PodOf(x);
  }

  /** What a pass that found the object ends with: an error, or a look at the conditions. */
  function Outcome(want: Object, x: Object, refused: bool): CustomResult
    requires Built(want)
  {
    if Edited(want, x).None? || (Writes(want, x) && refused) then Ended else Looked(Edited(want, x).value.conditions)
  }

  /** A pass that has to patch the object never ends with Ready true: it looks for conditions on an
      object that came back from the duck type without status. */
  lemma PatchingIsNotReady(cs: seq<Condition>, want: Object, x: Object, refused: bool, now: int)
    requires Built(want) && Unique(cs)
    ensures var r := AfterCustomPass(cs, Outcome(want, x, refused), now);
      StatusOf(r, READY) == Some(Yes) <==>
        && Readable(x) && !NeedsPatch(want, x) && !(Writes(want, x) && refused)
        && x.conditions.Some? && !NotReadyYet(x.conditions.value)
  {
    hide AfterCustomPass, StatusOf, Unique;
    CustomReadyMeaning(cs, Outcome(want, x, refused), now);
    if Readable(x) && NeedsPatch(want, x) { PatchWrites(want, x); }
  }
}
