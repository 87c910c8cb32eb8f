/**
  The reconciled picture of a cluster's live objects (`RemoteObjectUtils`):
  discovery of labelled objects across every listable kind, resolution of
  explicitly referenced objects not found that way, the namespace index,
  and the read accessors over the finished snapshot.

  The cluster is an oracle: what listing a kind or getting a single object
  returns. The fan-out over kinds and references is a left-to-right fold;
  the resulting key sets are stated order-free (`Returned`, `FetchedRefs`).
 */
module RemoteObjects {
  import opened Common

  datatype Gvk = Gvk(group: string, version: string, kind: string)

  /** An object's identity: kind, namespace and name. */
  datatype ObjectRef = ObjectRef(gvk: Gvk, namespace: string, name: string)

  /** The parts of a live object this layer reads. */
  datatype Object = Object(gvk: Gvk, namespace: string, name: string,
                           labels: map<string, string>, annotations: map<string, string>)

  type Labels = map<string, string>

  /** `GetK8sRef()`: an object is identified by its kind, namespace and
      name; labels and annotations play no part. */
  function RefOf(o: Object): (r: ObjectRef)
    ensures r.gvk == o.gvk && r.namespace == o.namespace && r.name == o.name
  {
    ObjectRef(o.gvk, o.namespace, o.name)
  }

  /** The reference reports about a whole kind are filed under. */
  function KindRef(gvk: Gvk): ObjectRef {
    ObjectRef(gvk, "", "")
  }

  /** The empty reference aggregate reports are filed under. */
  const NoRef := ObjectRef(Gvk("", "", ""), "", "")

  const NamespaceKind := Gvk("", "v1", "Namespace")

  /** Every object is stored under its own reference. */
  predicate WellKeyed(m: map<ObjectRef, Object>) {
    forall k :: k in m ==> RefOf(m[k]) == k
  }

  /** Every namespace is stored under its own name. */
  predicate NamespacesWellKeyed(m: map<string, Object>) {
    forall n :: n in m ==> m[n].name == n
  }

  // ---------------------------------------------------------------------------
  // The cluster as seen through its API

  /** A resource kind and the verbs the API server allows on it. */
  datatype ApiResource = ApiResource(gvk: Gvk, verbs: seq<string>)

  datatype ApiError = NotFound | Forbidden | Unauthorized | Other(message: string)

  predicate IsPermission(e: ApiError) {
    e.Forbidden? || e.Unauthorized?
  }

  datatype Fetch<+T> = Fetched(value: T) | Failed(error: ApiError)

  /** The API access collaborator. `resources` are the registry's preferred
      API resources, one per group and kind (the registry's choice of the
      preferred version is not modelled). `discoveryJoin` and
      `resolutionJoin` are what the fan-out helper reports after joining the
      goroutines of discovery and of resolution. */
  datatype Cluster = Cluster(
    resources: seq<ApiResource>,
    listObjects: (Gvk, Labels) -> Fetch<seq<Object>>,
    getObject: ObjectRef -> Fetch<Object>,
    discoveryJoin: Option<ApiError>,
    resolutionJoin: Option<ApiError>)

  // ---------------------------------------------------------------------------
  // State and observations

  /** Why something was reported: an API error, or an aggregate advisory. */
  datatype Cause = Api(error: ApiError) | Advisory(text: string)

  datatype Report = Report(ref: ObjectRef, cause: Cause)

  /** A call made to the cluster. */
  datatype Request = List(gvk: Gvk, selector: Labels) | Get(ref: ObjectRef)

  /** The snapshot maps, and the warning and error logs of the shared
      deployment errors-and-warnings collector. */
  datatype State = State(
    objects: map<ObjectRef, Object>,
    namespaces: map<string, Object>,
    warnings: seq<Report>,
    errors: seq<Report>)

  /** What one stage did: the new state, its calls in order, and its error. */
  datatype Stage = Stage(state: State, requests: seq<Request>, error: Option<ApiError>)

  const DiscoveryAdvisory := "at least one permission error was encountered while gathering objects by labels. This might result in orphan object detection to not work properly"
  const ResolutionAdvisory := "at least one permission error was encountered while gathering known objects. This might result in orphan object detection and diffs to not work properly"

  /** A fresh snapshot reporting into the given logs. */
  function NewRemoteObjects(warnings: seq<Report>, errors: seq<Report>): (r: State)
    ensures r.objects == map[] && r.namespaces == map[]
    ensures r.warnings == warnings && r.errors == errors
  {
    State(map[], map[], warnings, errors)
  }

  /** The number of advisory reports in `rs`. */
  function Advisories(rs: seq<Report>): nat
    decreases |rs|
  {
    if rs == [] then 0 else (if rs[0].cause.Advisory? then 1 else 0) + Advisories(rs[1..])
  }

  lemma {:induction false} AdvisoriesAppend(a: seq<Report>, b: seq<Report>)
    ensures Advisories(a + b) == Advisories(a) + Advisories(b)
    decreases |a|
  {
    if a == [] {
      assert a + b == b;
    } else {
      assert (a + b)[1..] == a[1..] + b;
      AdvisoriesAppend(a[1..], b);
    }
  }

  lemma {:induction false} NoAdvisories(rs: seq<Report>)
    requires forall j :: 0 <= j < |rs| ==> rs[j].cause.Api?
    ensures Advisories(rs) == 0
    decreases |rs|
  {
    if rs != [] {
      NoAdvisories(rs[1..]);
    }
  }

  // ---------------------------------------------------------------------------
  // Merging listed objects

  /** `r` is `objs` stored under `key` on top of `m`, later ones winning:
      the old keys and those of `objs`; keying is kept; every stored value
      is an old one or one of `objs`; keys no object has keep their old
      value; a key some object has holds one of `objs`; and each key ends up
      holding the last object with that key. */
  ghost predicate Indexed<K>(m: map<K, Object>, objs: seq<Object>, key: Object -> K, r: map<K, Object>) {
    && r.Keys == m.Keys + (set o | o in objs :: key(o))
    && ((forall k :: k in m ==> key(m[k]) == k) ==> forall k :: k in r ==> key(r[k]) == k)
    && (forall k :: k in r ==> r[k] in objs || (k in m && r[k] == m[k]))
    && (forall k :: k in m && (forall o :: o in objs ==> key(o) != k) ==> r[k] == m[k])
    && (forall o :: o in objs ==> r[key(o)] in objs)
    && (forall i :: 0 <= i < |objs| && (forall j :: i < j < |objs| ==> key(objs[j]) != key(objs[i])) ==>
          r[key(objs[i])] == objs[i])
  }

  /** `objs` stored under `key` on top of `m`, later ones winning. */
  function IndexBy<K>(m: map<K, Object>, objs: seq<Object>, key: Object -> K): (r: map<K, Object>)
    ensures Indexed(m, objs, key, r)
    decreases |objs|
  {
    if objs == [] then m
    else
      var m1 := m[key(objs[0]) := objs[0]];
      var rest := objs[1..];
      var r := IndexBy(m1, rest, key);
      IndexStep(m, objs, key, r);
      IndexLast(m1, objs, key, r);
      IndexHeld(m1, objs, key, r);
      r
  }

  /** The first object stored, then the rest indexed: keys, keying and
      values as `IndexBy` promises them. */
  lemma IndexStep<K>(m: map<K, Object>, objs: seq<Object>, key: Object -> K, r: map<K, Object>)
    requires objs != []
    requires var m1 := m[key(objs[0]) := objs[0]];
      && r.Keys == m1.Keys + (set o | o in objs[1..] :: key(o))
      && ((forall k :: k in m1 ==> key(m1[k]) == k) ==> forall k :: k in r ==> key(r[k]) == k)
      && (forall k :: k in r ==> r[k] in objs[1..] || (k in m1 && r[k] == m1[k]))
      && (forall k :: k in m1 && (forall o :: o in objs[1..] ==> key(o) != k) ==> r[k] == m1[k])
    ensures r.Keys == m.Keys + set o | o in objs :: key(o)
    ensures (forall k :: k in m ==> key(m[k]) == k) ==> forall k :: k in r ==> key(r[k]) == k
    ensures forall k :: k in r ==> r[k] in objs || (k in m && r[k] == m[k])
    ensures forall k :: k in m && (forall o :: o in objs ==> key(o) != k) ==> r[k] == m[k]
  {
  }

  /** The last-wins step of `IndexBy`: the first object, when no later one
      shares its key, is what indexing the rest leaves in place. */
  lemma IndexLast<K>(m1: map<K, Object>, objs: seq<Object>, key: Object -> K, r: map<K, Object>)
    requires objs != [] && key(objs[0]) in m1 && m1[key(objs[0])] == objs[0]
    requires m1.Keys <= r.Keys && forall o :: o in objs ==> key(o) in r
    requires forall k :: k in m1 && (forall o :: o in objs[1..] ==> key(o) != k) ==> r[k] == m1[k]
    requires forall i :: 0 <= i < |objs[1..]| && (forall j :: i < j < |objs[1..]| ==> key(objs[1..][j]) != key(objs[1..][i])) ==>
               r[key(objs[1..][i])] == objs[1..][i]
    ensures forall i :: 0 <= i < |objs| && (forall j :: i < j < |objs| ==> key(objs[j]) != key(objs[i])) ==>
              r[key(objs[i])] == objs[i]
  {
  }

  /** The held-object step of `IndexBy`: a key of the first object holds
      the first object itself or what indexing the rest stored there. */
  lemma IndexHeld<K>(m1: map<K, Object>, objs: seq<Object>, key: Object -> K, r: map<K, Object>)
    requires objs != [] && key(objs[0]) in m1 && m1[key(objs[0])] == objs[0]
    requires m1.Keys <= r.Keys && forall o :: o in objs ==> key(o) in r
    requires forall k :: k in m1 && (forall o :: o in objs[1..] ==> key(o) != k) ==> r[k] == m1[k]
    requires forall o :: o in objs[1..] ==> r[key(o)] in objs[1..]
    ensures forall o :: o in objs ==> r[key(o)] in objs
  {
    assert objs == [objs[0]] + objs[1..];
    forall o | o in objs
      ensures r[key(o)] in objs
    {
      if o !in objs[1..] && exists p :: p in objs[1..] && key(p) == key(o) {
        var p :| p in objs[1..] && key(p) == key(o);
        assert r[key(p)] in objs[1..];
      }
    }
  }

  /** Listed objects stored under their references, later ones winning
      (the loop over a listing's items). */
  function Merge(m: map<ObjectRef, Object>, objs: seq<Object>): (r: map<ObjectRef, Object>)
    ensures r.Keys == m.Keys + set o | o in objs :: RefOf(o)
    ensures WellKeyed(m) ==> WellKeyed(r)
    ensures forall k :: k in r ==> r[k] in objs || (k in m && r[k] == m[k])
    ensures forall k :: k in m && (forall o :: o in objs ==> RefOf(o) != k) ==> k in r && r[k] == m[k]
    ensures forall o :: o in objs ==> RefOf(o) in r && r[RefOf(o)] in objs
    ensures forall i :: 0 <= i < |objs| && (forall j :: i < j < |objs| ==> RefOf(objs[j]) != RefOf(objs[i])) ==>
              RefOf(objs[i]) in r && r[RefOf(objs[i])] == objs[i]
  {
    var r := IndexBy(m, objs, RefOf);
    MergeIndexed(m, objs, r);
    r
  }

  /** What `Indexed` says, spelled out for references. */
  lemma MergeIndexed(m: map<ObjectRef, Object>, objs: seq<Object>, r: map<ObjectRef, Object>)
    requires Indexed(m, objs, RefOf, r)
    ensures r.Keys == m.Keys + set o | o in objs :: RefOf(o)
    ensures WellKeyed(m) ==> WellKeyed(r)
    ensures forall k :: k in r ==> r[k] in objs || (k in m && r[k] == m[k])
    ensures forall k :: k in m && (forall o :: o in objs ==> RefOf(o) != k) ==> k in r && r[k] == m[k]
    ensures forall o :: o in objs ==> RefOf(o) in r && r[RefOf(o)] in objs
    ensures forall i :: 0 <= i < |objs| && (forall j :: i < j < |objs| ==> RefOf(objs[j]) != RefOf(objs[i])) ==>
              RefOf(objs[i]) in r && r[RefOf(objs[i])] == objs[i]
  {
    MergeKeys(m, objs, r);
    MergeKeyed(m, objs, r);
    MergeValues(m, objs, r);
  }

  lemma MergeKeys(m: map<ObjectRef, Object>, objs: seq<Object>, r: map<ObjectRef, Object>)
    requires r.Keys == m.Keys + set o | o in objs :: (RefOf)(o)
    ensures r.Keys == m.Keys + set o | o in objs :: RefOf(o)
  {
    assert (set o | o in objs :: RefOf(o)) == set o | o in objs :: (RefOf)(o);
  }

  lemma MergeKeyed(m: map<ObjectRef, Object>, objs: seq<Object>, r: map<ObjectRef, Object>)
    requires Indexed(m, objs, RefOf, r)
    ensures WellKeyed(m) ==> WellKeyed(r)
  {
  }

  lemma MergeValues(m: map<ObjectRef, Object>, objs: seq<Object>, r: map<ObjectRef, Object>)
    requires Indexed(m, objs, RefOf, r)
    ensures forall k :: k in r ==> r[k] in objs || (k in m && r[k] == m[k])
    ensures forall k :: k in m && (forall o :: o in objs ==> RefOf(o) != k) ==> k in r && r[k] == m[k]
    ensures forall o :: o in objs ==> RefOf(o) in r && r[RefOf(o)] in objs
    ensures forall i :: 0 <= i < |objs| && (forall j :: i < j < |objs| ==> RefOf(objs[j]) != RefOf(objs[i])) ==>
              RefOf(objs[i]) in r && r[RefOf(objs[i])] == objs[i]
  {
    forall o | o in objs
      ensures RefOf(o) in r
    {
      assert (RefOf)(o) in (set p | p in objs :: (RefOf)(p));
    }
  }

  /** `after` is `before` with objects of `sources` stored under the keys
      `added`: the old keys and the added ones; every value is the old one
      or one of `sources`; a key not added keeps its value; an added key
      holds one of `sources`, even when it had a value before; a well-keyed
      map stays well keyed. */
  ghost predicate ObjectsAdded(before: map<ObjectRef, Object>, after: map<ObjectRef, Object>,
                               added: set<ObjectRef>, sources: set<Object>) {
    && after.Keys == before.Keys + added
    && (WellKeyed(before) ==> WellKeyed(after))
    && (forall k :: k in after ==> (k in before && after[k] == before[k]) || after[k] in sources)
    && (forall k :: k in before && k !in added ==> after[k] == before[k])
    && (forall k :: k in added ==> k in after && after[k] in sources)
  }

  /** The clauses of `ObjectsAdded`, one by one. */
  lemma Added(before: map<ObjectRef, Object>, after: map<ObjectRef, Object>,
              added: set<ObjectRef>, sources: set<Object>)
    requires after.Keys == before.Keys + added
    requires WellKeyed(before) ==> WellKeyed(after)
    requires forall k :: k in after ==> (k in before && after[k] == before[k]) || after[k] in sources
    requires forall k :: k in before && k !in added ==> after[k] == before[k]
    requires forall k :: k in added ==> k in after && after[k] in sources
    ensures ObjectsAdded(before, after, added, sources)
  {
  }

  // ---------------------------------------------------------------------------
  // Stage 1: discovery by label

  /** The preferred kinds whose verbs include "list", in registry order. */
  function ListableKinds(resources: seq<ApiResource>): (kinds: seq<Gvk>)
    ensures forall g :: g in kinds <==>
              exists i :: 0 <= i < |resources| && resources[i].gvk == g && "list" in resources[i].verbs
    decreases |resources|
  {
    if resources == [] then []
    else
      var rest := ListableKinds(resources[1..]);
      assert forall i :: 0 < i < |resources| ==> resources[i] == resources[1..][i - 1];
      (if "list" in resources[0].verbs then [resources[0].gvk] else []) + rest
  }

  /** Counters and reports accumulated over the fan-out of one stage. */
  datatype Tally = Tally(objects: map<ObjectRef, Object>, reports: seq<Report>, errCount: nat, permCount: nat)

  function Listed(c: Cluster, labels: Labels, g: Gvk): Fetch<seq<Object>> {
    c.listObjects(g, labels)
  }

  predicate DeniedKind(c: Cluster, labels: Labels, g: Gvk) {
    Listed(c, labels, g).Failed? && IsPermission(Listed(c, labels, g).error)
  }

  predicate FailedKind(c: Cluster, labels: Labels, g: Gvk) {
    Listed(c, labels, g).Failed? && Listed(c, labels, g).error.Other?
  }

  /** How many positions of `kinds` hold a kind whose listing failed with an
      error other than not-found or a permission error. */
  function FailedKindCount(kinds: seq<Gvk>, c: Cluster, labels: Labels): nat
    decreases |kinds|
  {
    if kinds == [] then 0
    else (if FailedKind(c, labels, kinds[0]) then 1 else 0) + FailedKindCount(kinds[1..], c, labels)
  }

  /** The references of every object a successful listing of `kinds` returned. */
  ghost function Returned(kinds: seq<Gvk>, c: Cluster, labels: Labels): set<ObjectRef> {
    set g, o | g in kinds && Listed(c, labels, g).Fetched? && o in Listed(c, labels, g).value :: RefOf(o)
  }

  /** Every object a successful listing of `kinds` returned. */
  ghost function ListedObjects(kinds: seq<Gvk>, c: Cluster, labels: Labels): set<Object> {
    set g, o | g in kinds && Listed(c, labels, g).Fetched? && o in Listed(c, labels, g).value :: o
  }

  /** The outcome of listing one kind folded into the tally. */
  function ListKind(t: Tally, g: Gvk, res: Fetch<seq<Object>>): Tally {
    if res.Fetched? then t.(objects := Merge(t.objects, res.value))
    else if res.error.NotFound? then t
    else if IsPermission(res.error) then t.(errCount := t.errCount + 1, permCount := t.permCount + 1)
    else t.(errCount := t.errCount + 1, reports := t.reports + [Report(KindRef(g), Api(res.error))])
  }

  /** `w` is the per-kind warning for a kind of `kinds` whose listing failed
      with an error other than not-found or a permission error. */
  predicate KindWarning(w: Report, kinds: seq<Gvk>, c: Cluster, labels: Labels) {
    && w.ref == KindRef(w.ref.gvk)
    && w.ref.gvk in kinds
    && FailedKind(c, labels, w.ref.gvk)
    && w.cause == Api(Listed(c, labels, w.ref.gvk).error)
  }

  predicate SomeDenied(kinds: seq<Gvk>, c: Cluster, labels: Labels) {
    exists g :: g in kinds && DeniedKind(c, labels, g)
  }

  /** Every kind listed in turn: successes merged, not-found ignored,
      permission errors counted twice and never reported per kind, any other
      error counted and reported once for its kind. */
  function ListKinds(t: Tally, kinds: seq<Gvk>, c: Cluster, labels: Labels): (r: Tally)
    ensures r.objects.Keys == t.objects.Keys + Returned(kinds, c, labels)
    ensures WellKeyed(t.objects) ==> WellKeyed(r.objects)
    ensures forall k :: k in r.objects ==>
              (k in t.objects && r.objects[k] == t.objects[k]) || r.objects[k] in ListedObjects(kinds, c, labels)
    ensures forall k :: k in t.objects && k !in Returned(kinds, c, labels) ==> r.objects[k] == t.objects[k]
    ensures forall k :: k in Returned(kinds, c, labels) ==>
              k in r.objects && r.objects[k] in ListedObjects(kinds, c, labels)
    ensures |t.reports| <= |r.reports| && r.reports[..|t.reports|] == t.reports
    ensures forall j :: |t.reports| <= j < |r.reports| ==> KindWarning(r.reports[j], kinds, c, labels)
    ensures forall g :: g in kinds && FailedKind(c, labels, g) ==>
              Report(KindRef(g), Api(Listed(c, labels, g).error)) in r.reports[|t.reports|..]
    ensures |r.reports| - |t.reports| == FailedKindCount(kinds, c, labels)
    ensures r.permCount >= t.permCount
    ensures r.permCount > t.permCount <==> SomeDenied(kinds, c, labels)
    ensures r.errCount == t.errCount + (r.permCount - t.permCount) + (|r.reports| - |t.reports|)
    decreases |kinds|
  {
    if kinds == [] then t
    else
      var g := kinds[0];
      var t1 := ListKind(t, g, Listed(c, labels, g));
      var r := ListKinds(t1, kinds[1..], c, labels);
      ListKindsKeys(t, kinds, c, labels, t1, r);
      ListKindsValues(t, kinds, c, labels, t1, r);
      ListKindsHeld(t, kinds, c, labels, t1, r);
      ListKindsReports(t, kinds, c, labels, t1, r);
      ListKindsCounts(t, kinds, c, labels, t1, r);
      ListKindsReportCount(t, kinds, c, labels, t1, r);
      r
  }

  lemma ListKindsKeys(t: Tally, kinds: seq<Gvk>, c: Cluster, labels: Labels, t1: Tally, r: Tally)
    requires kinds != [] && t1 == ListKind(t, kinds[0], Listed(c, labels, kinds[0]))
    requires r.objects.Keys == t1.objects.Keys + Returned(kinds[1..], c, labels)
    requires WellKeyed(t1.objects) ==> WellKeyed(r.objects)
    ensures r.objects.Keys == t.objects.Keys + Returned(kinds, c, labels)
    ensures WellKeyed(t.objects) ==> WellKeyed(r.objects)
  {
    var res := Listed(c, labels, kinds[0]);
    ReturnedFirst(kinds, c, labels);
    ListKindStep(t, kinds[0], res);
    UnionStep(t.objects.Keys, t1.objects.Keys, r.objects.Keys,
              if res.Fetched? then (set o | o in res.value :: RefOf(o)) else {},
              Returned(kinds[1..], c, labels), Returned(kinds, c, labels));
  }

  /** Keys added in two steps are the union of both steps' keys. */
  lemma UnionStep<T>(before: set<T>, middle: set<T>, after: set<T>, first: set<T>, rest: set<T>, all: set<T>)
    requires middle == before + first && after == middle + rest && all == first + rest
    ensures after == before + all
  {
  }

  /** One kind's outcome: a successful listing adds exactly its references;
      any failure leaves the objects alone. */
  lemma ListKindStep(t: Tally, g: Gvk, res: Fetch<seq<Object>>)
    ensures var t1 := ListKind(t, g, res);
      && t1.objects.Keys == t.objects.Keys + (if res.Fetched? then (set o | o in res.value :: RefOf(o)) else {})
      && (WellKeyed(t.objects) ==> WellKeyed(t1.objects))
  {
  }

  /** After a successful listing, each listed reference holds one of the
      listed objects. */
  lemma ListKindHolds(t: Tally, g: Gvk, res: Fetch<seq<Object>>)
    requires res.Fetched?
    ensures var t1 := ListKind(t, g, res);
      forall o :: o in res.value ==> RefOf(o) in t1.objects && t1.objects[RefOf(o)] in res.value
  {
  }

  /** The references a listing returned: those of the first kind, then
      those of the rest. */
  lemma ReturnedFirst(kinds: seq<Gvk>, c: Cluster, labels: Labels)
    requires kinds != []
    ensures var res := Listed(c, labels, kinds[0]);
      Returned(kinds, c, labels) ==
      (if res.Fetched? then (set o | o in res.value :: RefOf(o)) else {}) + Returned(kinds[1..], c, labels)
  {
  }

  lemma ListKindsValues(t: Tally, kinds: seq<Gvk>, c: Cluster, labels: Labels, t1: Tally, r: Tally)
    requires kinds != [] && t1 == ListKind(t, kinds[0], Listed(c, labels, kinds[0]))
    requires r.objects.Keys == t1.objects.Keys + Returned(kinds[1..], c, labels)
    requires forall k :: k in r.objects ==>
               (k in t1.objects && r.objects[k] == t1.objects[k]) || r.objects[k] in ListedObjects(kinds[1..], c, labels)
    requires forall k :: k in t1.objects && k !in Returned(kinds[1..], c, labels) ==> r.objects[k] == t1.objects[k]
    ensures forall k :: k in r.objects ==>
              (k in t.objects && r.objects[k] == t.objects[k]) || r.objects[k] in ListedObjects(kinds, c, labels)
    ensures forall k :: k in t.objects && k !in Returned(kinds, c, labels) ==> r.objects[k] == t.objects[k]
  {
  }

  /** A reference the first kind's listing returned and no later listing
      did still holds the object that listing stored. */
  lemma ListKindsHeld(t: Tally, kinds: seq<Gvk>, c: Cluster, labels: Labels, t1: Tally, r: Tally)
    requires kinds != [] && t1 == ListKind(t, kinds[0], Listed(c, labels, kinds[0]))
    requires r.objects.Keys == t1.objects.Keys + Returned(kinds[1..], c, labels)
    requires forall k :: k in t1.objects && k !in Returned(kinds[1..], c, labels) ==> r.objects[k] == t1.objects[k]
    requires forall k :: k in Returned(kinds[1..], c, labels) ==>
               k in r.objects && r.objects[k] in ListedObjects(kinds[1..], c, labels)
    ensures forall k :: k in Returned(kinds, c, labels) ==>
              k in r.objects && r.objects[k] in ListedObjects(kinds, c, labels)
  {
    var g := kinds[0];
    var res := Listed(c, labels, g);
    ReturnedFirst(kinds, c, labels);
    assert forall h :: h in kinds[1..] ==> h in kinds;
    assert ListedObjects(kinds[1..], c, labels) <= ListedObjects(kinds, c, labels);
    forall k | k in Returned(kinds, c, labels)
      ensures k in r.objects && r.objects[k] in ListedObjects(kinds, c, labels)
    {
      if k !in Returned(kinds[1..], c, labels) {
        assert res.Fetched? && k in (set o | o in res.value :: RefOf(o));
        ListKindHolds(t, g, res);
        assert g in kinds && t1.objects[k] in Listed(c, labels, g).value;
      }
    }
  }

  lemma ListKindsReports(t: Tally, kinds: seq<Gvk>, c: Cluster, labels: Labels, t1: Tally, r: Tally)
    requires kinds != [] && t1 == ListKind(t, kinds[0], Listed(c, labels, kinds[0]))
    requires |t1.reports| <= |r.reports| && r.reports[..|t1.reports|] == t1.reports
    requires forall j :: |t1.reports| <= j < |r.reports| ==> KindWarning(r.reports[j], kinds[1..], c, labels)
    requires forall g :: g in kinds[1..] && FailedKind(c, labels, g) ==>
               Report(KindRef(g), Api(Listed(c, labels, g).error)) in r.reports[|t1.reports|..]
    ensures |t.reports| <= |r.reports| && r.reports[..|t.reports|] == t.reports
    ensures forall j :: |t.reports| <= j < |r.reports| ==> KindWarning(r.reports[j], kinds, c, labels)
    ensures forall g :: g in kinds && FailedKind(c, labels, g) ==>
              Report(KindRef(g), Api(Listed(c, labels, g).error)) in r.reports[|t.reports|..]
  {
    var g := kinds[0];
    var rest := kinds[1..];
    assert forall h :: h in rest ==> h in kinds;
    assert forall h :: h in kinds ==> h == g || h in rest by {
      assert kinds == [g] + rest;
    }
    forall j | |t1.reports| <= j < |r.reports|
      ensures KindWarning(r.reports[j], kinds, c, labels)
    {
      assert KindWarning(r.reports[j], rest, c, labels);
    }
    ListKindsTail(t.reports, t1.reports, r.reports);
    if FailedKind(c, labels, g) {
      var w := Report(KindRef(g), Api(Listed(c, labels, g).error));
      assert t1.reports == t.reports + [w];
      assert r.reports[..|t.reports|] == t1.reports[..|t.reports|];
      assert r.reports[|t.reports|] == w;
      assert r.reports[|t.reports|..][0] == w;
    } else {
      assert t1.reports == t.reports;
    }
  }

  lemma ListKindsCounts(t: Tally, kinds: seq<Gvk>, c: Cluster, labels: Labels, t1: Tally, r: Tally)
    requires kinds != [] && t1 == ListKind(t, kinds[0], Listed(c, labels, kinds[0]))
    requires |t1.reports| <= |r.reports|
    requires r.permCount >= t1.permCount
    requires r.permCount > t1.permCount <==> SomeDenied(kinds[1..], c, labels)
    requires r.errCount == t1.errCount + (r.permCount - t1.permCount) + (|r.reports| - |t1.reports|)
    ensures r.permCount >= t.permCount
    ensures r.permCount > t.permCount <==> SomeDenied(kinds, c, labels)
    ensures r.errCount == t.errCount + (r.permCount - t.permCount) + (|r.reports| - |t.reports|)
  {
    var g := kinds[0];
    var rest := kinds[1..];
    assert forall h :: h in kinds <==> h == g || h in rest by {
      assert kinds == [g] + rest;
    }
    assert SomeDenied(kinds, c, labels) <==> DeniedKind(c, labels, g) || SomeDenied(rest, c, labels);
  }

  /** One warning for the first kind when it failed, then those of the rest. */
  lemma ListKindsReportCount(t: Tally, kinds: seq<Gvk>, c: Cluster, labels: Labels, t1: Tally, r: Tally)
    requires kinds != [] && t1 == ListKind(t, kinds[0], Listed(c, labels, kinds[0]))
    requires |t1.reports| <= |r.reports|
    requires |r.reports| - |t1.reports| == FailedKindCount(kinds[1..], c, labels)
    ensures |r.reports| - |t.reports| == FailedKindCount(kinds, c, labels)
  {
    assert |t1.reports| == |t.reports| + (if FailedKind(c, labels, kinds[0]) then 1 else 0);
  }

  /** Reports after a longer prefix are reports after a shorter one. */
  lemma ListKindsTail(a: seq<Report>, b: seq<Report>, r: seq<Report>)
    requires |a| <= |b| <= |r|
    ensures forall x :: x in r[|b|..] ==> x in r[|a|..]
    ensures forall j :: |b| <= j < |r| ==> r[j] in r[|a|..]
  {
  }

  /** Stage 1 (`getAllByLabels`): with no labels nothing happens; otherwise
      every listable kind is listed with the selector, successes are merged
      into the snapshot, per-kind failures are reported, and one advisory
      is added when the join succeeded and some kind was denied. */
  function GetAllByLabels(st: State, c: Cluster, labels: Labels): (r: Stage)
    ensures |labels| == 0 ==> r == Stage(st, [], None)
    ensures |labels| > 0 ==> r.error == c.discoveryJoin
    ensures r.state.namespaces == st.namespaces && r.state.errors == st.errors
    ensures forall q :: q in r.requests ==> q.List? && q.selector == labels && q.gvk in ListableKinds(c.resources)
    ensures |labels| > 0 ==> forall g :: g in ListableKinds(c.resources) ==> List(g, labels) in r.requests
    ensures |labels| > 0 ==>
              ObjectsAdded(st.objects, r.state.objects, Returned(ListableKinds(c.resources), c, labels),
                           ListedObjects(ListableKinds(c.resources), c, labels))
    ensures WellKeyed(st.objects) ==> WellKeyed(r.state.objects)
    ensures |labels| > 0 ==> WarningsReported(st.warnings, r.state.warnings, ListableKinds(c.resources), c, labels)
    ensures |labels| > 0 ==> forall g :: g in ListableKinds(c.resources) && FailedKind(c, labels, g) ==>
              Report(KindRef(g), Api(Listed(c, labels, g).error)) in r.state.warnings[|st.warnings|..]
    ensures Report(NoRef, Advisory(DiscoveryAdvisory)) in r.state.warnings[|st.warnings|..] <==>
              |labels| > 0 && c.discoveryJoin.None? && SomeDenied(ListableKinds(c.resources), c, labels)
  {
    if |labels| == 0 then
      Stage(st, [], None)
    else
      var kinds := ListableKinds(c.resources);
      var t := ListKinds(Tally(st.objects, [], 0, 0), kinds, c, labels);
      var advise := c.discoveryJoin.None? && t.errCount != 0 && t.permCount != 0;
      var warnings := st.warnings + t.reports + (if advise then [Report(NoRef, Advisory(DiscoveryAdvisory))] else []);
      var requests := ListRequests(kinds, labels);
      DiscoveryWarnings(st.warnings, t.reports, advise, kinds, c, labels);
      Added(st.objects, t.objects, Returned(kinds, c, labels), ListedObjects(kinds, c, labels));
      Stage(st.(objects := t.objects, warnings := warnings), requests, c.discoveryJoin)
  }

  /** One listing request per kind, with the selector. */
  function ListRequests(kinds: seq<Gvk>, labels: Labels): (r: seq<Request>)
    ensures forall q :: q in r <==> q.List? && q.selector == labels && q.gvk in kinds
  {
    var r := seq(|kinds|, i requires 0 <= i < |kinds| => List(kinds[i], labels));
    assert forall g :: g in kinds ==> List(g, labels) in r by {
      forall g | g in kinds ensures List(g, labels) in r {
        var i :| 0 <= i < |kinds| && kinds[i] == g;
        assert r[i] == List(g, labels);
      }
    }
    r
  }

  /** `after` is `before` followed by per-kind warnings for kinds of `kinds`,
      one per failed position of `kinds`, and at most one discovery
      advisory. */
  predicate WarningsReported(before: seq<Report>, after: seq<Report>, kinds: seq<Gvk>, c: Cluster, labels: Labels) {
    && |before| <= |after| && after[..|before|] == before
    && (forall j :: |before| <= j < |after| ==>
          after[j] == Report(NoRef, Advisory(DiscoveryAdvisory)) || KindWarning(after[j], kinds, c, labels))
    && Advisories(after[|before|..]) <= 1
    && |after| - |before| - Advisories(after[|before|..]) == FailedKindCount(kinds, c, labels)
  }

  /** The warnings discovery adds: per-kind reports, then at most one advisory. */
  lemma DiscoveryWarnings(prev: seq<Report>, reports: seq<Report>, advise: bool,
                          kinds: seq<Gvk>, c: Cluster, labels: Labels)
    requires forall j :: 0 <= j < |reports| ==> KindWarning(reports[j], kinds, c, labels)
    requires forall g :: g in kinds && FailedKind(c, labels, g) ==>
               Report(KindRef(g), Api(Listed(c, labels, g).error)) in reports
    requires |reports| == FailedKindCount(kinds, c, labels)
    ensures var ws := prev + reports + (if advise then [Report(NoRef, Advisory(DiscoveryAdvisory))] else []);
            && WarningsReported(prev, ws, kinds, c, labels)
            && (forall g :: g in kinds && FailedKind(c, labels, g) ==>
                  Report(KindRef(g), Api(Listed(c, labels, g).error)) in ws[|prev|..])
            && Advisories(ws[|prev|..]) == (if advise then 1 else 0)
            && (Report(NoRef, Advisory(DiscoveryAdvisory)) in ws[|prev|..] <==> advise)
  {
    var adv := if advise then [Report(NoRef, Advisory(DiscoveryAdvisory))] else [];
    var ws := prev + reports + adv;
    assert ws[|prev|..] == reports + adv;
    assert ws[..|prev|] == prev;
    forall j | 0 <= j < |reports|
      ensures reports[j].cause.Api?
    {
      assert KindWarning(reports[j], kinds, c, labels);
    }
    forall j | |prev| <= j < |ws|
      ensures ws[j] == Report(NoRef, Advisory(DiscoveryAdvisory)) || KindWarning(ws[j], kinds, c, labels)
    {
      assert ws[j] == (reports + adv)[j - |prev|];
      if j - |prev| < |reports| {
        assert ws[j] == reports[j - |prev|];
      }
    }
    NoAdvisories(reports);
    AdvisoriesAppend(reports, adv);
  }

  // ---------------------------------------------------------------------------
  // Stage 2: resolution of explicitly referenced objects

  /** The references of `refs` absent from `objects` and from `seen`, each
      once, in order of first occurrence. */
  function MissingFrom(refs: seq<ObjectRef>, objects: map<ObjectRef, Object>, seen: set<ObjectRef>): (r: seq<ObjectRef>)
    ensures forall x :: x in r <==> x in refs && x !in objects && x !in seen
    ensures forall i, j :: 0 <= i < j < |r| ==> r[i] != r[j]
    decreases |refs|
  {
    if refs == [] then []
    else
      var x := refs[0];
      assert forall y :: y in refs <==> y == x || y in refs[1..] by {
        assert refs == [x] + refs[1..];
      }
      if x in objects || x in seen then MissingFrom(refs[1..], objects, seen)
      else [x] + MissingFrom(refs[1..], objects, seen + {x})
  }

  /** `notFoundRefsMap`: the distinct references not yet in the snapshot. */
  function MissingRefs(refs: seq<ObjectRef>, objects: map<ObjectRef, Object>): (r: seq<ObjectRef>)
    ensures forall x :: x in r <==> x in refs && x !in objects
    ensures forall i, j :: 0 <= i < j < |r| ==> r[i] != r[j]
  {
    MissingFrom(refs, objects, {})
  }

  predicate DeniedRef(c: Cluster, x: ObjectRef) {
    c.getObject(x).Failed? && IsPermission(c.getObject(x).error)
  }

  predicate FailedRef(c: Cluster, x: ObjectRef) {
    c.getObject(x).Failed? && c.getObject(x).error.Other?
  }

  /** How many positions of `refs` hold a reference whose fetch failed with
      an error other than not-found or a permission error. */
  function FailedRefCount(refs: seq<ObjectRef>, c: Cluster): nat
    decreases |refs|
  {
    if refs == [] then 0
    else (if FailedRef(c, refs[0]) then 1 else 0) + FailedRefCount(refs[1..], c)
  }

  /** Without repetitions, counting positions counts references. */
  lemma {:induction false} FailedRefsDistinct(refs: seq<ObjectRef>, c: Cluster)
    requires forall i, j :: 0 <= i < j < |refs| ==> refs[i] != refs[j]
    ensures FailedRefCount(refs, c) == |set x | x in refs && FailedRef(c, x)|
    decreases |refs|
  {
    if refs != [] {
      var x := refs[0];
      var rest := refs[1..];
      assert forall i, j :: 0 <= i < j < |rest| ==> rest[i] != rest[j] by {
        forall i, j | 0 <= i < j < |rest| ensures rest[i] != rest[j] {
          assert rest[i] == refs[i + 1] && rest[j] == refs[j + 1];
        }
      }
      FailedRefsDistinct(rest, c);
      assert x !in rest by {
        forall i | 0 <= i < |rest| ensures rest[i] != x {
          assert rest[i] == refs[i + 1];
        }
      }
      assert forall y :: y in refs <==> y == x || y in rest by {
        assert refs == [x] + rest;
      }
      var all := set y | y in refs && FailedRef(c, y);
      var tail := set y | y in rest && FailedRef(c, y);
      var head := if FailedRef(c, x) then {x} else {};
      forall y
        ensures y in all <==> y in head || y in tail
      {
      }
      SplitCard(all, head, tail);
    }
  }

  /** A set made of two disjoint parts has their sizes added. */
  lemma SplitCard<T>(all: set<T>, head: set<T>, tail: set<T>)
    requires forall y :: y in all <==> y in head || y in tail
    requires head !! tail
    ensures |all| == |head| + |tail|
  {
    assert all == head + tail;
  }

  predicate SomeDeniedRef(refs: seq<ObjectRef>, c: Cluster) {
    exists x :: x in refs && DeniedRef(c, x)
  }

  predicate SomeFailedRef(refs: seq<ObjectRef>, c: Cluster) {
    exists x :: x in refs && FailedRef(c, x)
  }

  /** `w` is the error recorded for a reference of `refs` whose fetch failed
      with an error other than not-found or a permission error. */
  predicate RefError(w: Report, refs: seq<ObjectRef>, c: Cluster) {
    w.ref in refs && FailedRef(c, w.ref) && w.cause == Api(c.getObject(w.ref).error)
  }

  /** The references of every object a successful fetch of `refs` returned. */
  ghost function FetchedRefs(refs: seq<ObjectRef>, c: Cluster): set<ObjectRef> {
    set x | x in refs && c.getObject(x).Fetched? :: RefOf(c.getObject(x).value)
  }

  /** Every object a successful fetch of `refs` returned. */
  ghost function FetchedObjects(refs: seq<ObjectRef>, c: Cluster): set<Object> {
    set x | x in refs && c.getObject(x).Fetched? :: c.getObject(x).value
  }

  /** The outcome of fetching one reference folded into the tally. */
  function GetOne(t: Tally, x: ObjectRef, res: Fetch<Object>): Tally {
    if res.Fetched? then t.(objects := t.objects[RefOf(res.value) := res.value])
    else if res.error.NotFound? then t
    else if IsPermission(res.error) then t.(permCount := t.permCount + 1)
    else t.(errCount := t.errCount + 1, reports := t.reports + [Report(x, Api(res.error))])
  }

  /** Every reference fetched in turn: a fetched object is stored under its
      own reference, not-found is ignored, a permission error is only
      counted, any other error is recorded against the reference and
      counted. */
  function GetAll(t: Tally, refs: seq<ObjectRef>, c: Cluster): (r: Tally)
    ensures r.objects.Keys == t.objects.Keys + FetchedRefs(refs, c)
    ensures WellKeyed(t.objects) ==> WellKeyed(r.objects)
    ensures forall k :: k in r.objects ==>
              (k in t.objects && r.objects[k] == t.objects[k]) || r.objects[k] in FetchedObjects(refs, c)
    ensures forall k :: k in t.objects && k !in FetchedRefs(refs, c) ==> r.objects[k] == t.objects[k]
    ensures forall k :: k in FetchedRefs(refs, c) ==> k in r.objects && r.objects[k] in FetchedObjects(refs, c)
    ensures |t.reports| <= |r.reports| && r.reports[..|t.reports|] == t.reports
    ensures forall j :: |t.reports| <= j < |r.reports| ==> RefError(r.reports[j], refs, c)
    ensures forall x :: x in refs && FailedRef(c, x) ==> Report(x, Api(c.getObject(x).error)) in r.reports[|t.reports|..]
    ensures |r.reports| - |t.reports| == FailedRefCount(refs, c)
    ensures r.permCount >= t.permCount
    ensures r.permCount > t.permCount <==> SomeDeniedRef(refs, c)
    ensures r.errCount == t.errCount + (|r.reports| - |t.reports|)
    decreases |refs|
  {
    if refs == [] then t
    else
      var t1 := GetOne(t, refs[0], c.getObject(refs[0]));
      var r := GetAll(t1, refs[1..], c);
      GetAllKeys(t, refs, c, t1, r);
      GetAllValues(t, refs, c, t1, r);
      GetAllHeld(t, refs, c, t1, r);
      GetAllReports(t, refs, c, t1, r);
      GetAllCounts(t, refs, c, t1, r);
      r
  }

  lemma GetAllKeys(t: Tally, refs: seq<ObjectRef>, c: Cluster, t1: Tally, r: Tally)
    requires refs != [] && t1 == GetOne(t, refs[0], c.getObject(refs[0]))
    requires r.objects.Keys == t1.objects.Keys + FetchedRefs(refs[1..], c)
    requires WellKeyed(t1.objects) ==> WellKeyed(r.objects)
    ensures r.objects.Keys == t.objects.Keys + FetchedRefs(refs, c)
    ensures WellKeyed(t.objects) ==> WellKeyed(r.objects)
  {
    var res := c.getObject(refs[0]);
    FetchedFirst(refs, c);
    UnionStep(t.objects.Keys, t1.objects.Keys, r.objects.Keys, if res.Fetched? then {RefOf(res.value)} else {},
              FetchedRefs(refs[1..], c), FetchedRefs(refs, c));
  }

  /** The references a fetch returned: that of the first reference, then
      those of the rest. */
  lemma FetchedFirst(refs: seq<ObjectRef>, c: Cluster)
    requires refs != []
    ensures var res := c.getObject(refs[0]);
      FetchedRefs(refs, c) == (if res.Fetched? then {RefOf(res.value)} else {}) + FetchedRefs(refs[1..], c)
  {
  }

  lemma GetAllValues(t: Tally, refs: seq<ObjectRef>, c: Cluster, t1: Tally, r: Tally)
    requires refs != [] && t1 == GetOne(t, refs[0], c.getObject(refs[0]))
    requires r.objects.Keys == t1.objects.Keys + FetchedRefs(refs[1..], c)
    requires forall k :: k in r.objects ==>
               (k in t1.objects && r.objects[k] == t1.objects[k]) || r.objects[k] in FetchedObjects(refs[1..], c)
    requires forall k :: k in t1.objects && k !in FetchedRefs(refs[1..], c) ==> r.objects[k] == t1.objects[k]
    ensures forall k :: k in r.objects ==>
              (k in t.objects && r.objects[k] == t.objects[k]) || r.objects[k] in FetchedObjects(refs, c)
    ensures forall k :: k in t.objects && k !in FetchedRefs(refs, c) ==> r.objects[k] == t.objects[k]
  {
    var res := c.getObject(refs[0]);
    FetchedFirst(refs, c);
    assert forall y :: y in refs[1..] ==> y in refs;
    assert FetchedObjects(refs[1..], c) <= FetchedObjects(refs, c);
    forall k | k in r.objects
      ensures (k in t.objects && r.objects[k] == t.objects[k]) || r.objects[k] in FetchedObjects(refs, c)
    {
      if k in t1.objects && r.objects[k] == t1.objects[k] {
        if res.Fetched? && k == RefOf(res.value) {
          assert refs[0] in refs && r.objects[k] == res.value;
        } else {
          assert t1.objects[k] == t.objects[k];
        }
      }
    }
  }

  /** A reference only the first fetch returned still holds the object
      that fetch stored. */
  lemma GetAllHeld(t: Tally, refs: seq<ObjectRef>, c: Cluster, t1: Tally, r: Tally)
    requires refs != [] && t1 == GetOne(t, refs[0], c.getObject(refs[0]))
    requires r.objects.Keys == t1.objects.Keys + FetchedRefs(refs[1..], c)
    requires forall k :: k in t1.objects && k !in FetchedRefs(refs[1..], c) ==> r.objects[k] == t1.objects[k]
    requires forall k :: k in FetchedRefs(refs[1..], c) ==> k in r.objects && r.objects[k] in FetchedObjects(refs[1..], c)
    ensures forall k :: k in FetchedRefs(refs, c) ==> k in r.objects && r.objects[k] in FetchedObjects(refs, c)
  {
    var x := refs[0];
    assert refs == [x] + refs[1..];
    assert forall y :: y in refs[1..] ==> y in refs;
    assert forall y :: y in refs && y != x ==> y in refs[1..];
    assert FetchedObjects(refs[1..], c) <= FetchedObjects(refs, c);
    forall k | k in FetchedRefs(refs, c)
      ensures k in r.objects && r.objects[k] in FetchedObjects(refs, c)
    {
      if k !in FetchedRefs(refs[1..], c) {
        var y :| y in refs && c.getObject(y).Fetched? && RefOf(c.getObject(y).value) == k;
        assert y == x;
        assert t1.objects[k] == c.getObject(x).value;
      }
    }
  }

  lemma GetAllReports(t: Tally, refs: seq<ObjectRef>, c: Cluster, t1: Tally, r: Tally)
    requires refs != [] && t1 == GetOne(t, refs[0], c.getObject(refs[0]))
    requires |t1.reports| <= |r.reports| && r.reports[..|t1.reports|] == t1.reports
    requires forall j :: |t1.reports| <= j < |r.reports| ==> RefError(r.reports[j], refs[1..], c)
    requires forall x :: x in refs[1..] && FailedRef(c, x) ==> Report(x, Api(c.getObject(x).error)) in r.reports[|t1.reports|..]
    ensures |t.reports| <= |r.reports| && r.reports[..|t.reports|] == t.reports
    ensures forall j :: |t.reports| <= j < |r.reports| ==> RefError(r.reports[j], refs, c)
    ensures forall x :: x in refs && FailedRef(c, x) ==> Report(x, Api(c.getObject(x).error)) in r.reports[|t.reports|..]
  {
    GetAllReportsKnown(t, refs, c, t1, r);
    GetAllReportsCover(t, refs, c, t1, r);
  }

  /** Every report the fold adds names a reference of `refs` with its own error. */
  lemma GetAllReportsKnown(t: Tally, refs: seq<ObjectRef>, c: Cluster, t1: Tally, r: Tally)
    requires refs != [] && t1 == GetOne(t, refs[0], c.getObject(refs[0]))
    requires |t1.reports| <= |r.reports| && r.reports[..|t1.reports|] == t1.reports
    requires forall j :: |t1.reports| <= j < |r.reports| ==> RefError(r.reports[j], refs[1..], c)
    ensures |t.reports| <= |r.reports| && r.reports[..|t.reports|] == t.reports
    ensures forall j :: |t.reports| <= j < |r.reports| ==> RefError(r.reports[j], refs, c)
  {
    var x := refs[0];
    var rest := refs[1..];
    assert forall y :: y in rest ==> y in refs;
    forall j | |t1.reports| <= j < |r.reports|
      ensures RefError(r.reports[j], refs, c)
    {
      assert RefError(r.reports[j], rest, c);
    }
    ListKindsTail(t.reports, t1.reports, r.reports);
    if FailedRef(c, x) {
      assert t1.reports == t.reports + [Report(x, Api(c.getObject(x).error))];
    } else {
      assert t1.reports == t.reports;
    }
  }

  /** Every failed fetch of `refs` is among the reports the fold adds. */
  lemma GetAllReportsCover(t: Tally, refs: seq<ObjectRef>, c: Cluster, t1: Tally, r: Tally)
    requires refs != [] && t1 == GetOne(t, refs[0], c.getObject(refs[0]))
    requires |t1.reports| <= |r.reports| && r.reports[..|t1.reports|] == t1.reports
    requires forall x :: x in refs[1..] && FailedRef(c, x) ==> Report(x, Api(c.getObject(x).error)) in r.reports[|t1.reports|..]
    ensures |t.reports| <= |r.reports|
    ensures forall x :: x in refs && FailedRef(c, x) ==> Report(x, Api(c.getObject(x).error)) in r.reports[|t.reports|..]
  {
    var x := refs[0];
    var rest := refs[1..];
    assert forall y :: y in refs ==> y == x || y in rest by {
      assert refs == [x] + rest;
    }
    if FailedRef(c, x) {
      var w := Report(x, Api(c.getObject(x).error));
      assert t1.reports == t.reports + [w];
      assert r.reports[..|t.reports|] == t1.reports[..|t.reports|];
      assert r.reports[|t.reports|] == w;
      assert r.reports[|t.reports|..][0] == w;
      assert r.reports[|t1.reports|..] == r.reports[|t.reports|..][1..];
    } else {
      assert t1.reports == t.reports;
    }
  }

  lemma GetAllCounts(t: Tally, refs: seq<ObjectRef>, c: Cluster, t1: Tally, r: Tally)
    requires refs != [] && t1 == GetOne(t, refs[0], c.getObject(refs[0]))
    requires |t1.reports| <= |r.reports|
    requires |r.reports| - |t1.reports| == FailedRefCount(refs[1..], c)
    requires r.permCount >= t1.permCount
    requires r.permCount > t1.permCount <==> SomeDeniedRef(refs[1..], c)
    requires r.errCount == t1.errCount + (|r.reports| - |t1.reports|)
    ensures |r.reports| - |t.reports| == FailedRefCount(refs, c)
    ensures r.permCount >= t.permCount
    ensures r.permCount > t.permCount <==> SomeDeniedRef(refs, c)
    ensures r.errCount == t.errCount + (|r.reports| - |t.reports|)
  {
    assert forall y :: y in refs <==> y == refs[0] || y in refs[1..] by {
      assert refs == [refs[0]] + refs[1..];
    }
    assert SomeDeniedRef(refs, c) <==> DeniedRef(c, refs[0]) || SomeDeniedRef(refs[1..], c);
  }

  /** `reqs` fetches every reference of `refs` absent from `objects`, each
      once, and nothing else. */
  predicate FetchesMissing(reqs: seq<Request>, refs: seq<ObjectRef>, objects: map<ObjectRef, Object>) {
    && (forall q :: q in reqs ==> q.Get? && q.ref in refs && q.ref !in objects)
    && (forall x :: x in refs && x !in objects ==> Get(x) in reqs)
    && (forall i, j :: 0 <= i < j < |reqs| ==> reqs[i] != reqs[j])
  }

  /** `after` is `before` followed by the errors of the failed fetches of the
      references of `refs` absent from `objects`: every such failure, one
      entry per failed reference, and nothing else. */
  predicate ErrorsLogged(before: seq<Report>, after: seq<Report>, refs: seq<ObjectRef>,
                         objects: map<ObjectRef, Object>, c: Cluster) {
    && |before| <= |after| && after[..|before|] == before
    && (forall j :: |before| <= j < |after| ==> RefError(after[j], refs, c) && after[j].ref !in objects)
    && (forall x :: x in refs && x !in objects && FailedRef(c, x) ==>
          Report(x, Api(c.getObject(x).error)) in after[|before|..])
    && |after| - |before| == |set x | x in refs && x !in objects && FailedRef(c, x)|
  }

  /** `after` is `before` followed by at most one resolution advisory. */
  predicate AdvisoryAdded(before: seq<Report>, after: seq<Report>) {
    && |before| <= |after| && after[..|before|] == before
    && (forall j :: |before| <= j < |after| ==> after[j] == Report(NoRef, Advisory(ResolutionAdvisory)))
    && Advisories(after[|before|..]) <= 1
  }

  /** Every missing reference fetched, starting from the snapshot's objects
      with nothing logged or counted. */
  function FetchMissing(objects: map<ObjectRef, Object>, missing: seq<ObjectRef>, c: Cluster): (t: Tally)
    ensures ObjectsAdded(objects, t.objects, FetchedRefs(missing, c), FetchedObjects(missing, c))
    ensures forall j :: 0 <= j < |t.reports| ==> RefError(t.reports[j], missing, c)
    ensures forall x :: x in missing && FailedRef(c, x) ==> Report(x, Api(c.getObject(x).error)) in t.reports
    ensures |t.reports| == FailedRefCount(missing, c)
    ensures t.errCount != 0 <==> SomeFailedRef(missing, c)
    ensures t.permCount != 0 <==> SomeDeniedRef(missing, c)
  {
    var t := GetAll(Tally(objects, [], 0, 0), missing, c);
    assert t.reports[0..] == t.reports;
    assert t.errCount != 0 <==> SomeFailedRef(missing, c) by {
      if SomeFailedRef(missing, c) {
        var x :| x in missing && FailedRef(c, x);
        assert Report(x, Api(c.getObject(x).error)) in t.reports;
      }
      if t.errCount != 0 {
        assert RefError(t.reports[0], missing, c);
      }
    }
    t
  }

  /** One get request per reference. */
  function GetRequests(refs: seq<ObjectRef>): (r: seq<Request>)
    ensures |r| == |refs|
    ensures forall i :: 0 <= i < |refs| ==> r[i] == Get(refs[i])
  {
    seq(|refs|, i requires 0 <= i < |refs| => Get(refs[i]))
  }

  /** The resolution stage once the missing references are known: errors
      logged, fetched objects stored, and the advisory added when `advise`. */
  function FinishResolution(st: State, c: Cluster, refs: seq<ObjectRef>, missing: seq<ObjectRef>, t: Tally, advise: bool): (r: Stage)
    requires missing == MissingRefs(refs, st.objects) && missing != []
    requires ObjectsAdded(st.objects, t.objects, FetchedRefs(missing, c), FetchedObjects(missing, c))
    requires forall j :: 0 <= j < |t.reports| ==> RefError(t.reports[j], missing, c)
    requires forall x :: x in missing && FailedRef(c, x) ==> Report(x, Api(c.getObject(x).error)) in t.reports
    requires |t.reports| == FailedRefCount(missing, c)
    ensures r.state.namespaces == st.namespaces
    ensures FetchesMissing(r.requests, refs, st.objects) && r.requests != []
    ensures r.error == c.resolutionJoin
    ensures ObjectsAdded(st.objects, r.state.objects, FetchedRefs(missing, c), FetchedObjects(missing, c))
    ensures ErrorsLogged(st.errors, r.state.errors, refs, st.objects, c)
    ensures AdvisoryAdded(st.warnings, r.state.warnings)
    ensures Report(NoRef, Advisory(ResolutionAdvisory)) in r.state.warnings[|st.warnings|..] <==> advise
  {
    ResolutionRequests(refs, st.objects, missing);
    ResolutionErrors(st.errors, refs, st.objects, missing, c, t.reports);
    AdvisoryAppended(st.warnings, advise);
    Stage(st.(objects := t.objects,
              errors := st.errors + t.reports,
              warnings := st.warnings + (if advise then [Report(NoRef, Advisory(ResolutionAdvisory))] else [])),
          GetRequests(missing),
          c.resolutionJoin)
  }

  /** Stage 2, kluctl's `getMissingObjects`, as written. Only
      references absent from the snapshot are fetched, each once; when none
      is absent nothing happens. The permission advisory is only added when
      the join succeeded, some fetch was denied and some other error was
      counted as well. */
  function GetMissingObjectsAsWritten(st: State, c: Cluster, refs: seq<ObjectRef>): (r: Stage)
    ensures (forall x :: x in refs ==> x in st.objects) ==> r == Stage(st, [], None)
    ensures FetchesMissing(r.requests, refs, st.objects)
    ensures r.error == (if r.requests == [] then None else c.resolutionJoin)
    ensures r.state.namespaces == st.namespaces
    ensures ObjectsAdded(st.objects, r.state.objects, FetchedRefs(MissingRefs(refs, st.objects), c),
                         FetchedObjects(MissingRefs(refs, st.objects), c))
    ensures ErrorsLogged(st.errors, r.state.errors, refs, st.objects, c)
    ensures AdvisoryAdded(st.warnings, r.state.warnings)
    ensures Report(NoRef, Advisory(ResolutionAdvisory)) in r.state.warnings[|st.warnings|..] <==>
              && c.resolutionJoin.None?
              && SomeDeniedRef(MissingRefs(refs, st.objects), c)
              && SomeFailedRef(MissingRefs(refs, st.objects), c)
  {
    var missing := MissingRefs(refs, st.objects);
    if missing == [] then
      Stage(st, [], None)
    else
      var t := FetchMissing(st.objects, missing, c);
      var advise := c.resolutionJoin.None? && t.errCount != 0 && t.permCount != 0;
      assert missing[0] in refs && missing[0] !in st.objects;
      FinishResolution(st, c, refs, missing, t, advise)
  }

  /** Stage 2 with the advisory rule corrected: the same requests, error,
      objects and error log as the stage as written, but the permission
      advisory is added whenever the join succeeded and some fetch was
      denied. */
  function GetMissingObjects(st: State, c: Cluster, refs: seq<ObjectRef>): (r: Stage)
    ensures r.requests == GetMissingObjectsAsWritten(st, c, refs).requests
    ensures r.error == GetMissingObjectsAsWritten(st, c, refs).error
    ensures r.state.objects == GetMissingObjectsAsWritten(st, c, refs).state.objects
    ensures r.state.errors == GetMissingObjectsAsWritten(st, c, refs).state.errors
    ensures r.state.namespaces == st.namespaces
    ensures AdvisoryAdded(st.warnings, r.state.warnings)
    ensures Report(NoRef, Advisory(ResolutionAdvisory)) in r.state.warnings[|st.warnings|..] <==>
              c.resolutionJoin.None? && SomeDeniedRef(MissingRefs(refs, st.objects), c)
  {
    var missing := MissingRefs(refs, st.objects);
    if missing == [] then
      Stage(st, [], None)
    else
      var t := FetchMissing(st.objects, missing, c);
      var advise := c.resolutionJoin.None? && t.permCount != 0;
      FinishResolution(st, c, refs, missing, t, advise)
  }

  lemma ResolutionRequests(refs: seq<ObjectRef>, objects: map<ObjectRef, Object>, missing: seq<ObjectRef>)
    requires missing == MissingRefs(refs, objects) && missing != []
    ensures FetchesMissing(GetRequests(missing), refs, objects) && GetRequests(missing) != []
  {
  }

  lemma ResolutionErrors(prev: seq<Report>, refs: seq<ObjectRef>, objects: map<ObjectRef, Object>,
                         missing: seq<ObjectRef>, c: Cluster, reports: seq<Report>)
    requires missing == MissingRefs(refs, objects)
    requires forall j :: 0 <= j < |reports| ==> RefError(reports[j], missing, c)
    requires forall x :: x in missing && FailedRef(c, x) ==> Report(x, Api(c.getObject(x).error)) in reports
    requires |reports| == FailedRefCount(missing, c)
    ensures ErrorsLogged(prev, prev + reports, refs, objects, c)
  {
    FailedRefsDistinct(missing, c);
    assert (set x | x in refs && x !in objects && FailedRef(c, x)) == set x | x in missing && FailedRef(c, x);
  }

  lemma AdvisoryAppended(prev: seq<Report>, advise: bool)
    ensures var w := prev + (if advise then [Report(NoRef, Advisory(ResolutionAdvisory))] else []);
      && AdvisoryAdded(prev, w)
      && Advisories(w[|prev|..]) == (if advise then 1 else 0)
      && (Report(NoRef, Advisory(ResolutionAdvisory)) in w[|prev|..] <==> advise)
  {
  }

  /** A single missing reference whose fetch is forbidden: the code as
      written counts the permission error but, since no other error was
      counted, adds no advisory; the corrected stage adds it. */
  lemma PermissionOnlyGoesUnreported(st: State, c: Cluster, x: ObjectRef)
    requires x !in st.objects && c.resolutionJoin.None?
    requires c.getObject(x) == Failed(Forbidden)
    ensures Report(NoRef, Advisory(ResolutionAdvisory)) !in GetMissingObjectsAsWritten(st, c, [x]).state.warnings[|st.warnings|..]
    ensures Report(NoRef, Advisory(ResolutionAdvisory)) in GetMissingObjects(st, c, [x]).state.warnings[|st.warnings|..]
  {
  }

  // ---------------------------------------------------------------------------
  // Stage 3 and the whole pass

  function NameOf(o: Object): string {
    o.name
  }

  /** Namespaces stored under their names, later ones winning (the loop
      over the namespace listing). */
  function IndexByName(m: map<string, Object>, nss: seq<Object>): (r: map<string, Object>)
    ensures Indexed(m, nss, NameOf, r)
    ensures NamespacesWellKeyed(m) ==> NamespacesWellKeyed(r)
  {
    IndexBy(m, nss, NameOf)
  }

  /** The namespace listing request: all namespaces, no selector. */
  const NamespaceRequest := List(NamespaceKind, map[])

  /** The order in which a pass issues its calls. */
  function Phase(q: Request): nat {
    if q == NamespaceRequest then 2 else if q.Get? then 1 else 0
  }

  /** Listings first, then fetches, then the namespace listing, which only
      ever comes last. */
  predicate PhaseOrdered(reqs: seq<Request>) {
    && (forall i, j :: 0 <= i < j < |reqs| ==> Phase(reqs[i]) <= Phase(reqs[j]))
    && (forall i :: 0 <= i < |reqs| - 1 ==> reqs[i] != NamespaceRequest)
  }

  /** One reconciliation pass, kluctl's `UpdateRemoteObjects`, with
      resolution as written: nothing without a cluster; otherwise discovery,
      resolution and namespace indexing in that order, the first failing
      stage ending the pass with its error. */
  function UpdateRemoteObjects(st: State, cluster: Option<Cluster>, labels: Labels, refs: seq<ObjectRef>): (r: Stage)
    ensures cluster.None? ==> r == Stage(st, [], None)
    ensures PhaseOrdered(r.requests)
    ensures cluster.Some? && |labels| > 0 && cluster.value.discoveryJoin.Some? ==>
              && r == GetAllByLabels(st, cluster.value, labels)
              && r.error == cluster.value.discoveryJoin
              && (forall q :: q in r.requests ==> q.List? && q.selector == labels)
              && r.state.namespaces == st.namespaces
    ensures NamespaceRequest !in r.requests ==> r.state.namespaces == st.namespaces
    ensures cluster.Some? && NamespaceRequest in r.requests ==>
              var res := cluster.value.listObjects(NamespaceKind, map[]);
              && (res.Failed? ==> r.error == Some(res.error) && r.state.namespaces == st.namespaces)
              && (res.Fetched? ==> r.error.None?)
              && (res.Fetched? ==> r.state.namespaces == IndexByName(st.namespaces, res.value))
    ensures cluster.Some? && r.error.None? ==> NamespaceRequest in r.requests
    ensures WellKeyed(st.objects) ==> WellKeyed(r.state.objects)
    ensures NamespacesWellKeyed(st.namespaces) ==> NamespacesWellKeyed(r.state.namespaces)
  {
    if cluster.None? then
      Stage(st, [], None)
    else
      var c := cluster.value;
      var s1 := GetAllByLabels(st, c, labels);
      if s1.error.Some? then
        PassOrder(s1.requests, [], labels);
        assert s1.requests + [] == s1.requests;
        s1
      else
        var s2 := GetMissingObjectsAsWritten(s1.state, c, refs);
        PassOrder(s1.requests, s2.requests, labels);
        PassOrderWithNamespaces(s1.requests + s2.requests, labels);
        FinishPass(s1.requests, s2, c)
  }

  /** The end of a pass once discovery succeeded, given discovery's
      requests and resolution's stage: a resolution error ends the pass;
      otherwise the namespaces are listed, and that listing's outcome is the
      pass's. */
  function FinishPass(discovery: seq<Request>, s2: Stage, c: Cluster): (r: Stage)
    ensures r.requests == discovery + s2.requests + (if s2.error.None? then [NamespaceRequest] else [])
    ensures r.state.objects == s2.state.objects && r.state.warnings == s2.state.warnings
    ensures r.state.errors == s2.state.errors
    ensures s2.error.Some? ==> r.error == s2.error && r.state.namespaces == s2.state.namespaces
    ensures s2.error.None? ==>
              var res := c.listObjects(NamespaceKind, map[]);
              && (res.Failed? ==> r.error == Some(res.error) && r.state.namespaces == s2.state.namespaces)
              && (res.Fetched? ==> r.error.None? && r.state.namespaces == IndexByName(s2.state.namespaces, res.value))
  {
    var reqs := discovery + s2.requests;
    if s2.error.Some? then
      assert reqs + [] == reqs;
      Stage(s2.state, reqs, s2.error)
    else
      var res := c.listObjects(NamespaceKind, map[]);
      if res.Failed? then Stage(s2.state, reqs + [NamespaceRequest], Some(res.error))
      else Stage(s2.state.(namespaces := IndexByName(s2.state.namespaces, res.value)), reqs + [NamespaceRequest], None)
  }

  /** The pass with the corrected resolution stage: the same requests,
      error, objects, error log and namespaces as the pass as written; only
      the resolution advisory follows the corrected rule. */
  function UpdateRemoteObjectsCorrected(st: State, cluster: Option<Cluster>, labels: Labels, refs: seq<ObjectRef>): (r: Stage)
    ensures var w := UpdateRemoteObjects(st, cluster, labels, refs);
      && r.requests == w.requests && r.error == w.error
      && r.state.objects == w.state.objects && r.state.errors == w.state.errors
      && r.state.namespaces == w.state.namespaces
    ensures cluster.None? || (|labels| > 0 && cluster.value.discoveryJoin.Some?) ==>
              r.state.warnings == UpdateRemoteObjects(st, cluster, labels, refs).state.warnings
    ensures cluster.Some? && (|labels| == 0 || cluster.value.discoveryJoin.None?) ==>
              var s1 := GetAllByLabels(st, cluster.value, labels);
              r.state.warnings == GetMissingObjects(s1.state, cluster.value, refs).state.warnings
  {
    if cluster.None? then
      Stage(st, [], None)
    else
      var c := cluster.value;
      var s1 := GetAllByLabels(st, c, labels);
      if s1.error.Some? then
        s1
      else
        var s2 := GetMissingObjects(s1.state, c, refs);
        var w2 := GetMissingObjectsAsWritten(s1.state, c, refs);
        assert UpdateRemoteObjects(st, cluster, labels, refs) == FinishPass(s1.requests, w2, c);
        FinishAgrees(s1.requests, s2, w2, c);
        FinishPass(s1.requests, s2, c)
  }

  /** Two resolution outcomes that differ at most in their warnings end the
      pass alike in everything but the warnings. */
  lemma FinishAgrees(discovery: seq<Request>, s2: Stage, w2: Stage, c: Cluster)
    requires s2.requests == w2.requests && s2.error == w2.error
    requires s2.state.objects == w2.state.objects && s2.state.errors == w2.state.errors
    requires s2.state.namespaces == w2.state.namespaces
    ensures var a := FinishPass(discovery, s2, c);
      var b := FinishPass(discovery, w2, c);
      && a.requests == b.requests && a.error == b.error
      && a.state.objects == b.state.objects && a.state.errors == b.state.errors
      && a.state.namespaces == b.state.namespaces
  {
  }

  /** Once discovery succeeded, the pass leaves the objects and logs that
      resolution as written leaves, and a resolution error is returned
      without the namespaces being listed. */
  lemma PassAfterDiscovery(st: State, c: Cluster, labels: Labels, refs: seq<ObjectRef>)
    requires |labels| == 0 || c.discoveryJoin.None?
    ensures var r := UpdateRemoteObjects(st, Some(c), labels, refs);
      var s1 := GetAllByLabels(st, c, labels);
      var s2 := GetMissingObjectsAsWritten(s1.state, c, refs);
      && r.state.objects == s2.state.objects
      && r.state.warnings == s2.state.warnings
      && r.state.errors == s2.state.errors
      && (s2.error.Some? ==> r.error == s2.error && NamespaceRequest !in r.requests)
  {
    var s1 := GetAllByLabels(st, c, labels);
    assert s1.error.None?;
    var s2 := GetMissingObjectsAsWritten(s1.state, c, refs);
    assert UpdateRemoteObjects(st, Some(c), labels, refs) == FinishPass(s1.requests, s2, c);
    if s2.error.Some? {
      PassOrder(s1.requests, s2.requests, labels);
    }
  }

  /** Once discovery and resolution succeeded, the pass always lists the
      namespaces last, and that listing decides its error and its
      namespaces; the requests are discovery's, then resolution's, then the
      namespace listing exactly when resolution succeeded too. */
  lemma PassAfterResolution(st: State, c: Cluster, labels: Labels, refs: seq<ObjectRef>)
    requires |labels| == 0 || c.discoveryJoin.None?
    ensures var r := UpdateRemoteObjects(st, Some(c), labels, refs);
      var s1 := GetAllByLabels(st, c, labels);
      var s2 := GetMissingObjectsAsWritten(s1.state, c, refs);
      r.requests == s1.requests + s2.requests + (if s2.error.None? then [NamespaceRequest] else [])
    ensures var r := UpdateRemoteObjects(st, Some(c), labels, refs);
      var s2 := GetMissingObjectsAsWritten(GetAllByLabels(st, c, labels).state, c, refs);
      var res := c.listObjects(NamespaceKind, map[]);
      s2.error.None? ==>
        && NamespaceRequest in r.requests
        && (res.Failed? ==> r.error == Some(res.error) && r.state.namespaces == st.namespaces)
        && (res.Fetched? ==> r.error.None? && r.state.namespaces == IndexByName(st.namespaces, res.value))
  {
    var s1 := GetAllByLabels(st, c, labels);
    assert s1.error.None?;
    var s2 := GetMissingObjectsAsWritten(s1.state, c, refs);
    assert UpdateRemoteObjects(st, Some(c), labels, refs) == FinishPass(s1.requests, s2, c);
    assert s2.state.namespaces == st.namespaces;
  }

  /** What a pass holds afterwards: once discovery succeeded, the old
      references, those discovered and those fetched; in any case, every
      object held was held before, listed by the selector, or fetched for
      one of the references. */
  lemma PassContents(st: State, c: Cluster, labels: Labels, refs: seq<ObjectRef>)
    ensures var r := UpdateRemoteObjects(st, Some(c), labels, refs);
      (|labels| == 0 || c.discoveryJoin.None?) ==>
        r.state.objects.Keys ==
        st.objects.Keys + (if |labels| > 0 then Returned(ListableKinds(c.resources), c, labels) else {})
        + FetchedRefs(MissingRefs(refs, GetAllByLabels(st, c, labels).state.objects), c)
    ensures var r := UpdateRemoteObjects(st, Some(c), labels, refs);
      forall k :: k in r.state.objects ==>
        || (k in st.objects && r.state.objects[k] == st.objects[k])
        || r.state.objects[k] in ListedObjects(ListableKinds(c.resources), c, labels)
        || r.state.objects[k] in FetchedObjects(refs, c)
  {
    var s1 := GetAllByLabels(st, c, labels);
    var r := UpdateRemoteObjects(st, Some(c), labels, refs);
    if s1.error.Some? {
      assert r == s1;
      PassObjects(st, c, labels, refs, s1.state, s1.state);
    } else {
      var s2 := GetMissingObjectsAsWritten(s1.state, c, refs);
      PassAfterDiscovery(st, c, labels, refs);
      assert r.state.objects == s2.state.objects;
      PassKeys(st, c, labels, refs);
      PassObjects(st, c, labels, refs, s1.state, s2.state);
    }
  }

  /** After discovery and resolution the snapshot holds the old keys, those
      discovered and those fetched; namespaces are untouched so far. */
  lemma PassKeys(st: State, c: Cluster, labels: Labels, refs: seq<ObjectRef>)
    requires |labels| == 0 || c.discoveryJoin.None?
    ensures var s1 := GetAllByLabels(st, c, labels);
      var s2 := GetMissingObjectsAsWritten(s1.state, c, refs);
      && s2.state.objects.Keys ==
         st.objects.Keys + (if |labels| > 0 then Returned(ListableKinds(c.resources), c, labels) else {})
         + FetchedRefs(MissingRefs(refs, s1.state.objects), c)
      && s2.state.namespaces == st.namespaces
      && (WellKeyed(st.objects) ==> WellKeyed(s2.state.objects))
  {
  }

  /** Whatever a pass holds afterwards was held before, listed by the
      selector, or fetched for one of the references. */
  lemma PassObjects(st: State, c: Cluster, labels: Labels, refs: seq<ObjectRef>, after1: State, after2: State)
    requires after1 == GetAllByLabels(st, c, labels).state
    requires after2 == after1 || after2 == GetMissingObjectsAsWritten(after1, c, refs).state
    ensures forall k :: k in after2.objects ==>
              || (k in st.objects && after2.objects[k] == st.objects[k])
              || after2.objects[k] in ListedObjects(ListableKinds(c.resources), c, labels)
              || after2.objects[k] in FetchedObjects(refs, c)
  {
  }

  lemma PassOrder(d: seq<Request>, g: seq<Request>, labels: Labels)
    requires forall q :: q in d ==> q.List? && q.selector == labels
    requires forall q :: q in g ==> q.Get?
    requires |labels| == 0 ==> d == []
    ensures PhaseOrdered(d + g) && NamespaceRequest !in d + g
  {
    forall i | 0 <= i < |d + g|
      ensures Phase((d + g)[i]) == if i < |d| then 0 else 1
    {
      if i < |d| {
        assert (d + g)[i] == d[i];
        assert d[i] in d;
      } else {
        assert (d + g)[i] == g[i - |d|];
        assert g[i - |d|] in g;
      }
    }
  }

  lemma PassOrderWithNamespaces(reqs: seq<Request>, labels: Labels)
    requires PhaseOrdered(reqs) && NamespaceRequest !in reqs
    ensures PhaseOrdered(reqs + [NamespaceRequest])
  {
  }

  /** Per-kind warnings only come from kinds that failed. */
  lemma NoWarningsWithoutFailures(reports: seq<Report>, kinds: seq<Gvk>, c: Cluster, labels: Labels)
    requires forall j :: 0 <= j < |reports| ==> KindWarning(reports[j], kinds, c, labels)
    requires forall g :: g in kinds ==> !FailedKind(c, labels, g)
    ensures reports == []
  {
    assert |reports| > 0 ==> KindWarning(reports[0], kinds, c, labels);
  }

  /** Kinds the label selector may not be listed for do not fail the pass:
      with every listable kind either listed or denied, at least one denied,
      no explicit references and a successful namespace listing, the pass
      succeeds, keeps exactly the objects of the listed kinds, and warns
      exactly once. */
  lemma PermissionGapsOnlyWarn(st: State, c: Cluster, labels: Labels)
    requires |labels| > 0 && c.discoveryJoin.None?
    requires forall g :: g in ListableKinds(c.resources) ==>
               Listed(c, labels, g).Fetched? || DeniedKind(c, labels, g)
    requires SomeDenied(ListableKinds(c.resources), c, labels)
    requires c.listObjects(NamespaceKind, map[]).Fetched?
    ensures UpdateRemoteObjects(st, Some(c), labels, []).error.None?
    ensures UpdateRemoteObjects(st, Some(c), labels, []).state.objects.Keys ==
            st.objects.Keys + Returned(ListableKinds(c.resources), c, labels)
    ensures UpdateRemoteObjects(st, Some(c), labels, []).state.warnings ==
            st.warnings + [Report(NoRef, Advisory(DiscoveryAdvisory))]
    ensures UpdateRemoteObjects(st, Some(c), labels, []).state.errors == st.errors
  {
    var kinds := ListableKinds(c.resources);
    var t := ListKinds(Tally(st.objects, [], 0, 0), kinds, c, labels);
    NoWarningsWithoutFailures(t.reports, kinds, c, labels);
    assert t.permCount > 0;
    var s1 := GetAllByLabels(st, c, labels);
    assert s1.error.None?;
    assert s1.state.warnings == st.warnings + [Report(NoRef, Advisory(DiscoveryAdvisory))];
    var s2 := GetMissingObjectsAsWritten(s1.state, c, []);
    assert s2 == Stage(s1.state, [], None);
    assert UpdateRemoteObjects(st, Some(c), labels, []) == FinishPass(s1.requests, s2, c);
  }

  // ---------------------------------------------------------------------------
  // Read accessors

  /** `GetRemoteObject`: the object stored under `ref`, if any. */
  function GetRemoteObject(st: State, ref: ObjectRef): (r: Option<Object>)
    ensures r.Some? <==> ref in st.objects
    ensures r.Some? ==> r.value == st.objects[ref]
  {
    if ref in st.objects then Some(st.objects[ref]) else None
  }

  /** `GetRemoteNamespace`: the namespace stored under `name`, if any. */
  function GetRemoteNamespace(st: State, name: string): (r: Option<Object>)
    ensures r.Some? <==> name in st.namespaces
    ensures r.Some? ==> r.value == st.namespaces[name]
    ensures NamespacesWellKeyed(st.namespaces) && r.Some? ==> r.value.name == name
  {
    if name in st.namespaces then Some(st.namespaces[name]) else None
  }

  /** `ForgetRemoteObject`: drops exactly the entry for `ref`. */
  function ForgetRemoteObject(st: State, ref: ObjectRef): (r: State)
    ensures ref !in r.objects
    ensures forall k :: k != ref ==> (k in r.objects <==> k in st.objects)
    ensures forall k :: k in r.objects ==> r.objects[k] == st.objects[k]
    ensures r.namespaces == st.namespaces && r.warnings == st.warnings && r.errors == st.errors
  {
    st.(objects := st.objects - {ref})
  }

  /** After forgetting `ref` it is no longer found, and every other lookup
      answers as before. */
  lemma ForgetThenGet(st: State, ref: ObjectRef, other: ObjectRef)
    requires other != ref
    ensures GetRemoteObject(ForgetRemoteObject(st, ref), ref).None?
    ensures GetRemoteObject(ForgetRemoteObject(st, ref), other) == GetRemoteObject(st, other)
  {
  }

  // ---------------------------------------------------------------------------
  // Inclusion filtering

  /** One tag an object carries for inclusion matching. */
  datatype InclusionEntry = InclusionEntry(entryType: string, value: string)

  const TagType := "tag"
  const ItemDirType := "deploymentItemDir"
  const ItemDirAnnotation := "kluctl.io/kustomize_dir"

  predicate IsDigit(ch: char) {
    '0' <= ch <= '9'
  }

  /** A match of `^kluctl.io/tag-\d+$`: the unescaped '.' matches any
      character but a newline, and `\d` an ASCII digit. */
  predicate IsTagLabel(k: string) {
    && |k| >= 15
    && k[..6] == "kluctl"
    && k[6] != '\n'
    && k[7..14] == "io/tag-"
    && forall i :: 14 <= i < |k| ==> IsDigit(k[i])
  }

  /** Exactly the labels `kluctl`, one character other than a newline,
      `io/tag-` and one or more digits match the tag pattern. */
  lemma TagLabelShape(ch: char, digits: string)
    ensures IsTagLabel("kluctl" + [ch] + "io/tag-" + digits) <==>
            ch != '\n' && digits != [] && forall i :: 0 <= i < |digits| ==> IsDigit(digits[i])
  {
  }

  /** What the tag pattern accepts and rejects: any digits after the prefix,
      any character but a newline in place of the '.', and nothing before
      the prefix or instead of the digits. */
  lemma TagLabelExamples()
    ensures IsTagLabel("kluctl.io/tag-0") && IsTagLabel("kluctl.io/tag-42")
    ensures IsTagLabel("kluctlXio/tag-7")
    ensures !IsTagLabel("kluctl\nio/tag-7")
    ensures !IsTagLabel("kluctl.io/tag-") && !IsTagLabel("kluctl.io/tag-4a")
    ensures !IsTagLabel("xkluctl.io/tag-4")
  {
    TagLabelShape('.', "0");
    assert "kluctl" + ['.'] + "io/tag-" + "0" == "kluctl.io/tag-0";
    TagLabelShape('.', "42");
    assert "kluctl" + ['.'] + "io/tag-" + "42" == "kluctl.io/tag-42";
    TagLabelShape('X', "7");
    assert "kluctl" + ['X'] + "io/tag-" + "7" == "kluctlXio/tag-7";
    TagLabelShape('\n', "7");
    assert "kluctl" + ['\n'] + "io/tag-" + "7" == "kluctl\nio/tag-7";
    TagLabelShape('.', "");
    assert "kluctl" + ['.'] + "io/tag-" + "" == "kluctl.io/tag-";
    TagLabelShape('.', "4a");
    assert "kluctl" + ['.'] + "io/tag-" + "4a" == "kluctl.io/tag-4a";
    assert !IsDigit("4a"[1]);
    assert "xkluctl.io/tag-4"[..6] != "kluctl" by { assert "xkluctl.io/tag-4"[0] == 'x'; }
  }

  /** `getInclusionEntries`: one tag entry per tag label, and an item
      directory entry when the annotation is set. */
  function InclusionEntries(o: Object): (r: set<InclusionEntry>)
    ensures forall v :: InclusionEntry(TagType, v) in r <==> HasTag(o, v)
    ensures forall v :: InclusionEntry(ItemDirType, v) in r <==>
              ItemDirAnnotation in o.annotations && o.annotations[ItemDirAnnotation] == v
    ensures forall e :: e in r ==> e.entryType == TagType || e.entryType == ItemDirType
  {
    (set k | k in o.labels && IsTagLabel(k) :: InclusionEntry(TagType, o.labels[k]))
    + (if ItemDirAnnotation in o.annotations
       then {InclusionEntry(ItemDirType, o.annotations[ItemDirAnnotation])} else {})
  }

  /** Some tag label of `o` has the value `v`. */
  predicate HasTag(o: Object, v: string) {
    exists k :: k in o.labels && IsTagLabel(k) && o.labels[k] == v
  }

  /** `GetFilteredRemoteObjects`: the snapshot objects whose inclusion
      entries `included` accepts (`included` stands for
      `inclusion.CheckIncluded(entries, false)`). */
  function GetFilteredRemoteObjects(st: State, included: set<InclusionEntry> -> bool): (r: set<Object>)
    ensures r <= st.objects.Values
    ensures forall o :: o in st.objects.Values ==> (o in r <==> included(InclusionEntries(o)))
  {
    set o | o in st.objects.Values && included(InclusionEntries(o))
  }

  /** With an inclusion that matches a single tag, exactly the snapshot
      objects carrying that tag are selected. */
  lemma FilterBySingleTag(st: State, t: string)
    ensures forall o :: o in GetFilteredRemoteObjects(st, iv => InclusionEntry(TagType, t) in iv) <==>
              o in st.objects.Values && HasTag(o, t)
  {
  }

  /** Forgetting an object removes it, and only it, from every filtered view. */
  lemma FilterAfterForget(st: State, ref: ObjectRef, included: set<InclusionEntry> -> bool)
    requires WellKeyed(st.objects) && ref in st.objects
    ensures GetFilteredRemoteObjects(ForgetRemoteObject(st, ref), included) ==
            GetFilteredRemoteObjects(st, included) - {st.objects[ref]}
  {
  }
}
