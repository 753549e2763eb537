/** The test harness of pkg/transport/generic_tranpsort_controller_test.go:
    building the expected Binding one object at a time (SliceFindOrCreate and
    bindingCase.Add), and judging one batch handed to the transport
    (testTransport.WrapObjects). */
module TransportHarness {
  import opened Outcomes
  import opened Unstructured
  import opened Schema

  /** util.GVKObjRef: which object a document is, by group, kind, namespace
      and name. */
  datatype ObjRef = ObjRef(group: string, kind: string, namespace: string, name: string)

  /** ksapi.ClusterScopeDownsyncObjects: the names of cluster-scoped objects of one GVR. */
  datatype ClusterScopeObjects = ClusterScopeObjects(gvr: GVR, objectNames: seq<string>)

  /** ksapi.NamespaceAndNames: the names of objects in one namespace. */
  datatype NamespaceAndNames = NamespaceAndNames(namespace: string, names: seq<string>)

  /** ksapi.NamespaceScopeDownsyncObjects: the namespaced objects of one GVR, by namespace. */
  datatype NamespaceScopeObjects = NamespaceScopeObjects(gvr: GVR, objectsByNamespace: seq<NamespaceAndNames>)

  /** The Binding's workload: the two kinds of buckets. */
  datatype Workload = Workload(clusterScope: seq<ClusterScopeObjects>, namespaceScope: seq<NamespaceScopeObjects>)

  // ----- SliceFindOrCreate and its key/new helpers -----

  /** The position of the first element with key `k`, if any (the loop of
      SliceFindOrCreate). */
  function FindFirst<E, K(==)>(key: E -> K, slice: seq<E>, k: K): (r: Option<nat>)
    ensures r.Some? ==> r.value < |slice| && key(slice[r.value]) == k
    ensures r.Some? ==> forall j | 0 <= j < r.value :: key(slice[j]) != k
    ensures r.None? ==> forall j | 0 <= j < |slice| :: key(slice[j]) != k
  {
    if slice == [] then None
    else if key(slice[0]) == k then Some(0)
    else match FindFirst(key, slice[1..], k)
      case None => None
      case Some(i) => Some(i + 1)
  }

  /** SliceFindOrCreate: the slice afterwards and the position of the element
      the returned pointer designates. */
  function SliceFindOrCreate<E, K(==)>(key: E -> K, make: K -> E, slice: seq<E>, k: K): (r: (seq<E>, nat))
    ensures r.1 < |r.0|
    ensures (exists j | 0 <= j < |slice| :: key(slice[j]) == k) ==>
      r.0 == slice && key(r.0[r.1]) == k && forall j | 0 <= j < r.1 :: key(slice[j]) != k
    ensures (forall j | 0 <= j < |slice| :: key(slice[j]) != k) ==>
      |r.0| == |slice| + 1 && r.0[..|slice|] == slice && r.1 == |slice| && r.0[r.1] == make(k)
  {
    match FindFirst(key, slice, k)
    case Some(i) => (slice, i)
    case None => (slice + [make(k)], |slice|)
  }

  /** With a helper pair whose `make` yields an element of the requested key,
      the designated element has that key, and a second call with the same
      key changes nothing. */
  lemma SliceFindOrCreateTwice<E, K>(key: E -> K, make: K -> E, slice: seq<E>, k: K)
    requires key(make(k)) == k
    ensures var (s, i) := SliceFindOrCreate(key, make, slice, k);
      key(s[i]) == k && SliceFindOrCreate(key, make, s, k) == (s, i)
  {
    var (s, i) := SliceFindOrCreate(key, make, slice, k);
    if FindFirst(key, slice, k).None? {
      assert s == slice + [make(k)];
      assert forall j | 0 <= j < |slice| :: s[j] == slice[j];
    }
  }

  function ClusterScopeKey(elts: ClusterScopeObjects): GVR { elts.gvr }
  function NewClusterScope(gvr: GVR): ClusterScopeObjects { ClusterScopeObjects(gvr, []) }
  function NamespaceScopeKey(elts: NamespaceScopeObjects): GVR { elts.gvr }
  function NewNamespaceScope(gvr: GVR): NamespaceScopeObjects { NamespaceScopeObjects(gvr, []) }
  function NamespaceAndNamesKey(elts: NamespaceAndNames): string { elts.namespace }
  function NewNamespaceAndNames(ns: string): NamespaceAndNames { NamespaceAndNames(ns, []) }

  // ----- bindingCase.Add -----

  /** An object the test generated, with the resource it belongs to and its
      conversion to a generic document (None when the conversion fails). */
  datatype MRObjRsc = MRObjRsc(ref: ObjRef, version: string, resource: string, converted: Option<Object>)

  /** The expected Binding, the expected delivered documents by key, and the
      keys in the order they were added. */
  datatype BindingCase = BindingCase(workload: Workload, expected: map<ObjRef, Object>, expectedKeys: seq<ObjRef>)

  function GvrOf(obj: MRObjRsc): GVR
  {
    GVR(obj.ref.group, obj.version, obj.resource)
  }

  /** The element with key `k`, if the slice has one. */
  function Lookup<E, K(==)>(key: E -> K, s: seq<E>, k: K): Option<E>
  {
    match FindFirst(key, s, k)
    case None => None
    case Some(i) => Some(s[i])
  }

  /** The element find-or-create designates, before it is changed. */
  function FoundOrMade<E, K(==)>(key: E -> K, make: K -> E, s: seq<E>, k: K): E
  {
    match Lookup(key, s, k)
    case Some(e) => e
    case None => make(k)
  }

  /** Find-or-create, then change the designated element through the pointer. */
  function FindOrCreateThen<E, K(==)>(key: E -> K, make: K -> E, s: seq<E>, k: K, f: E -> E): seq<E>
  {
    var (s', i) := SliceFindOrCreate(key, make, s, k);
    s'[i := f(s'[i])]
  }

  /** On a slice with unique keys and a key-preserving change, find-or-create
      then change keeps keys unique, changes the element for `k` (made
      afresh if missing) and leaves every other key's element alone; every
      element afterwards is an earlier one or the changed one. */
  lemma FindOrCreateThenSpec<E, K>(key: E -> K, make: K -> E, s: seq<E>, k: K, f: E -> E, q: K)
    requires UniqueKeys(key, s) && key(make(k)) == k
    requires forall e :: key(f(e)) == key(e)
    ensures var r := FindOrCreateThen(key, make, s, k, f);
      && UniqueKeys(key, r)
      && Lookup(key, r, k) == Some(f(FoundOrMade(key, make, s, k)))
      && (q != k ==> Lookup(key, r, q) == Lookup(key, s, q))
      && (forall j | 0 <= j < |r| :: r[j] in s || r[j] == f(FoundOrMade(key, make, s, k)))
  {
    var (s', i) := SliceFindOrCreate(key, make, s, k);
    var r := FindOrCreateThen(key, make, s, k, f);
    assert forall j | 0 <= j < |s| :: s'[j] == s[j];
    assert s'[i] == FoundOrMade(key, make, s, k);
    assert forall j | 0 <= j < |r| :: key(r[j]) == key(s'[j]);
    assert forall j | 0 <= j < |s'| && j != i :: key(s'[j]) != k;
    var fr := FindFirst(key, r, k);
    assert fr == Some(i);
    if q != k {
      var fs := FindFirst(key, s, q);
      var fq := FindFirst(key, r, q);
      if fs.Some? {
        assert key(r[fs.value]) == q;
      }
      if fq.Some? {
        assert fq.value != i;
        assert key(s[fq.value]) == q;
      }
    }
  }

  /** Record a name in the cluster-scope bucket of `gvr`. */
  function AppendClusterName(w: Workload, gvr: GVR, name: string): Workload
  {
    w.(clusterScope := FindOrCreateThen(ClusterScopeKey, NewClusterScope, w.clusterScope, gvr,
                                        (b: ClusterScopeObjects) => b.(objectNames := b.objectNames + [name])))
  }

  /** Record a name in the bucket of namespace `ns` of one GVR's buckets. */
  function AppendNamespaceName(byNs: seq<NamespaceAndNames>, ns: string, name: string): seq<NamespaceAndNames>
  {
    FindOrCreateThen(NamespaceAndNamesKey, NewNamespaceAndNames, byNs, ns,
                     (b: NamespaceAndNames) => b.(names := b.names + [name]))
  }

  /** Record a name in the namespace-scope bucket of `gvr`, namespace `ns`. */
  function AppendNamespacedName(w: Workload, gvr: GVR, ns: string, name: string): Workload
  {
    w.(namespaceScope := FindOrCreateThen(NamespaceScopeKey, NewNamespaceScope, w.namespaceScope, gvr,
                                          (b: NamespaceScopeObjects) =>
                                            b.(objectsByNamespace := AppendNamespaceName(b.objectsByNamespace, ns, name))))
  }

  /** bindingCase.Add: record the object's name in the cluster-scope bucket of
      its GVR when it has no namespace, otherwise in the bucket of its
      namespace inside the namespace-scope bucket of its GVR; then record its
      document as expected under its key and log the key. A failed
      conversion panics. */
  function Add(bc: BindingCase, obj: MRObjRsc): (r: Result<BindingCase, string>)
    ensures r.Failure? <==> obj.converted.None?
  {
    var w' :=
      if obj.ref.namespace == "" then AppendClusterName(bc.workload, GvrOf(obj), obj.ref.name)
      else AppendNamespacedName(bc.workload, GvrOf(obj), obj.ref.namespace, obj.ref.name);
    match obj.converted
    case None => Failure("ToUnstructured failed")
    case Some(doc) =>
      Success(BindingCase(w', bc.expected[obj.ref := doc], bc.expectedKeys + [obj.ref]))
  }

  /** The names recorded for cluster-scoped objects of `gvr`. */
  function ClusterNames(w: Workload, gvr: GVR): seq<string>
  {
    match Lookup(ClusterScopeKey, w.clusterScope, gvr)
    case None => []
    case Some(b) => b.objectNames
  }

  /** The names recorded for objects of `gvr` in namespace `ns`. */
  function NamespacedNames(w: Workload, gvr: GVR, ns: string): seq<string>
  {
    match Lookup(NamespaceScopeKey, w.namespaceScope, gvr)
    case None => []
    case Some(b) =>
      match Lookup(NamespaceAndNamesKey, b.objectsByNamespace, ns)
      case None => []
      case Some(c) => c.names
  }

  /** No two buckets at one level share a key. */
  predicate UniqueKeys<E, K(==)>(key: E -> K, s: seq<E>)
  {
    forall a, b | 0 <= a < b < |s| :: key(s[a]) != key(s[b])
  }

  predicate WellFormed(w: Workload)
  {
    && UniqueKeys(ClusterScopeKey, w.clusterScope)
    && UniqueKeys(NamespaceScopeKey, w.namespaceScope)
    && forall b | b in w.namespaceScope :: UniqueKeys(NamespaceAndNamesKey, b.objectsByNamespace)
  }

  lemma LookupIn<E, K>(key: E -> K, s: seq<E>, k: K)
    ensures Lookup(key, s, k).Some? ==> Lookup(key, s, k).value in s
  {
  }

  /** Recording a cluster-scoped name appends it to the list of its GVR and
      to no other list. */
  lemma AppendClusterNameSpec(w: Workload, gvr: GVR, name: string, g: GVR, ns: string)
    requires WellFormed(w)
    ensures var w' := AppendClusterName(w, gvr, name);
      && WellFormed(w')
      && ClusterNames(w', g) == ClusterNames(w, g) + (if g == gvr then [name] else [])
      && NamespacedNames(w', g, ns) == NamespacedNames(w, g, ns)
  {
    var f := (b: ClusterScopeObjects) => b.(objectNames := b.objectNames + [name]);
    FindOrCreateThenSpec(ClusterScopeKey, NewClusterScope, w.clusterScope, gvr, f, g);
  }

  /** Recording a namespaced name appends it to the list of its GVR and
      namespace and to no other list. */
  lemma AppendNamespacedNameSpec(w: Workload, gvr: GVR, ns0: string, name: string, g: GVR, ns: string)
    requires WellFormed(w)
    ensures var w' := AppendNamespacedName(w, gvr, ns0, name);
      && WellFormed(w')
      && ClusterNames(w', g) == ClusterNames(w, g)
      && NamespacedNames(w', g, ns) == NamespacedNames(w, g, ns) + (if g == gvr && ns == ns0 then [name] else [])
  {
    AppendNamespacedNameWellFormed(w, gvr, ns0, name);
    AppendNamespacedNameLists(w, gvr, ns0, name, g, ns);
  }

  lemma AppendNamespacedNameWellFormed(w: Workload, gvr: GVR, ns0: string, name: string)
    requires WellFormed(w)
    ensures WellFormed(AppendNamespacedName(w, gvr, ns0, name))
  {
    var inner := (c: NamespaceAndNames) => c.(names := c.names + [name]);
    var f := (b: NamespaceScopeObjects) => b.(objectsByNamespace := AppendNamespaceName(b.objectsByNamespace, ns0, name));
    var found := FoundOrMade(NamespaceScopeKey, NewNamespaceScope, w.namespaceScope, gvr);
    LookupIn(NamespaceScopeKey, w.namespaceScope, gvr);
    FindOrCreateThenSpec(NamespaceScopeKey, NewNamespaceScope, w.namespaceScope, gvr, f, gvr);
    FindOrCreateThenSpec(NamespaceAndNamesKey, NewNamespaceAndNames, found.objectsByNamespace, ns0, inner, ns0);
  }

  lemma AppendNamespacedNameLists(w: Workload, gvr: GVR, ns0: string, name: string, g: GVR, ns: string)
    requires WellFormed(w)
    ensures NamespacedNames(AppendNamespacedName(w, gvr, ns0, name), g, ns)
         == NamespacedNames(w, g, ns) + (if g == gvr && ns == ns0 then [name] else [])
  {
    if g == gvr {
      AppendNamespacedNameOwnList(w, gvr, ns0, name, ns);
    } else {
      var f := (b: NamespaceScopeObjects) => b.(objectsByNamespace := AppendNamespaceName(b.objectsByNamespace, ns0, name));
      FindOrCreateThenSpec(NamespaceScopeKey, NewNamespaceScope, w.namespaceScope, gvr, f, g);
    }
  }

  lemma AppendNamespacedNameOwnList(w: Workload, gvr: GVR, ns0: string, name: string, ns: string)
    requires WellFormed(w)
    ensures NamespacedNames(AppendNamespacedName(w, gvr, ns0, name), gvr, ns)
         == NamespacedNames(w, gvr, ns) + (if ns == ns0 then [name] else [])
  {
    var inner := (c: NamespaceAndNames) => c.(names := c.names + [name]);
    var f := (b: NamespaceScopeObjects) => b.(objectsByNamespace := AppendNamespaceName(b.objectsByNamespace, ns0, name));
    var found := FoundOrMade(NamespaceScopeKey, NewNamespaceScope, w.namespaceScope, gvr);
    LookupIn(NamespaceScopeKey, w.namespaceScope, gvr);
    FindOrCreateThenSpec(NamespaceScopeKey, NewNamespaceScope, w.namespaceScope, gvr, f, gvr);
    FindOrCreateThenSpec(NamespaceAndNamesKey, NewNamespaceAndNames, found.objectsByNamespace, ns0, inner, ns);
  }

  /** Add appends the object's name to exactly one list of names: its GVR's
      cluster-scope list when it has no namespace, otherwise its GVR's list
      for its namespace. No name is de-duplicated, and every other list is
      unchanged. It also expects the document under the key and logs the key
      once. */
  lemma AddAppendsName(bc: BindingCase, obj: MRObjRsc, gvr: GVR, ns: string)
    requires WellFormed(bc.workload) && obj.converted.Some?
    ensures var r := Add(bc, obj).value;
      && WellFormed(r.workload)
      && ClusterNames(r.workload, gvr) ==
           ClusterNames(bc.workload, gvr)
           + (if obj.ref.namespace == "" && gvr == GvrOf(obj) then [obj.ref.name] else [])
      && NamespacedNames(r.workload, gvr, ns) ==
           NamespacedNames(bc.workload, gvr, ns)
           + (if obj.ref.namespace != "" && gvr == GvrOf(obj) && ns == obj.ref.namespace then [obj.ref.name] else [])
      && r.expected == bc.expected[obj.ref := obj.converted.value]
      && r.expectedKeys == bc.expectedKeys + [obj.ref]
  {
    if obj.ref.namespace == "" {
      AppendClusterNameSpec(bc.workload, GvrOf(obj), obj.ref.name, gvr, ns);
    } else {
      AppendNamespacedNameSpec(bc.workload, GvrOf(obj), obj.ref.namespace, obj.ref.name, gvr, ns);
    }
  }

  // ----- testTransport.WrapObjects -----

  /** What one WrapObjects call records: the expected objects not delivered
      (with their expected documents), the delivered documents that differ
      from their cleaned expectation (the last such one per key), and the
      delivered documents that were not expected, in order. */
  datatype Verdict = Verdict(wrapped: bool, missed: map<ObjRef, Object>, wrong: map<ObjRef, Object>, extra: seq<Object>)

  /** The keys of the delivered documents. */
  function Delivered(refOf: Object -> ObjRef, objs: seq<Object>): set<ObjRef>
  {
    if objs == [] then {} else Delivered(refOf, objs[..|objs| - 1]) + {refOf(objs[|objs| - 1])}
  }

  /** A delivered document whose key is expected but which differs from the
      cleaned expectation. */
  predicate IsWrong(refOf: Object -> ObjRef, clean: Object -> Object, expected: map<ObjRef, Object>, o: Object)
  {
    refOf(o) in expected && o != clean(expected[refOf(o)])
  }

  /** The wrong documents by key, a later one replacing an earlier one. */
  function Wrong(refOf: Object -> ObjRef, clean: Object -> Object, expected: map<ObjRef, Object>, objs: seq<Object>): map<ObjRef, Object>
  {
    if objs == [] then map[]
    else
      var o := objs[|objs| - 1];
      var prev := Wrong(refOf, clean, expected, objs[..|objs| - 1]);
      if IsWrong(refOf, clean, expected, o) then prev[refOf(o) := o] else prev
  }

  /** The delivered documents whose key is not expected, in order. */
  function Unexpected(refOf: Object -> ObjRef, expected: map<ObjRef, Object>, objs: seq<Object>): (r: seq<Object>)
    ensures |r| <= |objs|
  {
    if objs == [] then []
    else
      Unexpected(refOf, expected, objs[..|objs| - 1])
      + (if refOf(objs[|objs| - 1]) in expected then [] else [objs[|objs| - 1]])
  }

  /** The expected documents whose key no delivered document carries. */
  function Missed(refOf: Object -> ObjRef, expected: map<ObjRef, Object>, objs: seq<Object>): map<ObjRef, Object>
  {
    map k | k in expected && k !in Delivered(refOf, objs) :: expected[k]
  }

  lemma MissedStep(refOf: Object -> ObjRef, expected: map<ObjRef, Object>, objs: seq<Object>, n: nat)
    requires n < |objs|
    ensures Missed(refOf, expected, objs[..n + 1]) == Missed(refOf, expected, objs[..n]) - {refOf(objs[n])}
  {
    assert objs[..n + 1][..n] == objs[..n];
  }

  /** testTransport.WrapObjects, with the key extraction (RefToRuntimeObj)
      and the controller's cleaning as parameters; all three findings are
      rebuilt from scratch on every call. */
  method WrapObjects(refOf: Object -> ObjRef, clean: Object -> Object, expected: map<ObjRef, Object>, objs: seq<Object>)
    returns (v: Verdict)
    ensures v.wrapped
    ensures v.missed == Missed(refOf, expected, objs)
    ensures v.wrong == Wrong(refOf, clean, expected, objs)
    ensures v.extra == Unexpected(refOf, expected, objs)
  {
    var missed := map k | k in expected :: expected[k];
    var wrong: map<ObjRef, Object> := map[];
    var extra: seq<Object> := [];
    var n := 0;
    while n < |objs|
      invariant 0 <= n <= |objs|
      invariant missed == Missed(refOf, expected, objs[..n])
      invariant wrong == Wrong(refOf, clean, expected, objs[..n])
      invariant extra == Unexpected(refOf, expected, objs[..n])
    {
      var obj := objs[n];
      var key := refOf(obj);
      assert objs[..n + 1][..n] == objs[..n];
      MissedStep(refOf, expected, objs, n);
      missed := missed - {key};
      if key in expected {
        var cleaned := clean(expected[key]);
        if obj != cleaned {
          wrong := wrong[key := obj];
        }
      } else {
        extra := extra + [obj];
      }
      n := n + 1;
    }
    assert objs[..n] == objs;
    v := Verdict(true, missed, wrong, extra);
  }

  /** A key was delivered exactly when some document carries it. */
  lemma {:induction false} DeliveredMember(refOf: Object -> ObjRef, objs: seq<Object>, k: ObjRef)
    ensures k in Delivered(refOf, objs) <==> exists i | 0 <= i < |objs| :: refOf(objs[i]) == k
    decreases |objs|
  {
    if objs != [] {
      var n := |objs| - 1;
      DeliveredMember(refOf, objs[..n], k);
      assert forall i | 0 <= i < n :: objs[..n][i] == objs[i];
    }
  }

  /** Document i is wrong for key k and no later document is. */
  ghost predicate LastWrongAt(refOf: Object -> ObjRef, clean: Object -> Object, expected: map<ObjRef, Object>,
                              objs: seq<Object>, k: ObjRef, i: int)
  {
    && 0 <= i < |objs|
    && refOf(objs[i]) == k && IsWrong(refOf, clean, expected, objs[i])
    && forall j | i < j < |objs| :: !(refOf(objs[j]) == k && IsWrong(refOf, clean, expected, objs[j]))
  }

  /** A key is reported wrong exactly when some delivered document with that
      key is wrong, and it is reported with the last such document. */
  lemma WrongMember(refOf: Object -> ObjRef, clean: Object -> Object, expected: map<ObjRef, Object>, objs: seq<Object>, k: ObjRef)
    ensures k in Wrong(refOf, clean, expected, objs) <==>
      exists i | 0 <= i < |objs| :: refOf(objs[i]) == k && IsWrong(refOf, clean, expected, objs[i])
    ensures k in Wrong(refOf, clean, expected, objs) ==>
      exists i :: LastWrongAt(refOf, clean, expected, objs, k, i) && objs[i] == Wrong(refOf, clean, expected, objs)[k]
  {
    WrongKeys(refOf, clean, expected, objs, k);
    if k in Wrong(refOf, clean, expected, objs) {
      WrongLast(refOf, clean, expected, objs, k);
    }
  }

  lemma {:induction false} WrongKeys(refOf: Object -> ObjRef, clean: Object -> Object, expected: map<ObjRef, Object>, objs: seq<Object>, k: ObjRef)
    ensures k in Wrong(refOf, clean, expected, objs) <==>
      exists i | 0 <= i < |objs| :: refOf(objs[i]) == k && IsWrong(refOf, clean, expected, objs[i])
    decreases |objs|
  {
    if objs != [] {
      var n := |objs| - 1;
      WrongKeys(refOf, clean, expected, objs[..n], k);
      assert forall i | 0 <= i < n :: objs[..n][i] == objs[i];
    }
  }

  lemma {:induction false} WrongLast(refOf: Object -> ObjRef, clean: Object -> Object, expected: map<ObjRef, Object>, objs: seq<Object>, k: ObjRef)
    requires k in Wrong(refOf, clean, expected, objs)
    ensures exists i :: LastWrongAt(refOf, clean, expected, objs, k, i) && objs[i] == Wrong(refOf, clean, expected, objs)[k]
    decreases |objs|
  {
    var n := |objs| - 1;
    var init := objs[..n];
    var o := objs[n];
    if refOf(o) == k && IsWrong(refOf, clean, expected, o) {
      assert LastWrongAt(refOf, clean, expected, objs, k, n);
    } else {
      WrongLast(refOf, clean, expected, init, k);
      var i :| LastWrongAt(refOf, clean, expected, init, k, i) && init[i] == Wrong(refOf, clean, expected, init)[k];
      assert objs[i] == init[i];
      assert LastWrongAt(refOf, clean, expected, objs, k, i);
    }
  }

  lemma {:induction false} UnexpectedEmpty(refOf: Object -> ObjRef, expected: map<ObjRef, Object>, objs: seq<Object>)
    ensures Unexpected(refOf, expected, objs) == [] <==> forall i | 0 <= i < |objs| :: refOf(objs[i]) in expected
    decreases |objs|
  {
    if objs != [] {
      var n := |objs| - 1;
      UnexpectedEmpty(refOf, expected, objs[..n]);
      assert forall i | 0 <= i < n :: objs[..n][i] == objs[i];
    }
  }

  /** The test's success condition: a wrapping happened and nothing was
      missed, wrong or extra. */
  predicate Passed(v: Verdict)
  {
    v.wrapped && v.missed == map[] && v.wrong == map[] && v.extra == []
  }

  /** The verdict WrapObjects computes passes exactly when the batch
      delivers every expected key, delivers nothing unexpected, and every
      delivered document equals its cleaned expectation. */
  lemma PassedIff(refOf: Object -> ObjRef, clean: Object -> Object, expected: map<ObjRef, Object>, objs: seq<Object>)
    ensures var v := Verdict(true, Missed(refOf, expected, objs),
                             Wrong(refOf, clean, expected, objs), Unexpected(refOf, expected, objs));
      Passed(v) <==>
        && (forall k | k in expected :: exists i | 0 <= i < |objs| :: refOf(objs[i]) == k)
        && (forall i | 0 <= i < |objs| :: refOf(objs[i]) in expected && objs[i] == clean(expected[refOf(objs[i])]))
  {
    var v := Verdict(true, Missed(refOf, expected, objs),
                     Wrong(refOf, clean, expected, objs), Unexpected(refOf, expected, objs));
    UnexpectedEmpty(refOf, expected, objs);
    forall k ensures k in Delivered(refOf, objs) <==> exists i | 0 <= i < |objs| :: refOf(objs[i]) == k {
      DeliveredMember(refOf, objs, k);
    }
    forall k ensures k in v.wrong <==> exists i | 0 <= i < |objs| :: refOf(objs[i]) == k && IsWrong(refOf, clean, expected, objs[i]) {
      WrongKeys(refOf, clean, expected, objs, k);
    }
    if Passed(v) {
      forall i | 0 <= i < |objs| ensures objs[i] == clean(expected[refOf(objs[i])]) {
        assert refOf(objs[i]) !in v.wrong;
      }
      forall k | k in expected ensures exists i | 0 <= i < |objs| :: refOf(objs[i]) == k {
        assert k !in v.missed;
      }
    } else if v.missed != map[] {
      var k :| k in v.missed;
    } else if v.wrong != map[] {
      var k :| k in v.wrong;
    }
  }
}
