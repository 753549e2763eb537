/** The downsync-test helpers of pkg/binding/controller_test.go: whether an
    object satisfies any of a policy's DownsyncObjectTests (MatchesAny,
    LabelsMatchAny), and the random generators of such tests (extractTest,
    extractStringTest, extractLabelsTest, getObjectTest). Label-selector
    conversion and matching belong to apimachinery and are parameters. */
module DownsyncTest {
  import opened Outcomes

  type Labels = map<string, string>

  /** One requirement of a selector's matchExpressions, kept as data. */
  datatype Requirement = Requirement(key: string, operator: string, values: seq<string>)

  /** metav1.LabelSelector. */
  datatype LabelSelector = LabelSelector(matchLabels: Labels, matchExpressions: seq<Requirement>)

  /** metav1.LabelSelectorAsSelector (whether the selector converts) and
      labels.Selector.Matches, as parameters. */
  datatype SelectorLib = SelectorLib(converts: LabelSelector -> bool, matches: (LabelSelector, Labels) -> bool)

  /** What the library does for a selector with only matchLabels: it converts
      when its pairs are well-formed (`validPair`), and then matches exactly
      the label sets holding every pair. */
  ghost predicate MatchLabelsFaithful(lib: SelectorLib, validPair: (string, string) -> bool)
  {
    && (forall ml: Labels ::
          lib.converts(LabelSelector(ml, [])) <==> forall k | k in ml :: validPair(k, ml[k]))
    && (forall ml: Labels, l: Labels ::
          lib.matches(LabelSelector(ml, []), l) <==> forall k | k in ml :: k in l && l[k] == ml[k])
  }

  /** ksapi.DownsyncObjectTest. */
  datatype DownsyncObjectTest = DownsyncObjectTest(
    apiGroup: Option<string>,
    resources: seq<string>,
    namespaces: seq<string>,
    namespaceSelectors: seq<LabelSelector>,
    objectNames: seq<string>,
    objectSelectors: seq<LabelSelector>)

  /** A namespace object: its name and labels. */
  datatype Namespace = Namespace(name: string, labels: Labels)

  /** The metadata of a generated object that the tests read. */
  datatype MRObject = MRObject(group: string, version: string, kind: string, namespace: string, name: string, labels: Labels)

  /** A generated object with its resource and, for namespaced objects, its
      namespace object (nil for cluster-scoped ones). */
  datatype MRObjRsc = MRObjRsc(obj: MRObject, resource: string, nsObj: Option<Namespace>)

  /** How a test goroutine stops early: a nil dereference or a failed
      random-range argument panics; t.Fatalf ends the test. */
  datatype Stop = Panic(reason: string) | Fatal(reason: string)

  // ----- LabelsMatchAny -----

  /** LabelsMatchAny: whether some selector matches, trying them in order; a
      selector that does not convert before any match is fatal. */
  function LabelsMatchAny(lib: SelectorLib, labels: Labels, selectors: seq<LabelSelector>): (r: Result<bool, Stop>)
    ensures selectors == [] ==> r == Success(false)
  {
    if selectors == [] then Success(false)
    else if !lib.converts(selectors[0]) then Failure(Fatal("Failed to convert LabelSelector"))
    else if lib.matches(selectors[0], labels) then Success(true)
    else LabelsMatchAny(lib, labels, selectors[1..])
  }

  /** When every selector converts, LabelsMatchAny never stops and is true
      exactly when some selector matches. */
  lemma {:induction false} LabelsMatchAnyIff(lib: SelectorLib, labels: Labels, selectors: seq<LabelSelector>)
    requires forall s | s in selectors :: lib.converts(s)
    ensures LabelsMatchAny(lib, labels, selectors) ==
      Success(exists s | s in selectors :: lib.matches(s, labels))
    decreases |selectors|
  {
    if selectors != [] {
      LabelsMatchAnyIff(lib, labels, selectors[1..]);
      assert forall s | s in selectors :: s == selectors[0] || s in selectors[1..];
    }
  }

  /** LabelsMatchAny stops only on a selector that does not convert. */
  lemma {:induction false} LabelsMatchAnyStops(lib: SelectorLib, labels: Labels, selectors: seq<LabelSelector>)
    ensures LabelsMatchAny(lib, labels, selectors).Failure? ==>
      exists s | s in selectors :: !lib.converts(s)
    decreases |selectors|
  {
    if selectors != [] && lib.converts(selectors[0]) && !lib.matches(selectors[0], labels) {
      LabelsMatchAnyStops(lib, labels, selectors[1..]);
    }
  }

  // ----- one DownsyncObjectTest -----

  /** A list-valued axis admits a value when it is empty, lists the value, or
      lists the wildcard. */
  predicate AxisAdmits(values: seq<string>, v: string)
  {
    |values| == 0 || v in values || "*" in values
  }

  /** The body of MatchesAny's loop for one test: true when no axis check
      `continue`s. The axes are checked in the source's order; the
      namespace-selector axis dereferences the namespace object. */
  function EvalTest(lib: SelectorLib, mor: MRObjRsc, test: DownsyncObjectTest): Result<bool, Stop>
  {
    if test.apiGroup.Some? && mor.obj.group != test.apiGroup.value then Success(false)
    else if !AxisAdmits(test.resources, mor.resource) then Success(false)
    else if !AxisAdmits(test.namespaces, mor.obj.namespace) then Success(false)
    else if !AxisAdmits(test.objectNames, mor.obj.name) then Success(false)
    else
      var nsOk :-
        if |test.namespaceSelectors| == 0 then Success(true)
        else if mor.nsObj.None? then Failure(Panic("nil pointer dereference"))
        else LabelsMatchAny(lib, mor.nsObj.value.labels, test.namespaceSelectors);
      if !nsOk then Success(false)
      else if |test.objectSelectors| == 0 then Success(true)
      else LabelsMatchAny(lib, mor.obj.labels, test.objectSelectors)
  }

  /** The selection rule as a plain conjunction: every populated axis admits
      the object. A namespace-selector axis needs the object's namespace. */
  predicate Satisfies(lib: SelectorLib, mor: MRObjRsc, test: DownsyncObjectTest)
  {
    && (test.apiGroup.None? || mor.obj.group == test.apiGroup.value)
    && AxisAdmits(test.resources, mor.resource)
    && AxisAdmits(test.namespaces, mor.obj.namespace)
    && AxisAdmits(test.objectNames, mor.obj.name)
    && (|test.namespaceSelectors| == 0 ||
         (mor.nsObj.Some? && exists s | s in test.namespaceSelectors :: lib.matches(s, mor.nsObj.value.labels)))
    && (|test.objectSelectors| == 0 ||
         exists s | s in test.objectSelectors :: lib.matches(s, mor.obj.labels))
  }

  /** The selectors of a test convert, and a test with namespace selectors is
      only applied to namespaced objects. */
  predicate Evaluable(lib: SelectorLib, mor: MRObjRsc, test: DownsyncObjectTest)
  {
    && (forall s | s in test.namespaceSelectors :: lib.converts(s))
    && (forall s | s in test.objectSelectors :: lib.converts(s))
    && (|test.namespaceSelectors| > 0 ==> mor.nsObj.Some?)
  }

  /** Under those conditions one test's loop body computes the conjunction. */
  lemma EvalTestIsSatisfies(lib: SelectorLib, mor: MRObjRsc, test: DownsyncObjectTest)
    requires Evaluable(lib, mor, test)
    ensures EvalTest(lib, mor, test) == Success(Satisfies(lib, mor, test))
  {
    if |test.namespaceSelectors| > 0 {
      LabelsMatchAnyIff(lib, mor.nsObj.value.labels, test.namespaceSelectors);
    }
    LabelsMatchAnyIff(lib, mor.obj.labels, test.objectSelectors);
  }

  /** A test's loop body stops only when a namespace-selector axis meets a
      cluster-scoped object or a selector does not convert. */
  lemma EvalTestStops(lib: SelectorLib, mor: MRObjRsc, test: DownsyncObjectTest)
    ensures EvalTest(lib, mor, test).Failure? ==> !Evaluable(lib, mor, test)
  {
    if mor.nsObj.Some? {
      LabelsMatchAnyStops(lib, mor.nsObj.value.labels, test.namespaceSelectors);
    }
    LabelsMatchAnyStops(lib, mor.obj.labels, test.objectSelectors);
  }

  // ----- MatchesAny -----

  /** MatchesAny as the source writes it: every test is evaluated, a passing
      test falls through to the next iteration like a failing one, and the
      function then returns false. */
  function MatchesAnyAsWritten(lib: SelectorLib, mor: MRObjRsc, tests: seq<DownsyncObjectTest>): Result<bool, Stop>
  {
    if tests == [] then Success(false)
    else
      var _ :- EvalTest(lib, mor, tests[0]);
      MatchesAnyAsWritten(lib, mor, tests[1..])
  }

  /** As written, MatchesAny never reports a match. */
  lemma {:induction false} MatchesAnyAsWrittenNeverTrue(lib: SelectorLib, mor: MRObjRsc, tests: seq<DownsyncObjectTest>)
    ensures MatchesAnyAsWritten(lib, mor, tests) != Success(true)
    decreases |tests|
  {
    if tests != [] && EvalTest(lib, mor, tests[0]).Success? {
      MatchesAnyAsWrittenNeverTrue(lib, mor, tests[1..]);
    }
  }

  /** MatchesAny as evidently intended: true at the first test every axis of
      which admits the object. */
  function MatchesAny(lib: SelectorLib, mor: MRObjRsc, tests: seq<DownsyncObjectTest>): Result<bool, Stop>
  {
    if tests == [] then Success(false)
    else
      var passed :- EvalTest(lib, mor, tests[0]);
      if passed then Success(true) else MatchesAny(lib, mor, tests[1..])
  }

  /** When every test is evaluable, MatchesAny never stops and is true
      exactly when the object satisfies some test. */
  lemma {:induction false} MatchesAnyIff(lib: SelectorLib, mor: MRObjRsc, tests: seq<DownsyncObjectTest>)
    requires forall t | t in tests :: Evaluable(lib, mor, t)
    ensures MatchesAny(lib, mor, tests) == Success(exists t | t in tests :: Satisfies(lib, mor, t))
    decreases |tests|
  {
    if tests != [] {
      EvalTestIsSatisfies(lib, mor, tests[0]);
      MatchesAnyIff(lib, mor, tests[1..]);
      assert forall t | t in tests :: t == tests[0] || t in tests[1..];
    }
  }

  /** An object and a test it satisfies on which MatchesAny as written still
      reports no match. */
  lemma MatchesAnyAsWrittenMissesMatch(lib: SelectorLib)
    ensures var mor := MRObjRsc(MRObject("", "v1", "ConfigMap", "ns1", "cm-a", map[]), "configmaps", Some(Namespace("ns1", map[])));
      var test := DownsyncObjectTest(None, ["configmaps"], [], [], [], []);
      && Satisfies(lib, mor, test)
      && MatchesAny(lib, mor, [test]) == Success(true)
      && MatchesAnyAsWritten(lib, mor, [test]) == Success(false)
  {
    var mor := MRObjRsc(MRObject("", "v1", "ConfigMap", "ns1", "cm-a", map[]), "configmaps", Some(Namespace("ns1", map[])));
    var test := DownsyncObjectTest(None, ["configmaps"], [], [], [], []);
    assert "configmaps" in test.resources;
    assert [test][1..] == [];
  }

  /** The rule {resources: [configmaps], namespaces: [ns1]} matches the
      ConfigMap in ns1, not the one in ns2, and not a cluster-scoped Node. */
  lemma ConfigMapInNamespaceScenario(lib: SelectorLib)
    ensures var rule := [DownsyncObjectTest(None, ["configmaps"], ["ns1"], [], [], [])];
      && MatchesAny(lib, MRObjRsc(MRObject("", "v1", "ConfigMap", "ns1", "cm-a", map[]), "configmaps", Some(Namespace("ns1", map[]))), rule) == Success(true)
      && MatchesAny(lib, MRObjRsc(MRObject("", "v1", "ConfigMap", "ns2", "cm-b", map[]), "configmaps", Some(Namespace("ns2", map[]))), rule) == Success(false)
      && MatchesAny(lib, MRObjRsc(MRObject("", "v1", "Node", "", "n1", map[]), "nodes", None), rule) == Success(false)
  {
    var test := DownsyncObjectTest(None, ["configmaps"], ["ns1"], [], [], []);
    assert [test][1..] == [];
    assert "configmaps" in test.resources && "ns1" in test.namespaces;
    assert "ns2" !in test.namespaces && "*" !in test.namespaces;
    assert "nodes" !in test.resources && "*" !in test.resources;
  }

  // ----- the generators -----

  /** `idx` lists positions below `n` in strictly increasing order. */
  predicate IncreasingBelow(idx: seq<nat>, n: nat)
  {
    && (forall i | 0 <= i < |idx| :: idx[i] < n)
    && (forall i, j | 0 <= i < j < |idx| :: idx[i] < idx[j])
  }

  /** `s` keeps some of the elements of `t`, in order: it is `t` read at
      increasing positions. */
  ghost predicate IsSubsequence(s: seq<string>, t: seq<string>)
  {
    exists idx: seq<nat> ::
      |idx| == |s| && IncreasingBelow(idx, |t|) && forall i | 0 <= i < |s| :: s[i] == t[idx[i]]
  }

  /** The three coin flips of extractStringTest. */
  datatype StringDraws = StringDraws(foo: bool, good: bool, bar: bool)

  /** extractStringTest: some of "foo", the good value and "bar", in that order. */
  function ExtractStringTest(good: string, d: StringDraws): (r: seq<string>)
    ensures good in r <==> d.good || (d.foo && good == "foo") || (d.bar && good == "bar")
  {
    (if d.foo then ["foo"] else []) + (if d.good then [good] else []) + (if d.bar then ["bar"] else [])
  }

  /** What extractStringTest returns is a subsequence of "foo", the good
      value and "bar". */
  lemma ExtractStringTestSubsequence(good: string, d: StringDraws)
    ensures IsSubsequence(ExtractStringTest(good, d), ["foo", good, "bar"])
  {
    var idx: seq<nat> := (if d.foo then [0] else []) + (if d.good then [1] else []) + (if d.bar then [2] else []);
    SubsequenceWitness(ExtractStringTest(good, d), ["foo", good, "bar"], idx);
  }

  /** Increasing in-bounds positions that read `t` as `s` witness that `s`
      is a subsequence of `t`. */
  lemma SubsequenceWitness(s: seq<string>, t: seq<string>, idx: seq<nat>)
    requires |idx| == |s| && IncreasingBelow(idx, |t|)
    requires forall i | 0 <= i < |s| :: s[i] == t[idx[i]]
    ensures IsSubsequence(s, t)
  {
  }

  /** The draws of extractLabelsTest: whether "foo"="bar" is added, which
      good keys are kept, and which kept values get "not" appended. Each key
      is visited once, so the visiting order does not matter. */
  datatype LabelDraws = LabelDraws(foo: bool, keep: set<string>, negate: set<string>)

  /** extractLabelsTest: one selector with matchLabels only, holding the kept
      good pairs (some values spoiled with a "not" suffix) and perhaps
      "foo"="bar", which a kept good "foo" overwrites. */
  function ExtractLabelsTest(good: Labels, d: LabelDraws): (r: seq<LabelSelector>)
    ensures |r| == 1 && r[0].matchExpressions == []
    ensures forall k | k in r[0].matchLabels :: k in good || k == "foo"
    ensures forall k | k in good :: (k in r[0].matchLabels <==> k in d.keep) || (k == "foo" && d.foo)
    ensures forall k | k in r[0].matchLabels && k in good && k in d.keep ::
      r[0].matchLabels[k] == (if k in d.negate then good[k] + "not" else good[k])
    ensures d.foo && !("foo" in good && "foo" in d.keep) ==> "foo" in r[0].matchLabels && r[0].matchLabels["foo"] == "bar"
  {
    var kept := map k | k in good && k in d.keep :: if k in d.negate then good[k] + "not" else good[k];
    var base: Labels := if d.foo then map["foo" := "bar"] else map[];
    [LabelSelector(base + kept, [])]
  }

  /** The draws of extractTest. */
  datatype TestDraws = TestDraws(
    group: bool,
    resources: StringDraws,
    namespaces: StringDraws,
    namespaceLabels: LabelDraws,
    names: StringDraws,
    labels: LabelDraws)

  /** extractTest: a test built around one object; the namespace axes are
      filled only for a namespaced object. */
  function ExtractTest(mor: MRObjRsc, d: TestDraws): (r: DownsyncObjectTest)
    ensures mor.nsObj.None? ==> r.namespaces == [] && r.namespaceSelectors == []
    ensures mor.nsObj.Some? ==> |r.namespaceSelectors| == 1
    ensures |r.objectSelectors| == 1
    ensures r.apiGroup.Some? ==> r.apiGroup.value == mor.obj.group
  {
    DownsyncObjectTest(
      if d.group then Some(mor.obj.group) else None,
      ExtractStringTest(mor.resource, d.resources),
      if mor.nsObj.Some? then ExtractStringTest(mor.obj.namespace, d.namespaces) else [],
      if mor.nsObj.Some? then ExtractLabelsTest(mor.nsObj.value.labels, d.namespaceLabels) else [],
      ExtractStringTest(mor.obj.name, d.names),
      ExtractLabelsTest(mor.obj.labels, d.labels))
  }

  /** Draws that keep every good value and spoil nothing. */
  predicate Faithful(d: TestDraws)
  {
    && d.resources.good && d.namespaces.good && d.names.good
    && !d.namespaceLabels.foo && d.namespaceLabels.negate == {}
    && !d.labels.foo && d.labels.negate == {}
  }

  /** A test extracted from an object with faithful draws is satisfied by
      that object (with a selector library that treats matchLabels as
      apimachinery does, and well-formed labels), so the corrected MatchesAny
      reports it. */
  lemma ExtractTestSelfMatches(lib: SelectorLib, validPair: (string, string) -> bool, mor: MRObjRsc, d: TestDraws)
    requires MatchLabelsFaithful(lib, validPair)
    requires Faithful(d)
    requires forall k | k in mor.obj.labels :: validPair(k, mor.obj.labels[k])
    requires mor.nsObj.Some? ==> forall k | k in mor.nsObj.value.labels :: validPair(k, mor.nsObj.value.labels[k])
    ensures Satisfies(lib, mor, ExtractTest(mor, d))
    ensures MatchesAny(lib, mor, [ExtractTest(mor, d)]) == Success(true)
  {
    var t := ExtractTest(mor, d);
    var ol := t.objectSelectors[0];
    assert lib.matches(ol, mor.obj.labels);
    assert lib.converts(ol);
    if mor.nsObj.Some? {
      var nl := t.namespaceSelectors[0];
      assert lib.matches(nl, mor.nsObj.value.labels);
      assert lib.converts(nl);
      assert t.namespaceSelectors == [nl];
    }
    assert t.objectSelectors == [ol];
    MatchesAnyIff(lib, mor, [t]);
  }

  // ----- getObjectTest -----

  /** rand.Intn: a number in [0, n), or a panic when n is not positive. */
  method Intn(n: int) returns (r: Result<nat, Stop>)
    ensures r.Failure? <==> n <= 0
    ensures r.Success? ==> r.value < n
  {
    if n <= 0 {
      return Failure(Panic("invalid argument to Intn"));
    }
    var x: nat :| x < n;
    return Success(x);
  }

  /** rand.Intn with a positive constant bound, which cannot panic. */
  method Draw(n: nat) returns (r: nat)
    requires n > 0
    ensures r < n
  {
    r :| r < n;
  }

  /** The index-window loop of getObjectTest: `count` random positions below
      `n`, each drawn from the window that leaves room for the rest. */
  method PickWindow(n: nat, count: nat) returns (r: Result<seq<nat>, Stop>)
    ensures r.Failure? <==> count > n
    ensures r.Success? ==> |r.value| == count && IncreasingBelow(r.value, n)
  {
    var picked: seq<nat> := [];
    var baseJ: nat := 0;
    var i := 0;
    while i < count
      invariant 0 <= i <= count
      invariant |picked| == i
      invariant IncreasingBelow(picked, n)
      invariant forall k | 0 <= k < i :: picked[k] < baseJ
      invariant i == 0 ==> baseJ == 0
      invariant count > n ==> i == 0
      invariant count <= n ==> baseJ <= n - count + i
    {
      var x := Intn(n + i + 1 - count - baseJ);
      if x.Failure? {
        return Failure(x.error);
      }
      var j := baseJ + x.value;
      picked := picked + [j];
      baseJ := j + 1;
      i := i + 1;
    }
    return Success(picked);
  }

  /** The elements of `src` at the picked positions. */
  method PickFrom(src: seq<string>, count: nat) returns (r: Result<seq<string>, Stop>)
    ensures r.Failure? <==> count > |src|
    ensures r.Success? ==> |r.value| == count && IsSubsequence(r.value, src)
  {
    var idx :- PickWindow(|src|, count);
    var picked := seq(|idx|, i requires 0 <= i < |idx| => src[idx[i]]);
    assert forall i | 0 <= i < |picked| :: picked[i] == src[idx[i]];
    return Success(picked);
  }

  /** getObjectTest: a random test over the given groups, resources,
      namespaces and objects. The group is one of the groups; resources,
      namespaces and object names are each up to two picks in source order;
      the namespace selector, if any, selects one namespace's labels. Random
      ranges panic when a source list is too short. */
  method GetObjectTest(apiGroups: seq<string>, resources: seq<string>, namespaces: seq<Namespace>, objects: seq<MRObject>)
    returns (r: Result<DownsyncObjectTest, Stop>)
    ensures |apiGroups| >= 1 && |resources| >= 2 && |namespaces| >= 2 && |objects| >= 2 ==> r.Success?
    ensures r.Success? ==> r.value.apiGroup.Some? ==> r.value.apiGroup.value in apiGroups
    ensures r.Success? ==> |r.value.resources| <= 2 && IsSubsequence(r.value.resources, resources)
    ensures r.Success? ==>
      |r.value.namespaces| <= 2 &&
      IsSubsequence(r.value.namespaces, seq(|namespaces|, i requires 0 <= i < |namespaces| => namespaces[i].name))
    ensures r.Success? ==>
      r.value.namespaceSelectors == [] ||
      exists ns | ns in namespaces :: r.value.namespaceSelectors == [LabelSelector(ns.labels, [])]
    ensures r.Success? ==>
      |r.value.objectNames| <= 2 &&
      IsSubsequence(r.value.objectNames, seq(|objects|, i requires 0 <= i < |objects| => objects[i].name))
    ensures r.Success? ==> r.value.objectSelectors == []
  {
    var groupDraw := Draw(10);
    var apiGroup: Option<string> := None;
    if groupDraw < 7 {
      var g :- Intn(|apiGroups|);
      apiGroup := Some(apiGroups[g]);
    }
    var nRes := Draw(3);
    var res :- PickFrom(resources, nRes);
    var nsNames := seq(|namespaces|, i requires 0 <= i < |namespaces| => namespaces[i].name);
    var nNs := Draw(3);
    var nss :- PickFrom(nsNames, nNs);
    var selDraw := Draw(2);
    var nsSelectors: seq<LabelSelector> := [];
    if selDraw == 0 {
      var i :- Intn(|namespaces|);
      nsSelectors := [LabelSelector(namespaces[i].labels, [])];
    }
    var objNames := seq(|objects|, i requires 0 <= i < |objects| => objects[i].name);
    var nNames := Draw(3);
    var names :- PickFrom(objNames, nNames);
    return Success(DownsyncObjectTest(apiGroup, res, nss, nsSelectors, names, []));
  }
}
