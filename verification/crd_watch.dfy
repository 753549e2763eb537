/** Watch-set reconciliation of pkg/binding/crd.go: each discovery snapshot is
    compared with the informers already running; resources that are newly
    wanted are started, and informers whose resource is no longer wanted are
    stopped and removed from every bookkeeping table. Discovery, the
    exclusion and allow lists and the verb check are inputs. */
module CrdWatch {
  import opened Outcomes
  import opened Schema

  /** metav1.APIResource, reduced to what reconciliation reads. */
  datatype ResourceInfo = ResourceInfo(name: string, kind: string, verbs: seq<string>)

  /** metav1.APIResourceList: one group-version string and its resources. */
  datatype APIResourceList = APIResourceList(groupVersion: string, resources: seq<ResourceInfo>)

  /** The APIResource pair of crd.go: a parsed group-version and one resource. */
  datatype APIResource = APIResource(groupVersion: GroupVersion, resource: ResourceInfo)

  /** What ServerPreferredResources returned: lists, and the error text when
      the call reported an error. */
  datatype Discovery = Discovery(lists: seq<APIResourceList>, err: Option<string>)

  /** What reconciliation consults outside crd.go: the package's exclusion
      tables, util.IsAPIGroupAllowed applied to the controller's allowed
      groups, verbsSupportInformers, and the text that marks the tolerated
      incomplete-list error (util.UnableToRetrieveCompleteAPIListError). */
  datatype Config = Config(
    excludedGroups: set<string>,
    excludedResourceNames: set<string>,
    groupAllowed: string -> bool,
    verbsSupportInformers: seq<string> -> bool,
    incompleteListMarker: string)

  /** The informer key of a resource: groupVersion.WithKind(kind). */
  function KeyOf(gv: GroupVersion, res: ResourceInfo): GVK
  {
    GVK(gv.group, gv.version, res.kind)
  }

  function Key(a: APIResource): GVK
  {
    KeyOf(a.groupVersion, a.resource)
  }

  /** The resource an informer lists and watches. */
  function ResourceOf(a: APIResource): GVR
  {
    GVR(a.groupVersion.group, a.groupVersion.version, a.resource.name)
  }

  // ----- schema.ParseGroupVersion -----

  function CountChar(s: string, c: char): (n: nat)
    ensures n == 0 <==> c !in s
  {
    if s == [] then 0 else (if s[0] == c then 1 else 0) + CountChar(s[1..], c)
  }

  function IndexOf(s: string, c: char): (i: nat)
    requires c in s
    ensures i < |s| && s[i] == c && c !in s[..i]
  {
    if s[0] == c then 0 else 1 + IndexOf(s[1..], c)
  }

  /** schema.ParseGroupVersion: "" and "/" are the empty group-version, a
      string without '/' is a version of the core group, one '/' splits group
      from version, more than one is an error. */
  function ParseGroupVersion(gv: string): Option<GroupVersion>
  {
    if gv == "" || gv == "/" then Some(GroupVersion("", ""))
    else if CountChar(gv, '/') == 0 then Some(GroupVersion("", gv))
    else if CountChar(gv, '/') == 1 then
      var i := IndexOf(gv, '/');
      Some(GroupVersion(gv[..i], gv[i + 1..]))
    else None
  }

  /** schema.GroupVersion.String. */
  function FormatGroupVersion(gv: GroupVersion): string
  {
    if gv.group == "" then gv.version else gv.group + "/" + gv.version
  }

  lemma CountCharConcat(a: string, b: string, c: char)
    ensures CountChar(a + b, c) == CountChar(a, c) + CountChar(b, c)
  {
    if a == [] {
      assert a + b == b;
    } else {
      assert (a + b)[0] == a[0];
      assert (a + b)[1..] == a[1..] + b;
      CountCharConcat(a[1..], b, c);
    }
  }

  /** Parsing the printed form of a group-version whose parts hold no '/'
      gives it back. */
  lemma ParseFormatRoundTrip(gv: GroupVersion)
    requires '/' !in gv.group && '/' !in gv.version
    ensures ParseGroupVersion(FormatGroupVersion(gv)) == Some(gv)
  {
    if gv.group != "" {
      var s := gv.group + "/" + gv.version;
      CountCharConcat(gv.group, "/", '/');
      CountCharConcat(gv.group + "/", gv.version, '/');
      assert CountChar("/", '/') == 1;
      var i := IndexOf(s, '/');
      assert forall k | 0 <= k < |gv.group| :: s[k] == gv.group[k];
      assert s[|gv.group|] == '/';
      assert i == |gv.group|;
      assert s[..i] == gv.group && s[i + 1..] == gv.version;
    }
  }

  // ----- what discovery asks to watch -----

  /** A discovered resource is watched unless its group-version does not
      parse, its group is excluded, its resource name is excluded, its group
      is not allowed, or its verbs do not support an informer. */
  predicate Admitted(cfg: Config, l: APIResourceList, res: ResourceInfo)
  {
    && ParseGroupVersion(l.groupVersion).Some?
    && ParseGroupVersion(l.groupVersion).value.group !in cfg.excludedGroups
    && res.name !in cfg.excludedResourceNames
    && cfg.groupAllowed(ParseGroupVersion(l.groupVersion).value.group)
    && cfg.verbsSupportInformers(res.verbs)
  }

  /** The resource-level checks, once the list's group has passed its own. */
  predicate ResourceAdmitted(cfg: Config, gv: GroupVersion, res: ResourceInfo)
  {
    && res.name !in cfg.excludedResourceNames
    && cfg.groupAllowed(gv.group)
    && cfg.verbsSupportInformers(res.verbs)
  }

  /** Keys of the admitted resources among `rs` (all of group-version gv). */
  function WantedOfResources(cfg: Config, gv: GroupVersion, rs: seq<ResourceInfo>): set<GVK>
  {
    if rs == [] then {}
    else
      WantedOfResources(cfg, gv, rs[..|rs| - 1])
      + (if ResourceAdmitted(cfg, gv, rs[|rs| - 1]) then {KeyOf(gv, rs[|rs| - 1])} else {})
  }

  function WantedOfList(cfg: Config, l: APIResourceList): set<GVK>
  {
    match ParseGroupVersion(l.groupVersion)
    case None => {}
    case Some(gv) => if gv.group in cfg.excludedGroups then {} else WantedOfResources(cfg, gv, l.resources)
  }

  /** The keys discovery still wants watched. */
  function Wanted(cfg: Config, lists: seq<APIResourceList>): set<GVK>
  {
    if lists == [] then {}
    else Wanted(cfg, lists[..|lists| - 1]) + WantedOfList(cfg, lists[|lists| - 1])
  }

  /** The resources to start among `rs`: admitted ones without an informer,
      in discovery order, duplicates included. */
  function StartsOfResources(cfg: Config, informers: set<GVK>, gv: GroupVersion, rs: seq<ResourceInfo>): seq<APIResource>
  {
    if rs == [] then []
    else
      var res := rs[|rs| - 1];
      StartsOfResources(cfg, informers, gv, rs[..|rs| - 1])
      + (if ResourceAdmitted(cfg, gv, res) && KeyOf(gv, res) !in informers then [APIResource(gv, res)] else [])
  }

  function StartsOfList(cfg: Config, informers: set<GVK>, l: APIResourceList): seq<APIResource>
  {
    match ParseGroupVersion(l.groupVersion)
    case None => []
    case Some(gv) => if gv.group in cfg.excludedGroups then [] else StartsOfResources(cfg, informers, gv, l.resources)
  }

  function Starts(cfg: Config, informers: set<GVK>, lists: seq<APIResourceList>): seq<APIResource>
  {
    if lists == [] then []
    else Starts(cfg, informers, lists[..|lists| - 1]) + StartsOfList(cfg, informers, lists[|lists| - 1])
  }

  /** A key is wanted exactly when some discovered resource carrying it is
      admitted. */
  lemma {:induction false} WantedMember(cfg: Config, lists: seq<APIResourceList>, g: GVK)
    ensures g in Wanted(cfg, lists) <==>
      exists i, j | 0 <= i < |lists| && 0 <= j < |lists[i].resources| ::
        Admitted(cfg, lists[i], lists[i].resources[j])
        && g == KeyOf(ParseGroupVersion(lists[i].groupVersion).value, lists[i].resources[j])
    decreases |lists|
  {
    if lists != [] {
      var n := |lists| - 1;
      var init := lists[..n];
      WantedMember(cfg, init, g);
      assert forall i | 0 <= i < n :: init[i] == lists[i];
      var l := lists[n];
      match ParseGroupVersion(l.groupVersion)
      case None =>
      case Some(gv) =>
        if gv.group !in cfg.excludedGroups {
          WantedOfResourcesMember(cfg, gv, l.resources, g);
          if g in WantedOfList(cfg, l) {
            var j :| 0 <= j < |l.resources| && ResourceAdmitted(cfg, gv, l.resources[j]) && g == KeyOf(gv, l.resources[j]);
            assert Admitted(cfg, lists[n], lists[n].resources[j]);
          }
        }
    }
  }

  lemma {:induction false} WantedOfResourcesMember(cfg: Config, gv: GroupVersion, rs: seq<ResourceInfo>, g: GVK)
    ensures g in WantedOfResources(cfg, gv, rs) <==>
      exists j | 0 <= j < |rs| :: ResourceAdmitted(cfg, gv, rs[j]) && g == KeyOf(gv, rs[j])
    decreases |rs|
  {
    if rs != [] {
      var n := |rs| - 1;
      WantedOfResourcesMember(cfg, gv, rs[..n], g);
      assert forall j | 0 <= j < n :: rs[..n][j] == rs[j];
    }
  }

  /** Every resource to start lacks an informer, was discovered in a list
      whose group-version it carries, and is admitted there; together they
      carry exactly the wanted keys that lack an informer. */
  lemma {:induction false} StartsAreNewAndWanted(cfg: Config, informers: set<GVK>, lists: seq<APIResourceList>)
    ensures forall a | a in Starts(cfg, informers, lists) ::
      && Key(a) !in informers && Key(a) in Wanted(cfg, lists)
      && ResourceAdmitted(cfg, a.groupVersion, a.resource)
      && exists l | l in lists ::
           ParseGroupVersion(l.groupVersion) == Some(a.groupVersion) && a.resource in l.resources
           && Admitted(cfg, l, a.resource)
    ensures forall g | g in Wanted(cfg, lists) && g !in informers ::
      exists a | a in Starts(cfg, informers, lists) :: Key(a) == g
    decreases |lists|
  {
    if lists != [] {
      var n := |lists| - 1;
      StartsAreNewAndWanted(cfg, informers, lists[..n]);
      var l := lists[n];
      match ParseGroupVersion(l.groupVersion)
      case None =>
      case Some(gv) =>
        if gv.group !in cfg.excludedGroups {
          StartsOfResourcesNewAndWanted(cfg, informers, gv, l.resources);
        }
    }
  }

  lemma {:induction false} StartsOfResourcesNewAndWanted(cfg: Config, informers: set<GVK>, gv: GroupVersion, rs: seq<ResourceInfo>)
    ensures forall a | a in StartsOfResources(cfg, informers, gv, rs) ::
      && Key(a) !in informers && Key(a) in WantedOfResources(cfg, gv, rs) && a.groupVersion == gv
      && a.resource in rs && ResourceAdmitted(cfg, a.groupVersion, a.resource)
    ensures forall g | g in WantedOfResources(cfg, gv, rs) && g !in informers ::
      exists a | a in StartsOfResources(cfg, informers, gv, rs) :: Key(a) == g
    decreases |rs|
  {
    if rs != [] {
      StartsOfResourcesNewAndWanted(cfg, informers, gv, rs[..|rs| - 1]);
    }
  }

  /** The same kind discovered twice (say under two lists with one
      group-version) is started twice: the informer table is only read while
      the snapshot is scanned. */
  lemma DuplicateDiscoveryStartsTwice(cfg: Config, l: APIResourceList, res: ResourceInfo)
    requires l.resources == [res] && Admitted(cfg, l, res)
    ensures |Starts(cfg, {}, [l, l])| == 2
  {
    var gv := ParseGroupVersion(l.groupVersion).value;
    assert ResourceAdmitted(cfg, gv, res);
    assert l.resources[..0] == [];
    assert StartsOfResources(cfg, {}, gv, l.resources) == [APIResource(gv, res)];
    assert StartsOfList(cfg, {}, l) == [APIResource(gv, res)];
    assert [l, l][..1] == [l];
    assert [l][..0] == [];
    assert Starts(cfg, {}, [l]) == [APIResource(gv, res)];
  }

  // ----- checkAPIResourcesForUpdates -----

  /** What a discovery error does: only the incomplete-list one is tolerated. */
  predicate IsPrefix(p: string, s: string)
  {
    |p| <= |s| && s[..|p|] == p
  }

  predicate Contains(s: string, part: string)
    decreases |s|
  {
    IsPrefix(part, s) || (s != [] && Contains(s[1..], part))
  }

  predicate Fatal(cfg: Config, d: Discovery)
  {
    d.err.Some? && !Contains(d.err.value, cfg.incompleteListMarker)
  }

  datatype Plan = Plan(toStart: seq<APIResource>, toStop: seq<GVK>)

  predicate Distinct<T(==)>(s: seq<T>)
  {
    forall a, b | 0 <= a < b < |s| :: s[a] != s[b]
  }

  /** The scan of one resource list whose group passed: what it adds to the
      start list, and which informer keys it shows are still wanted. */
  method ScanResources(cfg: Config, informers: set<GVK>, gv: GroupVersion, rs: seq<ResourceInfo>,
                       toStart0: seq<APIResource>, tracking0: set<GVK>)
    returns (toStart: seq<APIResource>, tracking: set<GVK>)
    ensures toStart == toStart0 + StartsOfResources(cfg, informers, gv, rs)
    ensures tracking == tracking0 - WantedOfResources(cfg, gv, rs)
  {
    toStart, tracking := toStart0, tracking0;
    var j := 0;
    while j < |rs|
      invariant 0 <= j <= |rs|
      invariant toStart == toStart0 + StartsOfResources(cfg, informers, gv, rs[..j])
      invariant tracking == tracking0 - WantedOfResources(cfg, gv, rs[..j])
    {
      var res := rs[j];
      assert rs[..j + 1][..j] == rs[..j];
      if res.name !in cfg.excludedResourceNames && cfg.groupAllowed(gv.group) {
        if cfg.verbsSupportInformers(res.verbs) {
          var key := KeyOf(gv, res);
          if key !in informers {
            toStart := toStart + [APIResource(gv, res)];
          }
          tracking := tracking - {key};
        }
      }
      j := j + 1;
    }
    assert rs[..j] == rs;
  }

  /** The scan of the whole snapshot, list by list. */
  method ScanDiscovery(cfg: Config, informers: set<GVK>, lists: seq<APIResourceList>)
    returns (toStart: seq<APIResource>, tracking: set<GVK>)
    ensures toStart == Starts(cfg, informers, lists)
    ensures tracking == informers - Wanted(cfg, lists)
  {
    toStart := [];
    tracking := informers;
    var i := 0;
    while i < |lists|
      invariant 0 <= i <= |lists|
      invariant toStart == Starts(cfg, informers, lists[..i])
      invariant tracking == informers - Wanted(cfg, lists[..i])
    {
      var l := lists[i];
      assert lists[..i + 1][..i] == lists[..i];
      match ParseGroupVersion(l.groupVersion) {
        case None =>
        case Some(gv) =>
          if gv.group !in cfg.excludedGroups {
            toStart, tracking := ScanResources(cfg, informers, gv, l.resources, toStart, tracking);
          }
      }
      i := i + 1;
    }
    assert lists[..i] == lists;
  }

  /** The keys of a Go set, listed once each in an arbitrary order. */
  method Enumerate(keys: set<GVK>) returns (r: seq<GVK>)
    ensures Distinct(r)
    ensures forall g :: g in r <==> g in keys
  {
    r := [];
    var rest := keys;
    while rest != {}
      invariant rest <= keys
      invariant forall g :: g in r <==> g in keys && g !in rest
      invariant Distinct(r)
      decreases |rest|
    {
      var k :| k in rest;
      r := r + [k];
      rest := rest - {k};
    }
  }

  /** checkAPIResourcesForUpdates: which discovered resources to start and
      which running informers to stop. The stop list comes from a Go set, in
      no particular order. */
  method CheckAPIResourcesForUpdates(informers: set<GVK>, d: Discovery, cfg: Config)
    returns (r: Result<Plan, string>)
    ensures r.Failure? <==> Fatal(cfg, d)
    ensures r.Failure? ==> r.error == d.err.value
    ensures r.Success? ==> r.value.toStart == Starts(cfg, informers, d.lists)
    ensures r.Success? ==> Distinct(r.value.toStop)
    ensures r.Success? ==> forall g :: g in r.value.toStop <==> g in informers && g !in Wanted(cfg, d.lists)
  {
    if Fatal(cfg, d) {
      return Failure(d.err.value);
    }
    var toStart, tracking := ScanDiscovery(cfg, informers, d.lists);
    var toStop := Enumerate(tracking);
    return Success(Plan(toStart, toStop));
  }

  // ----- the informer tables -----

  datatype Informer = Informer(gvr: GVR)
  /** A lister indexes the informer's cache under the resource's group and name. */
  datatype Lister = Lister(group: string, resource: string)
  /** A stop channel, told apart by when it was made; it also records the
      key it was made for. */
  datatype Stopper = Stopper(id: nat, owner: GVK)

  /** The controller's bookkeeping: informers, listers, stop channels and
      the GVK-to-GVR mapper, all keyed by GVK; the channels closed so far;
      and the number of channels made so far. */
  datatype Tables = Tables(
    informers: map<GVK, Informer>,
    listers: map<GVK, Lister>,
    stoppers: map<GVK, Stopper>,
    gvkToGvr: map<GVK, GVR>,
    closed: set<Stopper>,
    made: nat)

  /** The four tables describe the same informers, and each has its own
      open stop channel (its own, since each records its key). */
  predicate Consistent(t: Tables)
  {
    && t.listers.Keys == t.informers.Keys
    && t.stoppers.Keys == t.informers.Keys
    && t.gvkToGvr.Keys == t.informers.Keys
    && (forall g | g in t.informers ::
          && t.gvkToGvr[g] == t.informers[g].gvr
          && t.listers[g] == Lister(t.informers[g].gvr.group, t.informers[g].gvr.resource))
    && (forall g | g in t.stoppers ::
          t.stoppers[g].owner == g && t.stoppers[g] !in t.closed && t.stoppers[g].id < t.made)
    && (forall c | c in t.closed :: c.id < t.made)
  }

  /** Closing a channel that is nil or already closed panics. */
  datatype StopError = NilStopper(gvk: GVK) | AlreadyClosed(gvk: GVK)

  /** One iteration of the stop loop: close the key's channel, then drop the
      key from the informers, listers, stoppers and the mapper. */
  function StopOne(t: Tables, gvk: GVK): (r: Result<Tables, StopError>)
  {
    if gvk !in t.stoppers then Failure(NilStopper(gvk))
    else if t.stoppers[gvk] in t.closed then Failure(AlreadyClosed(gvk))
    else
      Success(Tables(
        t.informers - {gvk},
        t.listers - {gvk},
        t.stoppers - {gvk},
        t.gvkToGvr - {gvk},
        t.closed + {t.stoppers[gvk]},
        t.made))
  }

  /** Stopping one running key of consistent tables succeeds, keeps them
      consistent, and closes exactly that key's channel. */
  lemma StopOneEffect(t: Tables, gvk: GVK)
    requires Consistent(t) && gvk in t.informers
    ensures StopOne(t, gvk).Success?
    ensures Consistent(StopOne(t, gvk).value)
    ensures StopOne(t, gvk).value.informers.Keys == t.informers.Keys - {gvk}
    ensures StopOne(t, gvk).value.closed == t.closed + {t.stoppers[gvk]}
  {
  }

  /** The stop loop of handleCRD. */
  function StopInformers(t: Tables, toStop: seq<GVK>): (r: Result<Tables, StopError>)
    decreases |toStop|
  {
    if toStop == [] then Success(t)
    else
      match StopOne(t, toStop[0])
      case Failure(e) => Failure(e)
      case Success(next) => StopInformers(next, toStop[1..])
  }

  /** The tail of a list of distinct running keys is again one. */
  lemma StopTail(t: Tables, toStop: seq<GVK>)
    requires Consistent(t) && toStop != []
    requires Distinct(toStop) && forall g | g in toStop :: g in t.informers
    ensures StopOne(t, toStop[0]).Success?
    ensures Distinct(toStop[1..])
    ensures forall g | g in toStop[1..] :: g in StopOne(t, toStop[0]).value.informers
  {
    StopOneEffect(t, toStop[0]);
    forall a, b | 0 <= a < b < |toStop[1..]| ensures toStop[1..][a] != toStop[1..][b] {
      assert toStop[1..][a] == toStop[a + 1] && toStop[1..][b] == toStop[b + 1];
    }
    forall g | g in toStop[1..] ensures g in StopOne(t, toStop[0]).value.informers {
      var k :| 0 <= k < |toStop[1..]| && toStop[1..][k] == g;
      assert toStop[k + 1] == g;
    }
  }

  /** From consistent tables, stopping distinct running keys never panics,
      keeps the tables consistent and removes exactly those keys. */
  lemma {:induction false} StopInformersEffect(t: Tables, toStop: seq<GVK>)
    requires Consistent(t)
    requires Distinct(toStop)
    requires forall g | g in toStop :: g in t.informers
    ensures StopInformers(t, toStop).Success?
    ensures Consistent(StopInformers(t, toStop).value)
    ensures forall g :: g in StopInformers(t, toStop).value.informers <==> g in t.informers && g !in toStop
    decreases |toStop|
  {
    if toStop != [] {
      StopTail(t, toStop);
      var next := StopOne(t, toStop[0]).value;
      StopInformersEffect(next, toStop[1..]);
      assert forall g :: g in toStop <==> g == toStop[0] || g in toStop[1..];
    }
  }

  /** Stopping closes exactly the stopped keys' channels, and every informer
      that survives keeps its entries. */
  lemma {:induction false} StopInformersFrame(t: Tables, toStop: seq<GVK>)
    requires Consistent(t)
    requires Distinct(toStop)
    requires forall g | g in toStop :: g in t.informers
    ensures StopInformers(t, toStop).Success?
    ensures var t' := StopInformers(t, toStop).value;
      && (forall c :: c in t'.closed <==> c in t.closed || (c.owner in toStop && c == t.stoppers[c.owner]))
      && (forall g | g in t'.informers :: g in t.informers && t'.informers[g] == t.informers[g])
      && (forall g | g in t'.stoppers :: g in t.stoppers && t'.stoppers[g] == t.stoppers[g])
    decreases |toStop|
  {
    if toStop != [] {
      StopTail(t, toStop);
      var next := StopOne(t, toStop[0]).value;
      StopInformersFrame(next, toStop[1..]);
      assert forall g :: g in toStop <==> g == toStop[0] || g in toStop[1..];
    }
  }

  /** One registration of startInformersForNewAPIResources: an informer, a
      mapper entry, a lister and a fresh stop channel, all under the GVK. */
  function StartOne(t: Tables, a: APIResource): (r: Tables)
  {
    var gvr := ResourceOf(a);
    Tables(
      t.informers[Key(a) := Informer(gvr)],
      t.listers[Key(a) := Lister(gvr.group, gvr.resource)],
      t.stoppers[Key(a) := Stopper(t.made, Key(a))],
      t.gvkToGvr[Key(a) := gvr],
      t.closed,
      t.made + 1)
  }

  /** A registration keeps consistent tables consistent: the new channel is
      younger than every channel made before. */
  lemma StartOneConsistent(t: Tables, a: APIResource)
    requires Consistent(t)
    ensures Consistent(StartOne(t, a))
  {
  }

  /** The registrations for each resource in turn; a later duplicate
      overwrites an earlier one. */
  function StartInformers(t: Tables, toStart: seq<APIResource>): (r: Tables)
    decreases |toStart|
  {
    if toStart == [] then t else StartInformers(StartOne(t, toStart[0]), toStart[1..])
  }

  /** Starting keeps the tables consistent, adds exactly the started keys
      and closes nothing. */
  lemma StartInformersEffect(t: Tables, toStart: seq<APIResource>)
    requires Consistent(t)
    ensures Consistent(StartInformers(t, toStart))
    ensures StartInformers(t, toStart).informers.Keys == t.informers.Keys + (set a | a in toStart :: Key(a))
    ensures StartInformers(t, toStart).closed == t.closed
  {
    StartInformersConsistent(t, toStart);
    StartInformersKeys(t, toStart);
  }

  lemma {:induction false} StartInformersConsistent(t: Tables, toStart: seq<APIResource>)
    requires Consistent(t)
    ensures Consistent(StartInformers(t, toStart))
    ensures StartInformers(t, toStart).closed == t.closed
    decreases |toStart|
  {
    if toStart != [] {
      StartOneConsistent(t, toStart[0]);
      StartInformersConsistent(StartOne(t, toStart[0]), toStart[1..]);
    }
  }

  lemma {:induction false} StartInformersKeys(t: Tables, toStart: seq<APIResource>)
    ensures StartInformers(t, toStart).informers.Keys == t.informers.Keys + (set a | a in toStart :: Key(a))
    decreases |toStart|
  {
    if toStart != [] {
      StartInformersKeys(StartOne(t, toStart[0]), toStart[1..]);
      assert (set b | b in toStart :: Key(b)) == {Key(toStart[0])} + (set b | b in toStart[1..] :: Key(b));
    }
  }

  /** Informers whose key is not started keep their entries and channels. */
  lemma {:induction false} StartInformersFrame(t: Tables, toStart: seq<APIResource>, g: GVK)
    requires g in t.informers && g in t.stoppers
    requires forall a | a in toStart :: Key(a) != g
    ensures g in StartInformers(t, toStart).informers && g in StartInformers(t, toStart).stoppers
    ensures StartInformers(t, toStart).informers[g] == t.informers[g]
    ensures StartInformers(t, toStart).stoppers[g] == t.stoppers[g]
    decreases |toStart|
  {
    if toStart != [] {
      StartInformersFrame(StartOne(t, toStart[0]), toStart[1..], g);
    }
  }

  /** The mapper sends a started key to the resource of its last occurrence. */
  lemma {:induction false} StartInformersLastWins(t: Tables, toStart: seq<APIResource>, i: nat)
    requires i < |toStart|
    requires forall j | i < j < |toStart| :: Key(toStart[j]) != Key(toStart[i])
    ensures Key(toStart[i]) in StartInformers(t, toStart).gvkToGvr
    ensures StartInformers(t, toStart).gvkToGvr[Key(toStart[i])] == ResourceOf(toStart[i])
    decreases |toStart|
  {
    if i == 0 {
      var next := StartOne(t, toStart[0]);
      forall b | b in toStart[1..] ensures Key(b) != Key(toStart[0]) {
        var k :| 0 <= k < |toStart[1..]| && toStart[1..][k] == b;
        assert toStart[k + 1] == b;
      }
      StartInformersMapperFrame(next, toStart[1..], Key(toStart[0]));
    } else {
      assert toStart[1..][i - 1] == toStart[i];
      forall j | i - 1 < j < |toStart[1..]| ensures Key(toStart[1..][j]) != Key(toStart[1..][i - 1]) {
        assert toStart[1..][j] == toStart[j + 1];
      }
      StartInformersLastWins(StartOne(t, toStart[0]), toStart[1..], i - 1);
    }
  }

  lemma {:induction false} StartInformersMapperFrame(t: Tables, toStart: seq<APIResource>, g: GVK)
    requires g in t.gvkToGvr
    requires forall a | a in toStart :: Key(a) != g
    ensures g in StartInformers(t, toStart).gvkToGvr
    ensures StartInformers(t, toStart).gvkToGvr[g] == t.gvkToGvr[g]
    decreases |toStart|
  {
    if toStart != [] {
      StartInformersMapperFrame(StartOne(t, toStart[0]), toStart[1..], g);
    }
  }

  /** Why one handleCRD round ended early. */
  datatype HandleError = DiscoveryFailed(message: string) | StopPanicked(cause: StopError)

  /** handleCRD: plan from the informers' keys and discovery, then stop what
      is no longer wanted. The resources to start are handed to a separate
      goroutine in the source; here they are returned. On a discovery error
      nothing is stopped and the tables are not touched. */
  method HandleCRD(t: Tables, d: Discovery, cfg: Config)
    returns (r: Result<(Tables, seq<APIResource>), HandleError>)
    ensures Fatal(cfg, d) <==> r.Failure? && r.error.DiscoveryFailed?
    ensures Consistent(t) ==> (r.Success? <==> !Fatal(cfg, d))
    ensures r.Success? && Consistent(t) ==> Consistent(r.value.0)
    ensures r.Success? && Consistent(t) ==>
      forall g :: g in r.value.0.informers <==> g in t.informers && g in Wanted(cfg, d.lists)
    ensures r.Success? && Consistent(t) ==>
      forall g | g in r.value.0.informers ::
        r.value.0.informers[g] == t.informers[g] && r.value.0.stoppers[g] == t.stoppers[g]
    ensures r.Success? ==> r.value.1 == Starts(cfg, t.informers.Keys, d.lists)
  {
    var plan := CheckAPIResourcesForUpdates(t.informers.Keys, d, cfg);
    if plan.Failure? {
      return Failure(DiscoveryFailed(plan.error));
    }
    if Consistent(t) {
      StopInformersEffect(t, plan.value.toStop);
      StopInformersFrame(t, plan.value.toStop);
    }
    var stopped := StopInformers(t, plan.value.toStop);
    if stopped.Failure? {
      return Failure(StopPanicked(stopped.error));
    }
    return Success((stopped.value, plan.value.toStart));
  }

  /** One full reconciliation round from consistent tables: when discovery
      did not fail, the running informers afterwards are exactly the wanted
      keys, whatever ran before, and those that were already running and are
      still wanted are left alone; when discovery failed, nothing changed. */
  method Reconcile(t: Tables, d: Discovery, cfg: Config) returns (t': Tables)
    requires Consistent(t)
    ensures Consistent(t')
    ensures Fatal(cfg, d) ==> t' == t
    ensures !Fatal(cfg, d) ==> forall g :: g in t'.informers <==> g in Wanted(cfg, d.lists)
    ensures forall g | g in t.informers && g in Wanted(cfg, d.lists) ::
      g in t'.informers && t'.informers[g] == t.informers[g] && t'.stoppers[g] == t.stoppers[g]
  {
    var r := HandleCRD(t, d, cfg);
    if r.Failure? {
      return t;
    }
    var (stopped, toStart) := r.value;
    StartInformersEffect(stopped, toStart);
    StartsAreNewAndWanted(cfg, t.informers.Keys, d.lists);
    t' := StartInformers(stopped, toStart);
    forall g | g in Wanted(cfg, d.lists) && g !in t.informers
      ensures g in t'.informers
    {
      var a :| a in toStart && Key(a) == g;
    }
    forall g | g in t.informers && g in Wanted(cfg, d.lists)
      ensures g in t'.informers && t'.informers[g] == t.informers[g] && t'.stoppers[g] == t.stoppers[g]
    {
      StartInformersFrame(stopped, toStart, g);
    }
  }
}
