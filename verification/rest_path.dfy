/** The request path GetWithManagedFields of pkg/util/dynamic-detailed.go
    builds for reading one object (or a collection, or a subresource) of a
    group-version-resource, and the reading of such a path back into its
    parts. The request itself is not part of this model. */
module RestPath {
  import opened Outcomes
  import opened Schema

  /** What a GET addresses: the resource, an optional namespace and name
      ("" when absent) and trailing subresource segments. */
  datatype Target = Target(gvr: GVR, namespace: string, name: string, subresources: seq<string>)

  /** Number of segments before the version: "api", or "apis" and the group. */
  function PrefixLength(t: Target): nat
  {
    if t.gvr.group == "" then 1 else 2
  }

  /** Position of the resource segment. */
  function ResourceIndex(t: Target): nat
  {
    PrefixLength(t) + 1 + (if t.namespace != "" then 2 else 0)
  }

  /** The URL segments of GetWithManagedFields: the core group lives under
      "api" and every other group under "apis/<group>"; then the version;
      "namespaces/<namespace>" only for a namespace; the resource always; the
      name only when there is one; the subresources last, in order. */
  function UrlSegments(t: Target): (url: seq<string>)
    ensures |url| == PrefixLength(t) + 1 + (if t.namespace != "" then 2 else 0) + 1
                     + (if t.name != "" then 1 else 0) + |t.subresources|
    ensures url[0] == (if t.gvr.group == "" then "api" else "apis")
    ensures t.gvr.group != "" ==> url[1] == t.gvr.group
    ensures url[PrefixLength(t)] == t.gvr.version
    ensures t.namespace != "" ==> url[PrefixLength(t) + 1] == "namespaces" && url[PrefixLength(t) + 2] == t.namespace
    ensures url[ResourceIndex(t)] == t.gvr.resource
    ensures t.name != "" ==> url[ResourceIndex(t) + 1] == t.name
    ensures url[|url| - |t.subresources|..] == t.subresources
  {
    var prefix := if t.gvr.group == "" then ["api"] else ["apis", t.gvr.group];
    prefix + VersionSegments(t)
  }

  /** The segments from the version on: the version, the namespace when
      there is one, then the segments from the resource on. */
  function VersionSegments(t: Target): seq<string>
  {
    [t.gvr.version] + (if t.namespace != "" then ["namespaces", t.namespace] else []) + ResourceSegments(t)
  }

  /** The segments from the resource on: the resource, the name when there
      is one, then the subresources. */
  function ResourceSegments(t: Target): seq<string>
  {
    [t.gvr.resource] + (if t.name != "" then [t.name] else []) + t.subresources
  }

  /** Targets whose path reads back as themselves: a subresource needs a
      name in front of it, and the cluster-scoped "namespaces" resource with
      subresources reads as a namespaced request. */
  predicate Unambiguous(t: Target)
  {
    && (t.name != "" || t.subresources == [])
    && (t.namespace == "" && t.gvr.resource == "namespaces" ==> t.subresources == [])
  }

  /** Reads the segments from the resource on: resource, then an optional
      non-empty name, then subresources. */
  function ParseFromResource(group: string, version: string, namespace: string, rest: seq<string>): Option<Target>
  {
    if rest == [] then None
    else
      var gvr := GVR(group, version, rest[0]);
      if |rest| == 1 then Some(Target(gvr, namespace, "", []))
      else if rest[1] == "" then None
      else Some(Target(gvr, namespace, rest[1], rest[2..]))
  }

  /** Reads the segments from the version on. A "namespaces" segment with
      at least a namespace and a resource behind it opens a namespace. */
  function ParseFromVersion(group: string, rest: seq<string>): Option<Target>
  {
    if rest == [] then None
    else
      var after := rest[1..];
      if |after| >= 3 && after[0] == "namespaces" && after[1] != "" then
        ParseFromResource(group, rest[0], after[1], after[2..])
      else
        ParseFromResource(group, rest[0], "", after)
  }

  /** The target a path addresses, or None for a path UrlSegments does not
      produce. */
  function ParseSegments(url: seq<string>): (r: Option<Target>)
    ensures r.Some? ==> Unambiguous(r.value)
  {
    if url == [] then None
    else if url[0] == "api" then ParseFromVersion("", url[1..])
    else if url[0] == "apis" && |url| >= 2 && url[1] != "" then ParseFromVersion(url[1], url[2..])
    else None
  }

  /** Every unambiguous target reads back from its own path. */
  lemma ParseUrlSegments(t: Target)
    requires Unambiguous(t)
    ensures ParseSegments(UrlSegments(t)) == Some(t)
  {
    var url := UrlSegments(t);
    var afterPrefix := url[PrefixLength(t)..];
    assert afterPrefix[1..] == url[PrefixLength(t) + 1..];
    var fromResource := url[ResourceIndex(t)..];
    assert fromResource[1..] == url[ResourceIndex(t) + 1..];
    if t.name != "" {
      assert fromResource[2..] == t.subresources;
    }
    if t.namespace != "" {
      assert afterPrefix[1..][2..] == fromResource;
    } else {
      assert afterPrefix[1..] == fromResource;
    }
  }

  lemma ResourceSegmentsOfParse(group: string, version: string, namespace: string, rest: seq<string>)
    requires ParseFromResource(group, version, namespace, rest).Some?
    ensures var t := ParseFromResource(group, version, namespace, rest).value;
            ResourceSegments(t) == rest && t.gvr.group == group && t.gvr.version == version && t.namespace == namespace
  {
    if |rest| > 1 {
      assert rest == [rest[0], rest[1]] + rest[2..];
    }
  }

  lemma VersionSegmentsOfParse(group: string, rest: seq<string>)
    requires ParseFromVersion(group, rest).Some?
    ensures var t := ParseFromVersion(group, rest).value;
            VersionSegments(t) == rest && t.gvr.group == group
  {
    var after := rest[1..];
    assert rest == [rest[0]] + after;
    if |after| >= 3 && after[0] == "namespaces" && after[1] != "" {
      ResourceSegmentsOfParse(group, rest[0], after[1], after[2..]);
      assert after == [after[0], after[1]] + after[2..];
    } else {
      ResourceSegmentsOfParse(group, rest[0], "", after);
    }
  }

  /** Every path that reads back is the path of what it reads as. */
  lemma UrlSegmentsOfParse(url: seq<string>)
    requires ParseSegments(url).Some?
    ensures UrlSegments(ParseSegments(url).value) == url
  {
    var t := ParseSegments(url).value;
    if url[0] == "api" {
      VersionSegmentsOfParse("", url[1..]);
      assert url == [url[0]] + url[1..];
    } else {
      VersionSegmentsOfParse(url[1], url[2..]);
      assert url == [url[0], url[1]] + url[2..];
    }
  }

  /** Hence two unambiguous targets never share a path. */
  lemma UrlSegmentsInjective(t1: Target, t2: Target)
    requires Unambiguous(t1) && Unambiguous(t2)
    requires UrlSegments(t1) == UrlSegments(t2)
    ensures t1 == t2
  {
    ParseUrlSegments(t1);
    ParseUrlSegments(t2);
  }

  /** Without a name, a subresource is read back as the name. */
  lemma SubresourceWithoutName()
    ensures var t := Target(GVR("apps", "v1", "deployments"), "ns", "", ["status"]);
            ParseSegments(UrlSegments(t)) == Some(Target(GVR("apps", "v1", "deployments"), "ns", "status", []))
  {
    var t := Target(GVR("apps", "v1", "deployments"), "ns", "", ["status"]);
    assert UrlSegments(t) == ["apis", "apps", "v1", "namespaces", "ns", "deployments", "status"];
  }
}
