/** The generic document of client-go's unstructured package, and the two
    nested-field helpers the trimming code relies on (NestedMap and
    SetNestedMap). Documents are values here: the deep copies NestedMap and
    SetNestedMap make are therefore implicit, and only what is written back
    into a document changes it. */
module Unstructured {
  import opened Outcomes

  /** A decoded JSON value: a map[string]any, a []any, or anything else
      (string, number, boolean, null), which the code never looks into. */
  datatype Value =
    | Object(fields: map<string, Value>)
    | List(items: seq<Value>)
    | Scalar(text: string)

  type Object = map<string, Value>

  /** unstructured.NestedFieldNoCopy: the value reached by following `path`
      through maps; absent when a key is missing or a step is not a map. */
  function NestedField(obj: Object, path: seq<string>): (r: Option<Value>)
    decreases |path|
  {
    if path == [] then Some(Object(obj))
    else if path[0] !in obj then None
    else if |path| == 1 then Some(obj[path[0]])
    else if obj[path[0]].Object? then NestedField(obj[path[0]].fields, path[1..])
    else None
  }

  /** unstructured.NestedMap: found only when the value at `path` is a map. */
  function NestedMap(obj: Object, path: seq<string>): (r: Option<Object>)
    ensures r.Some? <==> NestedField(obj, path).Some? && NestedField(obj, path).value.Object?
    ensures r.Some? ==> NestedField(obj, path) == Some(Object(r.value))
  {
    match NestedField(obj, path)
    case Some(Object(m)) => Some(m)
    case _ => None
  }

  /** unstructured.SetNestedField: store `v` at `path`, creating missing maps
      on the way; None (the returned error, with the document untouched) when
      an existing step is not a map. */
  function SetNestedField(obj: Object, path: seq<string>, v: Value): (r: Option<Object>)
    requires path != []
    decreases |path|
  {
    if |path| == 1 then Some(obj[path[0] := v])
    else
      var child := if path[0] in obj then obj[path[0]] else Object(map[]);
      if !child.Object? then None
      else
        match SetNestedField(child.fields, path[1..], v)
        case Some(inner) => Some(obj[path[0] := Object(inner)])
        case None => None
  }

  /** Two key paths that part ways at some position. */
  predicate Diverge(p: seq<string>, q: seq<string>)
    decreases |p|
  {
    p != [] && q != [] && (p[0] != q[0] || Diverge(p[1..], q[1..]))
  }

  /** After a successful store the value is found at `path`. */
  lemma {:induction false} SetNestedFieldStores(obj: Object, path: seq<string>, v: Value)
    requires path != []
    requires SetNestedField(obj, path, v).Some?
    ensures NestedField(SetNestedField(obj, path, v).value, path) == Some(v)
    decreases |path|
  {
    if |path| > 1 {
      var child := if path[0] in obj then obj[path[0]] else Object(map[]);
      SetNestedFieldStores(child.fields, path[1..], v);
    }
  }

  /** A store changes nothing reachable along a path that parts from `path`. */
  lemma {:induction false} SetNestedFieldFrame(obj: Object, path: seq<string>, v: Value, q: seq<string>)
    requires path != []
    requires SetNestedField(obj, path, v).Some?
    requires Diverge(path, q)
    ensures NestedField(SetNestedField(obj, path, v).value, q) == NestedField(obj, q)
    decreases |path|
  {
    var r := SetNestedField(obj, path, v).value;
    if path[0] != q[0] {
      assert q[0] in r <==> q[0] in obj;
      if q[0] in obj {
        assert r[q[0]] == obj[q[0]];
      }
    } else {
      var child := if path[0] in obj then obj[path[0]] else Object(map[]);
      SetNestedFieldFrame(child.fields, path[1..], v, q[1..]);
      if path[0] !in obj && |q| > 1 {
        // the created map is empty apart from what the store put there
        assert NestedField(child.fields, q[1..]).None? by {
          assert q[1..] != [];
          assert q[1..][0] !in child.fields;
        }
      }
    }
  }

  /** A store fails exactly when some existing step of the path is not a map. */
  lemma {:induction false} SetNestedFieldFails(obj: Object, path: seq<string>, v: Value)
    requires path != []
    ensures SetNestedField(obj, path, v).None? <==>
      exists i | 1 <= i < |path| :: NestedField(obj, path[..i]).Some? && !NestedField(obj, path[..i]).value.Object?
    decreases |path|
  {
    if |path| > 1 {
      var child := if path[0] in obj then obj[path[0]] else Object(map[]);
      assert NestedField(obj, path[..1]) == if path[0] in obj then Some(obj[path[0]]) else None;
      if child.Object? {
        SetNestedFieldFails(child.fields, path[1..], v);
        forall i | 2 <= i < |path|
          ensures NestedField(obj, path[..i]) == if path[0] in obj then NestedField(child.fields, path[1..][..i - 1]) else None
        {
          assert path[..i][0] == path[0];
          assert path[..i][1..] == path[1..][..i - 1];
        }
        if path[0] !in obj {
          forall i | 1 <= i < |path[1..]|
            ensures NestedField(child.fields, path[1..][..i]).None?
          {
            assert path[1..][..i][0] !in child.fields;
          }
        }
        if SetNestedField(obj, path, v).None? {
          var k :| 1 <= k < |path[1..]| && NestedField(child.fields, path[1..][..k]).Some? && !NestedField(child.fields, path[1..][..k]).value.Object?;
          assert NestedField(obj, path[..k + 1]) == NestedField(child.fields, path[1..][..k]);
        }
        if exists i | 1 <= i < |path| :: NestedField(obj, path[..i]).Some? && !NestedField(obj, path[..i]).value.Object? {
          var i :| 1 <= i < |path| && NestedField(obj, path[..i]).Some? && !NestedField(obj, path[..i]).value.Object?;
          assert i >= 2;
          assert NestedField(child.fields, path[1..][..i - 1]) == NestedField(obj, path[..i]);
        }
      } else {
        assert NestedField(obj, path[..1]).Some? && !NestedField(obj, path[..1]).value.Object?;
      }
    }
  }
}
