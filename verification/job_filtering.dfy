/** Ownership trimming of pkg/transport/filtering/job.go: a document is walked
    top-down, and every map key and list element at which the field-ownership
    ledger becomes Empty is removed. The Go functions mutate their arguments;
    here each one returns the argument as it stands after the call. */
module JobFiltering {
  import opened Outcomes
  import opened ManagedFields
  import opened Unstructured

  /** The ledger narrowed to one map key (a path made from a string). */
  function AtKey(fm: FieldMap, key: string): FieldMap
  {
    Advance(fm, [FieldName(key)])
  }

  /** The ledger narrowed to one list position (a path made from an int):
      elements are addressed by where they sit, not by an associative key. */
  function AtIndex(fm: FieldMap, i: int): FieldMap
  {
    Advance(fm, [Index(i)])
  }

  /** trimMapByFieldMap: the map after the call. A key stays exactly when the
      ledger narrowed to it is not Empty; what stays is trimmed further. */
  function TrimMap(m: Object, fm: FieldMap): (r: Object)
    ensures forall k :: k in r <==> k in m && !Empty(AtKey(fm, k))
    ensures forall k | k in r :: r[k].Object? == m[k].Object? && r[k].List? == m[k].List?
    ensures forall k | k in r && m[k].Scalar? :: r[k] == m[k]
    decreases Object(m), 0
  {
    map k | k in m && !Empty(AtKey(fm, k)) :: TrimKept(m[k], AtKey(fm, k))
  }

  /** The value trimMapByFieldMap leaves under a key it keeps. A map is
      trimmed in place. A list is handed to trimSliceByFieldMap, whose
      filtered result is dropped, so only that call's in-place effect on the
      list's elements remains. Anything else is left alone. */
  function TrimKept(v: Value, fm: FieldMap): (r: Value)
    ensures r.Object? == v.Object? && r.List? == v.List?
    ensures v.Scalar? ==> r == v
    ensures v.List? ==> |r.items| == |v.items|
    decreases v, 1
  {
    match v
    case Object(m) => Object(TrimMap(m, fm))
    case List(items) => List(TrimSliceInPlace(items, fm))
    case Scalar(_) => v
  }

  /** What trimSliceByFieldMap does to the slice it is given: no element is
      removed from it; an element at a position the ledger still reaches is
      trimmed in place when it is a map, or has its own elements treated the
      same way when it is a list. */
  function TrimSliceInPlace(items: seq<Value>, fm: FieldMap): (r: seq<Value>)
    ensures |r| == |items|
    ensures forall i | 0 <= i < |items| && Empty(AtIndex(fm, i)) :: r[i] == items[i]
    decreases List(items), 0
  {
    seq(|items|, i requires 0 <= i < |items| =>
      if Empty(AtIndex(fm, i)) then items[i] else TrimKept(items[i], AtIndex(fm, i)))
  }

  /** For each position of a list of length n: does the ledger still reach
      it? */
  function Reached(fm: FieldMap, n: nat): (r: seq<bool>)
    ensures |r| == n
    ensures forall i | 0 <= i < n :: r[i] == !Empty(AtIndex(fm, i))
  {
    seq(n, i requires 0 <= i < n => !Empty(AtIndex(fm, i)))
  }

  /** The positions from `from` on that are flagged, in increasing order. */
  function KeptPositions(flags: seq<bool>, from: nat): (r: seq<nat>)
    requires from <= |flags|
    ensures forall j | 0 <= j < |r| :: from <= r[j] < |flags| && flags[r[j]]
    ensures forall j, k | 0 <= j < k < |r| :: r[j] < r[k]
    ensures |r| <= |flags| - from
    decreases |flags| - from
  {
    if from == |flags| then []
    else
      var rest := KeptPositions(flags, from + 1);
      if !flags[from] then rest
      else
        assert forall j | 1 <= j < |rest| + 1 :: ([from] + rest)[j] == rest[j - 1];
        [from] + rest
  }

  /** Every flagged position from `from` on is listed. */
  lemma {:induction false} KeptPositionsComplete(flags: seq<bool>, from: nat)
    requires from <= |flags|
    ensures forall i | from <= i < |flags| && flags[i] :: i in KeptPositions(flags, from)
    decreases |flags| - from
  {
    if from < |flags| {
      KeptPositionsComplete(flags, from + 1);
      var rest := KeptPositions(flags, from + 1);
      if flags[from] {
        assert KeptPositions(flags, from) == [from] + rest;
      }
    }
  }

  /** The slice trimSliceByFieldMap returns: the elements at positions the
      ledger still reaches, in their original relative order, each trimmed. */
  function TrimSlice(items: seq<Value>, fm: FieldMap): (r: seq<Value>)
    ensures |r| <= |items|
    ensures var kept := KeptPositions(Reached(fm, |items|), 0);
      && |r| == |kept|
      && forall j | 0 <= j < |r| :: r[j] == SliceOut(items[kept[j]], AtIndex(fm, kept[j]))
    decreases List(items), 2
  {
    TrimSliceFrom(items, fm, Reached(fm, |items|), 0)
  }

  function TrimSliceFrom(items: seq<Value>, fm: FieldMap, reached: seq<bool>, from: nat): (r: seq<Value>)
    requires reached == Reached(fm, |items|)
    requires from <= |items|
    ensures var kept := KeptPositions(reached, from);
      && |r| == |kept|
      && forall j | 0 <= j < |r| :: r[j] == SliceOut(items[kept[j]], AtIndex(fm, kept[j]))
    decreases List(items), 1, |items| - from
  {
    if from == |items| then []
    else
      var fmVal := AtIndex(fm, from);
      if Empty(fmVal) then TrimSliceFrom(items, fm, reached, from + 1)
      else [SliceOut(items[from], fmVal)] + TrimSliceFrom(items, fm, reached, from + 1)
  }

  /** A kept element as it appears in the returned slice: a map trimmed in
      place, a list replaced by its own returned slice. */
  function SliceOut(v: Value, fm: FieldMap): Value
    decreases v, 3
  {
    match v
    case Object(m) => Object(TrimMap(m, fm))
    case List(xs) => List(TrimSlice(xs, fm))
    case Scalar(_) => v
  }

  /** A key survives trimming exactly when some ledger row owns a path
      strictly below that key. */
  lemma TrimMapKeepsOwned(m: Object, fm: FieldMap, k: string)
    ensures k in TrimMap(m, fm) <==> k in m && OwnsBelow(fm, [FieldName(k)])
  {
    AdvanceNonEmptyIff(fm, [FieldName(k)]);
  }

  /** A list under a kept key keeps every element: the filtered copy is
      thrown away, and positions the ledger no longer reaches are untouched. */
  lemma ListUnderKeyKeepsElements(m: Object, fm: FieldMap, k: string)
    requires k in m && m[k].List? && !Empty(AtKey(fm, k))
    ensures TrimMap(m, fm)[k].List?
    ensures |TrimMap(m, fm)[k].items| == |m[k].items|
    ensures forall i | 0 <= i < |m[k].items| && Empty(AtIndex(AtKey(fm, k), i)) ::
      TrimMap(m, fm)[k].items[i] == m[k].items[i]
  {
  }

  /** The value found in `v` along a ledger path: a field name steps into a
      map, an index into a list position; any other step finds nothing. */
  function ValueAt(v: Value, p: Path): Option<Value>
    decreases |p|
  {
    if p == [] then Some(v)
    else
      match (v, p[0])
      case (Object(m), FieldName(k)) => if k in m then ValueAt(m[k], p[1..]) else None
      case (List(items), Index(i)) => if 0 <= i < |items| then ValueAt(items[i], p[1..]) else None
      case _ => None
  }

  /** Looking along p + q is looking along q from what p finds. */
  lemma {:induction false} ValueAtConcat(v: Value, p: Path, q: Path)
    ensures ValueAt(v, p + q) ==
      if ValueAt(v, p).Some? then ValueAt(ValueAt(v, p).value, q) else None
    decreases |p|
  {
    if p == [] {
      assert p + q == q;
    } else {
      assert (p + q)[0] == p[0];
      assert (p + q)[1..] == p[1..] + q;
      match (v, p[0])
      case (Object(m), FieldName(k)) =>
        if k in m {
          ValueAtConcat(m[k], p[1..], q);
        }
      case (List(items), Index(i)) =>
        if 0 <= i < |items| {
          ValueAtConcat(items[i], p[1..], q);
        }
      case _ =>
    }
  }

  /** NestedField is ValueAt along the field path of its keys. */
  lemma {:induction false} NestedFieldIsValueAt(m: Object, q: seq<string>)
    ensures NestedField(m, q) == ValueAt(Object(m), FieldPath(q))
    decreases |q|
  {
    if q != [] {
      var fp := FieldPath(q);
      assert fp[0] == FieldName(q[0]);
      assert fp[1..] == FieldPath(q[1..]);
      if q[0] in m && |q| > 1 && m[q[0]].Object? {
        NestedFieldIsValueAt(m[q[0]].fields, q[1..]);
      }
    }
  }

  /** One step into a value under a ledger that still holds something past
      that step: the trimmed value has something there exactly when the
      original has, and it is the original's, trimmed by the narrowed ledger. */
  lemma TrimKeptStepIn(v: Value, fm: FieldMap, pe: PathElement)
    ensures !Empty(Advance(fm, [pe])) ==> ValueAt(TrimKept(v, fm), [pe]).Some? == ValueAt(v, [pe]).Some?
    ensures !Empty(Advance(fm, [pe])) && ValueAt(v, [pe]).Some? ==>
      ValueAt(TrimKept(v, fm), [pe]).value == TrimKept(ValueAt(v, [pe]).value, Advance(fm, [pe]))
  {
    assert [pe][0] == pe && [pe][1..] == [];
  }

  /** Along every path some row owns something strictly below, trimming
      neither adds nor removes: the trimmed value has something there exactly
      when the original has, and it is the original's value there, trimmed by
      the ledger advanced along the path. */
  lemma {:induction false} TrimKeptAlong(v: Value, fm: FieldMap, p: Path)
    ensures OwnsBelow(fm, p) ==> ValueAt(TrimKept(v, fm), p).Some? == ValueAt(v, p).Some?
    ensures OwnsBelow(fm, p) && ValueAt(v, p).Some? ==>
      ValueAt(TrimKept(v, fm), p).value == TrimKept(ValueAt(v, p).value, Advance(fm, p))
    decreases |p|
  {
    if p != [] && OwnsBelow(fm, p) {
      var pe, rest := p[0], p[1..];
      assert p == [pe] + rest;
      var fm1 := Step(fm, pe);
      OwnsBelowStep(fm, pe, rest);
      OwnsBelowNotEmpty(fm1, rest);
      AdvanceOne(fm, pe);
      AdvanceConcat(fm, [pe], rest);
      ValueAtConcat(v, [pe], rest);
      ValueAtConcat(TrimKept(v, fm), [pe], rest);
      TrimKeptStepIn(v, fm, pe);
      if ValueAt(v, [pe]).Some? {
        TrimKeptAlong(ValueAt(v, [pe]).value, fm1, rest);
      }
    }
  }

  /** One step into a value under a ledger that holds nothing past that
      step: a map key is gone, a list element is left as it was. */
  lemma TrimKeptStepOut(x: Value, g: FieldMap, pe: PathElement)
    ensures Empty(Advance(g, [pe])) ==>
      && (pe.FieldName? ==> ValueAt(TrimKept(x, g), [pe]).None?)
      && (pe.Index? ==> ValueAt(TrimKept(x, g), [pe]) == ValueAt(x, [pe]))
  {
    assert [pe][0] == pe && [pe][1..] == [];
  }

  /** One step past the root or a still-owned path, where no row owns
      anything below the step any more: a map key there is gone, while a
      list element there is left exactly as it was. */
  lemma TrimKeptCut(v: Value, fm: FieldMap, p: Path, pe: PathElement)
    ensures (p == [] || OwnsBelow(fm, p)) && !OwnsBelow(fm, p + [pe]) ==>
      && (pe.FieldName? ==> ValueAt(TrimKept(v, fm), p + [pe]).None?)
      && (pe.Index? ==> ValueAt(TrimKept(v, fm), p + [pe]) == ValueAt(v, p + [pe]))
  {
    if (p == [] || OwnsBelow(fm, p)) && !OwnsBelow(fm, p + [pe]) {
      var t := TrimKept(v, fm);
      var fmp := Advance(fm, p);
      ValueAtConcat(v, p, [pe]);
      ValueAtConcat(t, p, [pe]);
      AdvanceConcat(fm, p, [pe]);
      AdvanceNonEmptyIff(fm, p + [pe]);
      assert Empty(Advance(fmp, [pe]));
      if p != [] {
        TrimKeptAlong(v, fm, p);
      }
      if ValueAt(v, p).Some? {
        var x := ValueAt(v, p).value;
        assert ValueAt(t, p) == Some(TrimKept(x, fmp));
        TrimKeptStepOut(x, fmp, pe);
      }
    }
  }

  /** Along a path of map keys, a value survives trimming exactly when it was
      there and some row owns a path strictly below it, and what survives is
      the original trimmed by the ledger advanced along that path; a
      surviving scalar is unchanged. */
  lemma {:induction false} TrimMapAtKeys(m: Object, fm: FieldMap, q: seq<string>)
    requires q != []
    ensures NestedField(TrimMap(m, fm), q).Some? <==> NestedField(m, q).Some? && OwnsBelow(fm, FieldPath(q))
    ensures NestedField(TrimMap(m, fm), q).Some? ==>
      NestedField(TrimMap(m, fm), q).value == TrimKept(NestedField(m, q).value, Advance(fm, FieldPath(q)))
    ensures NestedField(TrimMap(m, fm), q).Some? && NestedField(m, q).value.Scalar? ==>
      NestedField(TrimMap(m, fm), q) == NestedField(m, q)
    decreases |q|
  {
    var k, rest := q[0], q[1..];
    var fp := FieldPath(q);
    assert fp == [FieldName(k)] + FieldPath(rest);
    var fm1 := Step(fm, FieldName(k));
    AdvanceOne(fm, FieldName(k));
    OwnsBelowStep(fm, FieldName(k), FieldPath(rest));
    AdvanceNonEmptyIff(fm, [FieldName(k)]);
    OwnsBelowNotEmpty(fm1, FieldPath(rest));
    if rest == [] {
      assert fp == [FieldName(k)];
    } else if k in m && m[k].Object? && !Empty(fm1) {
      TrimMapAtKeys(m[k].fields, fm1, rest);
      assert Advance(fm, fp) == Advance(fm1, FieldPath(rest));
    }
  }

  /** Trimming twice with the same ledger is trimming once. */
  lemma {:induction false} TrimMapIdempotent(m: Object, fm: FieldMap)
    ensures TrimMap(TrimMap(m, fm), fm) == TrimMap(m, fm)
    decreases Object(m), 0
  {
    var r := TrimMap(m, fm);
    forall k | k in r
      ensures TrimKept(r[k], AtKey(fm, k)) == r[k]
    {
      TrimKeptIdempotent(m[k], AtKey(fm, k));
    }
  }

  lemma {:induction false} TrimKeptIdempotent(v: Value, fm: FieldMap)
    ensures TrimKept(TrimKept(v, fm), fm) == TrimKept(v, fm)
    decreases v, 1
  {
    match v
    case Object(m) => TrimMapIdempotent(m, fm);
    case List(items) => TrimSliceInPlaceIdempotent(items, fm);
    case Scalar(_) =>
  }

  lemma {:induction false} TrimSliceInPlaceIdempotent(items: seq<Value>, fm: FieldMap)
    ensures TrimSliceInPlace(TrimSliceInPlace(items, fm), fm) == TrimSliceInPlace(items, fm)
    decreases List(items), 0
  {
    var once := TrimSliceInPlace(items, fm);
    forall i | 0 <= i < |items| && !Empty(AtIndex(fm, i))
      ensures TrimKept(once[i], AtIndex(fm, i)) == once[i]
    {
      TrimKeptIdempotent(items[i], AtIndex(fm, i));
    }
  }

  /** Owning only the leaf path of a key does not keep that key: the ledger
      narrowed to it holds nothing, since a set cannot hold the zero-length
      tail. */
  lemma LeafOwnedKeyIsDropped(e: ManagedFieldsEntry)
    ensures TrimMap(map["app" := Scalar("x")], [ManagedFieldMap(e, {[FieldName("app")]})]) == map[]
  {
    var fm := [ManagedFieldMap(e, {[FieldName("app")]})];
    SubtreeMember({[FieldName("app")]}, [FieldName("app")], []);
    assert WithPrefix({[FieldName("app")]}, FieldName("app")) == {} by {
      forall t | t in WithPrefix({[FieldName("app")]}, FieldName("app")) ensures false {
        SubtreeMember({[FieldName("app")]}, [FieldName("app")], t);
      }
    }
    assert AtKey(fm, "app") == [];
  }

  /** The key path spec.template.metadata.labels, the only place cleanJob
      writes to. */
  const PodLabelsPath: seq<string> := ["spec", "template", "metadata", "labels"]

  /** A field path built from map keys. */
  function FieldPath(keys: seq<string>): (p: Path)
    ensures |p| == |keys|
    ensures forall i | 0 <= i < |keys| :: p[i] == FieldName(keys[i])
  {
    seq(|keys|, i requires 0 <= i < |keys| => FieldName(keys[i]))
  }

  /** The pod labels cleanJob writes back, given the `spec` map and the
      ledger narrowed to `spec`: the labels under template.metadata trimmed
      by the ledger narrowed further, or an empty map when there are none. */
  function PodLabels(spec: Object, fmSpec: FieldMap): Object
  {
    match NestedMap(spec, ["template", "metadata", "labels"])
    case Some(labels) => TrimMap(labels, Advance(fmSpec, FieldPath(["template", "metadata", "labels"])))
    case None => map[]
  }

  /** cleanJob: build the ledger of the main resource (subresource ""), and,
      when the object has a `spec` map, replace the pod labels at
      spec.template.metadata.labels by their trimmed copy, or by an empty map
      when there are none. The selector is read and trimmed as a copy that is
      never written back, so it has no effect on the result. */
  function CleanJob(obj: Object, mfes: seq<ManagedFieldsEntry>): (r: Result<Object, FieldMapError>)
    ensures r.Failure? <==> exists i | 0 <= i < |mfes| :: mfes[i].subresource == "" && !Decodable(mfes[i])
    ensures r.Success? && NestedMap(obj, ["spec"]).None? ==> r.value == obj
  {
    var fm :- NewFieldMap("", mfes);
    match NestedMap(obj, ["spec"])
    case None => Success(obj)
    case Some(spec) =>
      match SetNestedField(obj, PodLabelsPath, Object(PodLabels(spec, Advance(fm, FieldPath(["spec"])))))
      case Some(o) => Success(o)
      case None => Success(obj)
  }

  /** cleanJob changes nothing outside spec.template.metadata.labels. */
  lemma CleanJobTouchesOnlyPodLabels(obj: Object, mfes: seq<ManagedFieldsEntry>, q: seq<string>)
    requires CleanJob(obj, mfes).Success?
    requires Diverge(PodLabelsPath, q)
    ensures NestedField(CleanJob(obj, mfes).value, q) == NestedField(obj, q)
  {
    var fm := NewFieldMap("", mfes).value;
    match NestedMap(obj, ["spec"])
    case None =>
    case Some(spec) =>
      var labels := Object(PodLabels(spec, Advance(fm, FieldPath(["spec"]))));
      if SetNestedField(obj, PodLabelsPath, labels).Some? {
        SetNestedFieldFrame(obj, PodLabelsPath, labels, q);
      }
  }

  /** Narrowing to spec, then to template.metadata.labels, then to one key,
      is narrowing along the whole path at once. */
  lemma LabelLedger(fm: FieldMap, k: string)
    ensures Advance(Advance(Advance(fm, FieldPath(["spec"])), FieldPath(["template", "metadata", "labels"])), [FieldName(k)])
         == Advance(fm, FieldPath(PodLabelsPath + [k]))
  {
    var labelsRel := FieldPath(["template", "metadata", "labels"]);
    assert FieldPath(PodLabelsPath + [k]) == FieldPath(["spec"]) + labelsRel + [FieldName(k)];
    AdvanceConcat(fm, FieldPath(["spec"]), labelsRel);
    AdvanceConcat(fm, FieldPath(["spec"]) + labelsRel, [FieldName(k)]);
  }

  /** The labels written back hold exactly the original keys some ledger row
      owns something below. */
  lemma PodLabelsKeys(obj: Object, fm: FieldMap, spec: Object)
    requires NestedMap(obj, ["spec"]) == Some(spec)
    ensures forall k :: k in PodLabels(spec, Advance(fm, FieldPath(["spec"]))) <==>
           && NestedMap(obj, PodLabelsPath).Some?
           && k in NestedMap(obj, PodLabelsPath).value
           && OwnsBelow(fm, FieldPath(PodLabelsPath + [k]))
  {
    var labelsRel := ["template", "metadata", "labels"];
    assert NestedMap(spec, labelsRel) == NestedMap(obj, PodLabelsPath) by {
      assert PodLabelsPath[1..] == labelsRel;
    }
    forall k
      ensures !Empty(AtKey(Advance(Advance(fm, FieldPath(["spec"])), FieldPath(labelsRel)), k))
          <==> OwnsBelow(fm, FieldPath(PodLabelsPath + [k]))
    {
      LabelLedger(fm, k);
      AdvanceNonEmptyIff(fm, FieldPath(PodLabelsPath + [k]));
    }
  }

  /** When the object has a spec and the labels path can be stored into, the
      pod labels afterwards are exactly the original labels some ledger row
      of the main resource owns something below; none at all when there
      were no labels. */
  lemma CleanJobPodLabels(obj: Object, mfes: seq<ManagedFieldsEntry>)
    requires CleanJob(obj, mfes).Success?
    requires NestedMap(obj, ["spec"]).Some?
    requires SetNestedField(obj, PodLabelsPath, Object(map[])).Some?
    ensures NestedField(CleanJob(obj, mfes).value, PodLabelsPath).Some?
    ensures var after := NestedField(CleanJob(obj, mfes).value, PodLabelsPath).value;
      && after.Object?
      && forall k :: k in after.fields <==>
           && NestedMap(obj, PodLabelsPath).Some?
           && k in NestedMap(obj, PodLabelsPath).value
           && OwnsBelow(NewFieldMap("", mfes).value, FieldPath(PodLabelsPath + [k]))
  {
    var fm := NewFieldMap("", mfes).value;
    var spec := NestedMap(obj, ["spec"]).value;
    var labels := Object(PodLabels(spec, Advance(fm, FieldPath(["spec"]))));
    SetNestedFieldFails(obj, PodLabelsPath, Object(map[]));
    SetNestedFieldFails(obj, PodLabelsPath, labels);
    SetNestedFieldStores(obj, PodLabelsPath, labels);
    assert CleanJob(obj, mfes).value == SetNestedField(obj, PodLabelsPath, labels).value;
    PodLabelsKeys(obj, fm, spec);
  }
}
