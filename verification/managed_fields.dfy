/** The field-ownership ledger of pkg/util/managed-fields.go: a FieldMap lists,
    in the order of the object's managedFields, each entry for one subresource
    together with the set of field paths that entry owns, and is narrowed one
    path element at a time while a document is walked. */
module ManagedFields {
  import opened Outcomes

  /** One element of a field path (fieldpath.PathElement of
      sigs.k8s.io/structured-merge-diff): a field name, the key of an
      associative-list element, the value of a set element, or a list index. */
  datatype PathElement =
    | FieldName(name: string)
    | Key(fields: seq<(string, string)>)
    | Value(value: string)
    | Index(index: int)

  type Path = seq<PathElement>

  /** fieldpath.Set seen as the set of paths it holds. The library never stores
      the zero-length path (inserting it is a no-op), hence the subset type. */
  type PathSet = s: set<Path> | [] !in s

  /** The paths of `s` that strictly extend `prefix`, with the prefix cut off. */
  function Subtree(s: PathSet, prefix: Path): (r: PathSet)
  {
    set p | p in s && |prefix| < |p| && p[..|prefix|] == prefix :: p[|prefix|..]
  }

  lemma SubtreeMember(s: PathSet, prefix: Path, t: Path)
    ensures t in Subtree(s, prefix) <==> t != [] && prefix + t in s
  {
    if t != [] && prefix + t in s {
      var p := prefix + t;
      assert p[..|prefix|] == prefix && p[|prefix|..] == t;
    }
    if t in Subtree(s, prefix) {
      var p :| p in s && |prefix| < |p| && p[..|prefix|] == prefix && p[|prefix|..] == t;
      assert prefix + t == p;
    }
  }

  /** Narrowing twice is narrowing once by the joined prefix. */
  lemma SubtreeCompose(s: PathSet, p: Path, q: Path)
    ensures Subtree(Subtree(s, p), q) == Subtree(s, p + q)
  {
    forall t
      ensures t in Subtree(Subtree(s, p), q) <==> t in Subtree(s, p + q)
    {
      SubtreeComposeAt(s, p, q, t);
    }
  }

  lemma SubtreeComposeAt(s: PathSet, p: Path, q: Path, t: Path)
    ensures t in Subtree(Subtree(s, p), q) <==> t in Subtree(s, p + q)
  {
    SubtreeMember(Subtree(s, p), q, t);
    SubtreeMember(s, p, q + t);
    SubtreeMember(s, p + q, t);
    assert p + (q + t) == (p + q) + t;
  }

  lemma SubtreeOfEmpty(p: Path)
    ensures Subtree({}, p) == {}
  {
  }

  lemma SubtreeNil(s: PathSet)
    ensures Subtree(s, []) == s
  {
    forall t ensures t in Subtree(s, []) <==> t in s {
      SubtreeMember(s, [], t);
      assert [] + t == t;
    }
  }

  /** fieldpath.Set.WithPrefix: the children of one path element. The tail of
      the one-element path [pe] is the zero-length path, which a set cannot
      hold, so owning [pe] itself contributes nothing here. */
  function WithPrefix(s: PathSet, pe: PathElement): (r: PathSet)
  {
    Subtree(s, [pe])
  }

  /** The raw FieldsV1 JSON, represented by what fieldpath.Set.FromJSON makes
      of it: None when it does not decode. */
  datatype FieldsV1 = FieldsV1(decoded: Option<PathSet>)

  /** metav1.ManagedFieldsEntry. */
  datatype ManagedFieldsEntry = ManagedFieldsEntry(
    manager: string,
    operation: string,
    apiVersion: string,
    time: string,
    fieldsType: string,
    fieldsV1: Option<FieldsV1>,
    subresource: string)

  /** One ledger row: the entry with FieldsV1 cleared, and its decoded paths. */
  datatype ManagedFieldMap = ManagedFieldMap(mfe: ManagedFieldsEntry, fields: PathSet)

  type FieldMap = seq<ManagedFieldMap>

  /** Why NewFieldMap panics on an entry of the requested subresource. */
  datatype FieldMapError =
    | NotFieldsV1(entry: ManagedFieldsEntry)
    | Undecodable(entry: ManagedFieldsEntry)

  predicate Decodable(e: ManagedFieldsEntry)
  {
    e.fieldsType == "FieldsV1" && e.fieldsV1.Some? && e.fieldsV1.value.decoded.Some?
  }

  /** The entries that belong to `subresource`, in their original order. */
  function Retained(subresource: string, mfes: seq<ManagedFieldsEntry>): (r: seq<ManagedFieldsEntry>)
    ensures |r| <= |mfes|
    ensures forall e :: e in r <==> e in mfes && e.subresource == subresource
  {
    if mfes == [] then []
    else
      (if mfes[0].subresource == subresource then [mfes[0]] else [])
      + Retained(subresource, mfes[1..])
  }

  /** A lone entry is kept exactly when it belongs to `subresource`. */
  lemma RetainedOne(subresource: string, e: ManagedFieldsEntry)
    ensures Retained(subresource, [e]) == (if e.subresource == subresource then [e] else [])
  {
    assert [e][1..] == [];
  }

  /** Filtering keeps order and multiplicity: the entries kept from a
      concatenation are those kept from each part, in turn. */
  lemma {:induction false} RetainedConcat(subresource: string, a: seq<ManagedFieldsEntry>, b: seq<ManagedFieldsEntry>)
    ensures Retained(subresource, a + b) == Retained(subresource, a) + Retained(subresource, b)
    decreases |a|
  {
    if a == [] {
      assert a + b == b;
    } else {
      var ab := a + b;
      assert ab[0] == a[0] && ab[1..] == a[1..] + b;
      RetainedConcat(subresource, a[1..], b);
      RetainedFirst(subresource, a);
      RetainedFirst(subresource, ab);
    }
  }

  lemma RetainedFirst(subresource: string, s: seq<ManagedFieldsEntry>)
    requires s != []
    ensures Retained(subresource, s) ==
      (if s[0].subresource == subresource then [s[0]] else []) + Retained(subresource, s[1..])
  {
  }

  /** NewFieldMap: one row per entry of `subresource`, in input order; an
      entry of that subresource that is not a decodable FieldsV1 is fatal. */
  function NewFieldMap(subresource: string, mfes: seq<ManagedFieldsEntry>): (r: Result<FieldMap, FieldMapError>)
    ensures r.Success? <==>
      forall i | 0 <= i < |mfes| && mfes[i].subresource == subresource :: Decodable(mfes[i])
    ensures r.Success? ==> |r.value| == |Retained(subresource, mfes)|
  {
    if mfes == [] then Success([])
    else
      var e := mfes[0];
      assert forall i | 1 <= i < |mfes| :: mfes[i] == mfes[1..][i - 1];
      if e.subresource != subresource then NewFieldMap(subresource, mfes[1..])
      else if e.fieldsType != "FieldsV1" || e.fieldsV1.None? then Failure(NotFieldsV1(e))
      else if e.fieldsV1.value.decoded.None? then Failure(Undecodable(e))
      else
        var rest := NewFieldMap(subresource, mfes[1..]);
        if rest.Failure? then Failure(rest.error)
        else Success([ManagedFieldMap(e.(fieldsV1 := None), e.fieldsV1.value.decoded.value)] + rest.value)
  }

  /** A ledger row made from entry `e`: the entry with FieldsV1 cleared and
      every other field unchanged, paired with what its FieldsV1 decodes to. */
  ghost predicate RowFor(row: ManagedFieldMap, e: ManagedFieldsEntry)
  {
    row.mfe == e.(fieldsV1 := None) && e.fieldsV1 == Some(FieldsV1(Some(row.fields)))
  }

  /** Each row of a built ledger is made from the matching retained entry. */
  lemma {:induction false} NewFieldMapRows(subresource: string, mfes: seq<ManagedFieldsEntry>)
    requires NewFieldMap(subresource, mfes).Success?
    ensures forall i | 0 <= i < |NewFieldMap(subresource, mfes).value| ::
      RowFor(NewFieldMap(subresource, mfes).value[i], Retained(subresource, mfes)[i])
  {
    if mfes != [] {
      var e := mfes[0];
      var rows := NewFieldMap(subresource, mfes).value;
      var rest := NewFieldMap(subresource, mfes[1..]);
      assert rest.Success?;
      NewFieldMapRows(subresource, mfes[1..]);
      var ret := Retained(subresource, mfes[1..]);
      if e.subresource != subresource {
        assert rows == rest.value;
        assert Retained(subresource, mfes) == ret;
      } else {
        var row := ManagedFieldMap(e.(fieldsV1 := None), e.fieldsV1.value.decoded.value);
        assert rows == [row] + rest.value;
        assert Retained(subresource, mfes) == [e] + ret;
        assert RowFor(row, e);
      }
    }
  }

  /** `err` is the error for entry i: the first entry of `subresource` that
      is not a decodable FieldsV1, with the check it failed. */
  ghost predicate Blames(subresource: string, mfes: seq<ManagedFieldsEntry>, err: FieldMapError, i: int)
  {
    && 0 <= i < |mfes|
    && err.entry == mfes[i]
    && mfes[i].subresource == subresource
    && !Decodable(mfes[i])
    && (err.NotFieldsV1? <==> mfes[i].fieldsType != "FieldsV1" || mfes[i].fieldsV1.None?)
    && forall j | 0 <= j < i && mfes[j].subresource == subresource :: Decodable(mfes[j])
  }

  /** A failed build names the first entry of `subresource` that is not a
      decodable FieldsV1, and says which check it failed. */
  lemma {:induction false} NewFieldMapFailure(subresource: string, mfes: seq<ManagedFieldsEntry>)
    requires NewFieldMap(subresource, mfes).Failure?
    ensures exists i :: Blames(subresource, mfes, NewFieldMap(subresource, mfes).error, i)
  {
    var e := mfes[0];
    if e.subresource == subresource && !Decodable(e) {
      assert Blames(subresource, mfes, NewFieldMap(subresource, mfes).error, 0);
    } else {
      NewFieldMapFailure(subresource, mfes[1..]);
      var err := NewFieldMap(subresource, mfes[1..]).error;
      var k :| Blames(subresource, mfes[1..], err, k);
      assert NewFieldMap(subresource, mfes).error == err;
      BlamesShift(subresource, mfes, err, k);
    }
  }

  /** Blame for the tail carries over when the first entry is fine. */
  lemma BlamesShift(subresource: string, mfes: seq<ManagedFieldsEntry>, err: FieldMapError, k: int)
    requires mfes != [] && (mfes[0].subresource != subresource || Decodable(mfes[0]))
    requires Blames(subresource, mfes[1..], err, k)
    ensures Blames(subresource, mfes, err, k + 1)
  {
    assert mfes[k + 1] == mfes[1..][k];
    forall j | 0 <= j < k + 1 && mfes[j].subresource == subresource
      ensures Decodable(mfes[j])
    {
      if j > 0 { assert mfes[j] == mfes[1..][j - 1]; }
    }
  }

  /** Empty: no row owns any path; the empty ledger is empty. */
  predicate Empty(fm: FieldMap)
    ensures Empty(fm) <==> forall i | 0 <= i < |fm| :: fm[i].fields == {}
  {
    if fm == [] then true
    else if fm[0].fields != {} then false
    else
      assert forall i | 1 <= i < |fm| :: fm[i] == fm[1..][i - 1];
      Empty(fm[1..])
  }

  /** A row narrowed to the children of one path element. */
  function Narrowed(m: ManagedFieldMap, pe: PathElement): ManagedFieldMap
  {
    ManagedFieldMap(m.mfe, WithPrefix(m.fields, pe))
  }

  /** Step: narrow every row by one path element and drop the rows left with
      nothing, keeping order and each row's entry. */
  function Step(fm: FieldMap, pe: PathElement): (r: FieldMap)
    ensures |r| <= |fm|
    ensures forall i | 0 <= i < |r| :: r[i].fields != {}
  {
    if fm == [] then []
    else
      var head := Narrowed(fm[0], pe);
      if head.fields != {} then [head] + Step(fm[1..], pe) else Step(fm[1..], pe)
  }

  /** Since Step keeps no row with nothing left, its result is Empty exactly
      when it has no rows at all. */
  lemma StepEmptyIff(fm: FieldMap, pe: PathElement)
    ensures Empty(Step(fm, pe)) <==> Step(fm, pe) == []
  {
    var r := Step(fm, pe);
    if r != [] {
      assert r[0].fields != {};
    }
  }

  /** Every row Step returns is some input row narrowed. */
  lemma {:induction false} StepRowsFrom(fm: FieldMap, pe: PathElement)
    ensures forall row | row in Step(fm, pe) :: exists m | m in fm :: row == Narrowed(m, pe)
  {
    if fm != [] {
      StepRowsFrom(fm[1..], pe);
      var head := Narrowed(fm[0], pe);
      assert Step(fm, pe) == (if head.fields != {} then [head] else []) + Step(fm[1..], pe);
      assert forall m | m in fm[1..] :: m in fm;
    }
  }

  /** Every input row whose narrowing is non-empty is returned by Step. */
  lemma {:induction false} StepKeeps(fm: FieldMap, pe: PathElement)
    ensures forall j | 0 <= j < |fm| :: Narrowed(fm[j], pe).fields != {} ==> Narrowed(fm[j], pe) in Step(fm, pe)
  {
    if fm != [] {
      StepKeeps(fm[1..], pe);
      assert forall j | 1 <= j < |fm| :: fm[j] == fm[1..][j - 1];
    }
  }

  /** Step distributes over concatenation, so it keeps the rows' relative order. */
  lemma {:induction false} StepConcat(a: FieldMap, b: FieldMap, pe: PathElement)
    ensures Step(a + b, pe) == Step(a, pe) + Step(b, pe)
  {
    if a == [] {
      assert a + b == b;
    } else {
      assert (a + b)[1..] == a[1..] + b;
      StepConcat(a[1..], b, pe);
    }
  }

  /** Advance: Step along every element of a path, in order. */
  function Advance(fm: FieldMap, path: Path): (r: FieldMap)
    ensures |r| <= |fm|
    ensures path != [] ==> forall i | 0 <= i < |r| :: r[i].fields != {}
    decreases |path|
  {
    if path == [] then fm else Advance(Step(fm, path[0]), path[1..])
  }

  lemma AdvanceOne(fm: FieldMap, pe: PathElement)
    ensures Advance(fm, [pe]) == Step(fm, pe)
  {
    assert [pe][0] == pe && [pe][1..] == [];
  }

  lemma AdvanceNil(fm: FieldMap)
    ensures Advance(fm, []) == fm
  {
  }

  /** Advancing along p then q is advancing along p + q. */
  lemma {:induction false} AdvanceConcat(fm: FieldMap, p: Path, q: Path)
    ensures Advance(fm, p + q) == Advance(Advance(fm, p), q)
    decreases |p|
  {
    if p == [] {
      assert p + q == q;
    } else {
      assert (p + q)[0] == p[0];
      assert (p + q)[1..] == p[1..] + q;
      AdvanceConcat(Step(fm, p[0]), p[1..], q);
    }
  }

  /** Some row owns a path strictly below `path`. */
  predicate OwnsBelow(fm: FieldMap, path: Path)
  {
    exists i | 0 <= i < |fm| :: Subtree(fm[i].fields, path) != {}
  }

  /** The ledger advanced along `path` is non-empty exactly when some row owns
      a path strictly below `path`. */
  lemma {:induction false} AdvanceNonEmptyIff(fm: FieldMap, path: Path)
    ensures !Empty(Advance(fm, path)) <==> OwnsBelow(fm, path)
    decreases |path|
  {
    if path == [] {
      forall i | 0 <= i < |fm| ensures Subtree(fm[i].fields, []) == fm[i].fields {
        SubtreeNil(fm[i].fields);
      }
    } else {
      AdvanceNonEmptyIff(Step(fm, path[0]), path[1..]);
      OwnsBelowStep(fm, path[0], path[1..]);
      assert path == [path[0]] + path[1..];
    }
  }

  /** A ledger in which some row owns a path strictly below `path` is not
      Empty. */
  lemma OwnsBelowNotEmpty(fm: FieldMap, path: Path)
    ensures OwnsBelow(fm, path) ==> !Empty(fm)
  {
    if OwnsBelow(fm, path) {
      var i :| 0 <= i < |fm| && Subtree(fm[i].fields, path) != {};
      if fm[i].fields == {} {
        SubtreeOfEmpty(path);
      }
    }
  }

  /** Owning below `rest` after one Step is owning below the longer path. */
  lemma OwnsBelowStep(fm: FieldMap, pe: PathElement, rest: Path)
    ensures OwnsBelow(Step(fm, pe), rest) <==> OwnsBelow(fm, [pe] + rest)
  {
    if OwnsBelow(Step(fm, pe), rest) {
      OwnsBelowAfterStep(fm, pe, rest);
    }
    if OwnsBelow(fm, [pe] + rest) {
      OwnsBelowBeforeStep(fm, pe, rest);
    }
  }

  lemma OwnsBelowAfterStep(fm: FieldMap, pe: PathElement, rest: Path)
    requires OwnsBelow(Step(fm, pe), rest)
    ensures OwnsBelow(fm, [pe] + rest)
  {
    var st := Step(fm, pe);
    StepRowsFrom(fm, pe);
    var i :| 0 <= i < |st| && Subtree(st[i].fields, rest) != {};
    assert st[i] in st;
    var m :| m in fm && st[i] == Narrowed(m, pe);
    var j :| 0 <= j < |fm| && fm[j] == m;
    SubtreeCompose(m.fields, [pe], rest);
    assert Subtree(fm[j].fields, [pe] + rest) != {};
  }

  lemma OwnsBelowBeforeStep(fm: FieldMap, pe: PathElement, rest: Path)
    requires OwnsBelow(fm, [pe] + rest)
    ensures OwnsBelow(Step(fm, pe), rest)
  {
    var st := Step(fm, pe);
    var j :| 0 <= j < |fm| && Subtree(fm[j].fields, [pe] + rest) != {};
    SubtreeCompose(fm[j].fields, [pe], rest);
    var row := Narrowed(fm[j], pe);
    assert Subtree(row.fields, rest) != {};
    if row.fields == {} {
      SubtreeOfEmpty(rest);
    }
    StepKeeps(fm, pe);
    var i :| 0 <= i < |st| && st[i] == row;
    assert Subtree(st[i].fields, rest) != {};
  }
}
