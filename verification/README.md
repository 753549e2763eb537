# KubeStellar core logic in Dafny

This project models, as pure functions over immutable values, seven pieces
of the sequential logic of KubeStellar (the kcp-edge-mc repository):

- **`ManagedFields`** (`managed_fields.dfy`) models the field-ownership
  ledger of `pkg/util/managed-fields.go`. A `FieldMap` has one row per
  managed-fields entry of one subresource, each row holding the set of
  field paths its manager owns. `Step`/`Advance` narrow every row to the
  paths below a path element or path, and `Empty` says no row owns anything.
  A `fieldpath.Set` is a set of non-empty paths. `WithPrefix(pe)` is the set
  of tails of the paths that start with `pe`.
- **`JobFiltering`** (`job_filtering.dfy`) models the trimming of a Job
  object in `pkg/transport/filtering/job.go`. `trimMapByFieldMap` and
  `trimSliceByFieldMap` do a recursive descent over a JSON tree that drops
  what no ledger row reaches. `cleanJob` applies it to the pod labels.
- **`Unstructured`** (`unstructured.dfy`) models the JSON tree and the
  `NestedMap`/`SetNestedMap` helpers the trimming relies on.
- **`CrdWatch`** (`crd_watch.dfy`) models watch-set reconciliation in
  `pkg/binding/crd.go`. `checkAPIResourcesForUpdates` plans which informers
  to start and which to stop from a discovery snapshot. The stop loop of
  `handleCRD` and the registrations of `startInformersForNewAPIResources`
  act on a record of GVK-keyed tables.
- **`TransportHarness`** (`transport_harness.dfy`) models the binding
  builder and the delivery check of the generic transport controller's test
  (`SliceFindOrCreate`, `bindingCase.Add`, `testTransport.WrapObjects`).
- **`DownsyncTest`** (`downsync_test.dfy`) models the downsync-rule matcher
  of the binding controller's test (`MatchesAny`, `LabelsMatchAny`). It also
  models the random generators of rules (`extractTest`,
  `extractStringTest`, `extractLabelsTest`, `getObjectTest`).
- **`AbstractMaps`** (`abstract_maps.dfy`) models the read-only map
  abstraction of `pkg/abstract/maps.go`. It has two implementations,
  `LangMap` and `MapK8sSetToConstant`, and covers `Get`, `Len`, the
  early-stopping `Iterator2` and `LangMapCopyOf`.
- **`RestPath`** (`rest_path.dfy`) models the URL segments that
  `GetWithManagedFields` in `pkg/util/dynamic-detailed.go` builds, together
  with a parser that reads them back.

`Outcomes` holds `Option` and `Result`. A Go panic, a `t.Fatalf` and a
returned error become a `Failure`. `Schema` holds the group/version/kind
and group/version/resource records.

## Model

| member | source | states |
|---|---|---|
| ManagedFields.SubtreeMember | pkg/util/managed-fields.go:77-77 | a path is in the narrowed set exactly when it is non-empty and the prefix followed by it is owned |
| ManagedFields.SubtreeCompose | pkg/util/managed-fields.go:85-91 | narrowing by p and then by q is narrowing by p followed by q |
| ManagedFields.SubtreeComposeAt | pkg/util/managed-fields.go:85-91 | the same composition, for one path |
| ManagedFields.SubtreeOfEmpty | pkg/util/managed-fields.go:77-78 | nothing owned means nothing owned below any prefix |
| ManagedFields.SubtreeNil | pkg/util/managed-fields.go:85-91 | narrowing by the empty path changes nothing |
| ManagedFields.Retained | pkg/util/managed-fields.go:36-39 | the entries kept are exactly those of the requested subresource, never more than the input |
| ManagedFields.RetainedOne | pkg/util/managed-fields.go:36-39 | a lone entry is kept exactly when it belongs to the requested subresource |
| ManagedFields.RetainedConcat | pkg/util/managed-fields.go:36-39 | the filter keeps input order and multiplicity: what it keeps from a concatenation is what it keeps from each part, in turn |
| ManagedFields.NewFieldMap | pkg/util/managed-fields.go:34-54 | building succeeds exactly when every entry of the subresource is a decodable FieldsV1, with one row per retained entry |
| ManagedFields.NewFieldMapRows | pkg/util/managed-fields.go:49-51 | row i comes from the i-th retained entry: the entry with FieldsV1 cleared and everything else equal, paired with what its FieldsV1 decodes to |
| ManagedFields.NewFieldMapFailure | pkg/util/managed-fields.go:40-47 | a failure names the first entry of the subresource that is not a FieldsV1 or does not decode, with the check it failed |
| ManagedFields.BlamesShift | pkg/util/managed-fields.go:36-47 | an entry that is skipped or decodes does not change which later entry is blamed |
| ManagedFields.Empty | pkg/util/managed-fields.go:93-100 | a ledger is empty exactly when every row owns nothing, so the empty ledger is empty |
| ManagedFields.Step | pkg/util/managed-fields.go:74-83 | Step never lengthens the ledger and keeps no row that owns nothing |
| ManagedFields.StepEmptyIff | pkg/util/managed-fields.go:78-80 | Step's result is empty exactly when it has no rows |
| ManagedFields.StepRowsFrom | pkg/util/managed-fields.go:76-80 | every returned row is an input row narrowed, with its entry unchanged |
| ManagedFields.StepKeeps | pkg/util/managed-fields.go:77-80 | every input row whose narrowing owns something is returned |
| ManagedFields.StepConcat | pkg/util/managed-fields.go:74-83 | Step works row by row and in order: stepping a concatenation concatenates the steps |
| ManagedFields.Advance | pkg/util/managed-fields.go:85-91 | advancing never lengthens the ledger, and along a non-empty path leaves only rows that own something |
| ManagedFields.AdvanceOne | pkg/util/managed-fields.go:85-91 | advancing along a one-element path is a single Step |
| ManagedFields.AdvanceNil | pkg/util/managed-fields.go:85-91 | advancing along the empty path is the identity |
| ManagedFields.AdvanceConcat | pkg/util/managed-fields.go:85-91 | advancing along p followed by q is advancing along p and then along q |
| ManagedFields.AdvanceNonEmptyIff | pkg/util/managed-fields.go:85-100 | the advanced ledger is non-empty exactly when some row owns a path strictly below the path |
| ManagedFields.OwnsBelowNotEmpty | pkg/util/managed-fields.go:93-100 | a ledger in which some row owns a path strictly below some path is not Empty |
| ManagedFields.OwnsBelowStep | pkg/util/managed-fields.go:74-83 | after one step, a row owns below the rest exactly when, before it, a row owned below the element followed by the rest |
| ManagedFields.OwnsBelowAfterStep | pkg/util/managed-fields.go:74-83 | ownership below the rest after a step implies ownership below the full path before it |
| ManagedFields.OwnsBelowBeforeStep | pkg/util/managed-fields.go:74-83 | ownership below the full path before a step survives the step |
| Unstructured.NestedMap | pkg/transport/filtering/job.go:31-31 | a map is found exactly when the path leads through maps to a map, and it is that map |
| Unstructured.SetNestedFieldStores | pkg/transport/filtering/job.go:51-51 | after a successful store, the path reads back the stored value |
| Unstructured.SetNestedFieldFrame | pkg/transport/filtering/job.go:51-51 | a store leaves every path that diverges from the stored path unchanged |
| Unstructured.SetNestedFieldFails | pkg/transport/filtering/job.go:51-51 | a store fails exactly when some existing intermediate step of the path is not a map |
| JobFiltering.TrimMap | pkg/transport/filtering/job.go:56-70 | a key survives exactly when it was present and the ledger narrowed to it is non-empty; kept values keep their kind; kept scalars are unchanged |
| JobFiltering.TrimKept | pkg/transport/filtering/job.go:63-68 | a kept value keeps its kind, a scalar is unchanged, and a list keeps all its elements |
| JobFiltering.TrimSliceInPlace | pkg/transport/filtering/job.go:66-67 | the list under a map key keeps its length, because the filtered slice is discarded; an element no ledger row reaches is unchanged |
| JobFiltering.Reached | pkg/transport/filtering/job.go:74-77 | position i is reached exactly when the ledger narrowed to index i is non-empty |
| JobFiltering.KeptPositions | pkg/transport/filtering/job.go:74-78 | the kept positions are reached, in bounds and strictly increasing |
| JobFiltering.KeptPositionsComplete | pkg/transport/filtering/job.go:74-78 | every reached position is kept |
| JobFiltering.TrimSlice | pkg/transport/filtering/job.go:72-89 | the returned slice holds, in original order, the elements at the reached positions, each trimmed by its own narrowed ledger, and is no longer than the input |
| JobFiltering.TrimSliceFrom | pkg/transport/filtering/job.go:74-88 | the loop from a position on returns the trimmed elements at the reached positions from there |
| JobFiltering.TrimMapKeepsOwned | pkg/transport/filtering/job.go:57-62 | a key survives exactly when it was present and some row owns a path strictly below it |
| JobFiltering.ValueAtConcat | pkg/transport/filtering/job.go:56-89 | looking along a joined path is looking along the second part from what the first part finds |
| JobFiltering.NestedFieldIsValueAt | pkg/transport/filtering/job.go:56-70 | looking a key path up in a map is looking along the field path of those keys |
| JobFiltering.TrimMapAtKeys | pkg/transport/filtering/job.go:56-70 | along any non-empty path of map keys, the trimmed map has a value exactly when the original has one and some row owns a path strictly below that key path; the value kept is the original's trimmed by the ledger advanced along the path, and a kept scalar is unchanged |
| JobFiltering.TrimKeptStepIn | pkg/transport/filtering/job.go:57-68 | one key or index into a value whose ledger still reaches that step: the trimmed value has an entry there exactly when the original has, and it is the original's trimmed by the narrowed ledger |
| JobFiltering.TrimKeptAlong | pkg/transport/filtering/job.go:56-89 | along any path of keys and list positions below which some row owns a path, the trimmed value has an entry exactly when the original has, and it is the original's entry trimmed by the ledger advanced along that path |
| JobFiltering.TrimKeptStepOut | pkg/transport/filtering/job.go:57-61 | one step into a value whose ledger holds nothing past that step: a map key is gone, a list element is what it was |
| JobFiltering.TrimKeptCut | pkg/transport/filtering/job.go:57-61 | one step past the root or past an owned path, where no row owns anything below the step: a map key there is deleted, while a list element there is left exactly as it was, because the filtered slice is discarded |
| JobFiltering.ListUnderKeyKeepsElements | pkg/transport/filtering/job.go:66-67 | a list under a surviving key keeps every element; those no row reaches are unchanged |
| JobFiltering.TrimMapIdempotent | pkg/transport/filtering/job.go:56-70 | trimming a trimmed map again changes nothing |
| JobFiltering.TrimKeptIdempotent | pkg/transport/filtering/job.go:63-68 | trimming a trimmed value again changes nothing |
| JobFiltering.TrimSliceInPlaceIdempotent | pkg/transport/filtering/job.go:66-67 | trimming the elements of a list twice changes nothing more |
| JobFiltering.LeafOwnedKeyIsDropped | pkg/transport/filtering/job.go:58-61 | a key whose own path is the only owned path is deleted, since nothing is owned strictly below it |
| JobFiltering.FieldPath | pkg/transport/filtering/job.go:36-36 | the path made from keys has one field-name element per key, in order |
| JobFiltering.CleanJob | pkg/transport/filtering/job.go:26-54 | cleaning fails exactly when a main-resource entry does not decode, and leaves an object without a spec map unchanged |
| JobFiltering.CleanJobTouchesOnlyPodLabels | pkg/transport/filtering/job.go:51-52 | every path that diverges from spec.template.metadata.labels reads the same before and after cleaning |
| JobFiltering.LabelLedger | pkg/transport/filtering/job.go:36-48 | narrowing to spec, then to template.metadata.labels, then to one key, equals narrowing along the whole path |
| JobFiltering.PodLabelsKeys | pkg/transport/filtering/job.go:44-50 | the trimmed labels hold exactly the original label keys some row owns something below |
| JobFiltering.CleanJobPodLabels | pkg/transport/filtering/job.go:44-52 | when the labels path can be written, afterwards it holds a map whose keys are exactly the original label keys some main-resource row owns something below; the map is empty when there were no labels |
| CrdWatch.ParseFormatRoundTrip | pkg/binding/crd.go:91-91 | a group-version without '/' in its parts parses back from its formatted string |
| CrdWatch.CountCharConcat | pkg/binding/crd.go:91-91 | counting a character in a concatenation adds the counts |
| CrdWatch.WantedMember | pkg/binding/crd.go:90-120 | a key is wanted exactly when some discovered resource with that key is admitted (its group-version parses, its group and name are not excluded, its group is allowed, its verbs support an informer) |
| CrdWatch.WantedOfResourcesMember | pkg/binding/crd.go:99-119 | the same, within one list |
| CrdWatch.StartsAreNewAndWanted | pkg/binding/crd.go:106-114 | every resource to start has a wanted key with no informer, passes the name, group-allowed and verb checks, and was discovered in a list that carries its group-version, whose group is not excluded; every wanted key with no informer has a resource to start |
| CrdWatch.StartsOfResourcesNewAndWanted | pkg/binding/crd.go:106-114 | within one list: every resource to start is one of the list's resources, carries the list's group-version, passes the name, group-allowed and verb checks and has a wanted key with no informer; every wanted key of the list with no informer has a resource to start |
| CrdWatch.DuplicateDiscoveryStartsTwice | pkg/binding/crd.go:108-114 | a resource discovered twice is started twice, because the informers are not updated during the scan |
| CrdWatch.ScanResources | pkg/binding/crd.go:99-119 | the loop over one list appends its starts and removes its wanted keys from the tracking set |
| CrdWatch.ScanDiscovery | pkg/binding/crd.go:89-120 | the scan yields exactly the starts, and the informer keys minus the wanted keys |
| CrdWatch.Enumerate | pkg/binding/crd.go:122-124 | the keys left are listed once each, and nothing else is listed |
| CrdWatch.CheckAPIResourcesForUpdates | pkg/binding/crd.go:67-127 | the plan fails, with the discovery error, exactly when that error is not the incomplete-list one; otherwise it starts exactly the new wanted resources and stops, once each, exactly the informer keys no longer wanted |
| CrdWatch.StopOneEffect | pkg/binding/crd.go:50-60 | stopping a running key closes exactly its channel, drops exactly that key and keeps the tables consistent |
| CrdWatch.StopTail | pkg/binding/crd.go:50-60 | after one stop the remaining keys are still distinct and running |
| CrdWatch.StopInformersEffect | pkg/binding/crd.go:50-60 | the stop loop over distinct running keys succeeds, keeps the tables consistent, and leaves exactly the keys not stopped |
| CrdWatch.StopInformersFrame | pkg/binding/crd.go:50-60 | the stop loop closes exactly the stopped keys' channels and leaves every remaining key's informer and channel as they were |
| CrdWatch.StartOneConsistent | pkg/binding/crd.go:169-180 | one registration keeps the four tables consistent under the same key with a fresh channel |
| CrdWatch.StartInformersEffect | pkg/binding/crd.go:132-183 | the registrations keep the tables consistent, add exactly the started keys and close nothing |
| CrdWatch.StartInformersConsistent | pkg/binding/crd.go:132-183 | the registrations keep the tables consistent and close nothing |
| CrdWatch.StartInformersKeys | pkg/binding/crd.go:169-170 | the informer keys afterwards are the old ones plus the started keys |
| CrdWatch.StartInformersFrame | pkg/binding/crd.go:169-180 | a key not started keeps its informer and channel |
| CrdWatch.StartInformersLastWins | pkg/binding/crd.go:173-173 | for a key started more than once, the mapper holds the resource of the last start |
| CrdWatch.StartInformersMapperFrame | pkg/binding/crd.go:173-173 | a key not started keeps its mapper entry |
| CrdWatch.HandleCRD | pkg/binding/crd.go:40-63 | a discovery error that is not the incomplete-list one fails the round and nothing else does (from consistent tables); otherwise the running keys are the old ones still wanted, untouched, and the resources to start are handed on |
| CrdWatch.Reconcile | pkg/binding/crd.go:40-63 | after a round whose discovery did not fail, the running keys are exactly the wanted ones, and wanted informers that were already running are kept; a failed discovery changes nothing |
| TransportHarness.FindFirst | pkg/transport/generic_tranpsort_controller_test.go:193-197 | the position found holds the key and no earlier one does; none is found only when no element has the key |
| TransportHarness.SliceFindOrCreate | pkg/transport/generic_tranpsort_controller_test.go:192-201 | with the key present, the slice is unchanged and the first element with the key is designated; otherwise the made element is appended and designated, earlier elements unchanged |
| TransportHarness.SliceFindOrCreateTwice | pkg/transport/generic_tranpsort_controller_test.go:147-201 | with the key/new helpers the designated element has the requested key, and a second call with that key changes nothing |
| TransportHarness.FindOrCreateThenSpec | pkg/transport/generic_tranpsort_controller_test.go:192-201 | updating the found-or-made element keeps keys unique, changes that key's element only, and leaves every other key's element as it was |
| TransportHarness.LookupIn | pkg/transport/generic_tranpsort_controller_test.go:193-197 | an element found is an element of the slice |
| TransportHarness.AppendClusterNameSpec | pkg/transport/generic_tranpsort_controller_test.go:176-178 | a cluster-scoped name is appended to its GVR's list and to no other list |
| TransportHarness.AppendNamespacedNameSpec | pkg/transport/generic_tranpsort_controller_test.go:179-183 | a namespaced name is appended to its GVR's list for its namespace and to no other list |
| TransportHarness.AppendNamespacedNameWellFormed | pkg/transport/generic_tranpsort_controller_test.go:179-183 | appending keeps the buckets' keys unique at both levels |
| TransportHarness.AppendNamespacedNameLists | pkg/transport/generic_tranpsort_controller_test.go:179-183 | every namespaced list but the object's own is unchanged, and the own list grows by the name |
| TransportHarness.AppendNamespacedNameOwnList | pkg/transport/generic_tranpsort_controller_test.go:180-182 | within the object's GVR, only its namespace's list grows, by the name |
| TransportHarness.Add | pkg/transport/generic_tranpsort_controller_test.go:184-187 | adding fails exactly when the object does not convert to a document |
| TransportHarness.AddAppendsName | pkg/transport/generic_tranpsort_controller_test.go:171-190 | the name is appended, without de-duplication, to exactly one list (cluster scope without a namespace, else the namespace's list); the document is expected under the key, and the key is logged once |
| TransportHarness.Unexpected | pkg/transport/generic_tranpsort_controller_test.go:249-251 | the extras are never more than the delivered documents |
| TransportHarness.MissedStep | pkg/transport/generic_tranpsort_controller_test.go:240-242 | each delivered document removes its key from the missed set |
| TransportHarness.WrapObjects | pkg/transport/generic_tranpsort_controller_test.go:230-260 | a call marks the transport wrapped and resets the verdict to: the expected pairs whose key was not delivered, the wrong documents per key, and the unexpected documents in order |
| TransportHarness.DeliveredMember | pkg/transport/generic_tranpsort_controller_test.go:240-242 | a key is delivered exactly when some document has it |
| TransportHarness.WrongMember | pkg/transport/generic_tranpsort_controller_test.go:243-248 | a key is reported wrong exactly when some delivered document with that expected key differs from its cleaned expectation, and it is reported with the last such document |
| TransportHarness.WrongKeys | pkg/transport/generic_tranpsort_controller_test.go:243-248 | the keys reported wrong are exactly those of the wrong documents |
| TransportHarness.WrongLast | pkg/transport/generic_tranpsort_controller_test.go:243-248 | a key reported wrong carries the last wrong document with that key |
| TransportHarness.UnexpectedEmpty | pkg/transport/generic_tranpsort_controller_test.go:249-251 | there are no extras exactly when every delivered key is expected |
| TransportHarness.PassedIff | pkg/transport/generic_tranpsort_controller_test.go:309-309 | the test's success condition holds exactly when every expected key is delivered, and every delivered document is expected and equals its cleaned expectation |
| DownsyncTest.LabelsMatchAny | pkg/binding/controller_test.go:145-158 | no selectors means no match |
| DownsyncTest.LabelsMatchAnyIff | pkg/binding/controller_test.go:145-158 | when every selector converts, the result is true exactly when some selector matches |
| DownsyncTest.LabelsMatchAnyStops | pkg/binding/controller_test.go:147-150 | the test stops only on a selector that does not convert |
| DownsyncTest.EvalTestIsSatisfies | pkg/binding/controller_test.go:122-140 | one test's axis checks admit the object exactly when every populated axis admits it (nil group or empty list is no restriction; a member or "*" admits) |
| DownsyncTest.EvalTestStops | pkg/binding/controller_test.go:135-140 | one test's checks stop only for a namespace selector on a cluster-scoped object or a selector that does not convert |
| DownsyncTest.MatchesAnyAsWrittenNeverTrue | pkg/binding/controller_test.go:120-143 | as written, MatchesAny never reports a match |
| DownsyncTest.MatchesAnyIff | pkg/binding/controller_test.go:120-143 | the corrected MatchesAny is true exactly when the object satisfies some test |
| DownsyncTest.MatchesAnyAsWrittenMissesMatch | pkg/binding/controller_test.go:120-143 | a ConfigMap satisfies a resources-only rule, and the corrected matcher says so, while the one as written reports no match |
| DownsyncTest.ConfigMapInNamespaceScenario | pkg/binding/controller_test.go:126-131 | a rule for configmaps in ns1 matches the ConfigMap in ns1, and neither one in ns2 nor a cluster-scoped Node |
| DownsyncTest.ExtractStringTest | pkg/binding/controller_test.go:176-188 | the good value is listed exactly when its draw keeps it (or it equals an added "foo"/"bar") |
| DownsyncTest.ExtractStringTestSubsequence | pkg/binding/controller_test.go:176-188 | the result is a subsequence of "foo", the good value, "bar" |
| DownsyncTest.SubsequenceWitness | pkg/binding/controller_test.go:176-188 | increasing in-bounds positions reading one list as the other witness a subsequence |
| DownsyncTest.ExtractLabelsTest | pkg/binding/controller_test.go:190-206 | exactly one matchLabels-only selector, holding the kept good keys (values perhaps spoiled by "not") and perhaps foo=bar, and no other keys |
| DownsyncTest.ExtractTest | pkg/binding/controller_test.go:160-174 | namespace axes are filled only for namespaced objects; one object selector; a group, if any, is the object's |
| DownsyncTest.ExtractTestSelfMatches | pkg/binding/controller_test.go:160-206 | with draws that keep every good value and spoil nothing, the extracted test is satisfied by its object and the corrected MatchesAny reports it |
| DownsyncTest.Intn | pkg/binding/controller_test.go:218-218 | a random number below a positive bound; a non-positive bound panics |
| DownsyncTest.Draw | pkg/binding/controller_test.go:162-162 | a random number below a positive constant bound |
| DownsyncTest.PickWindow | pkg/binding/controller_test.go:213-221 | the window loop panics exactly when more picks than positions are asked for, and otherwise picks strictly increasing in-bounds positions |
| DownsyncTest.PickFrom | pkg/binding/controller_test.go:213-221 | the picks are a subsequence of the source of the asked length, or a panic exactly when the source is too short |
| DownsyncTest.GetObjectTest | pkg/binding/controller_test.go:208-241 | with enough inputs it succeeds; the group is one of the groups; resources, namespace names and object names are each at most two picks in source order; a namespace selector, if any, is one namespace's labels |
| AbstractMaps.NewLangMap | pkg/abstract/maps.go:47-49 | a new map holds no pairs |
| AbstractMaps.MapFromLang | pkg/abstract/maps.go:52-54 | the view holds exactly the given map's pairs |
| AbstractMaps.NewMapK8sSetToConstant | pkg/abstract/maps.go:112-114 | the keys are exactly the set's members, each mapped to the one value |
| AbstractMaps.Len | pkg/abstract/maps.go:116-116 | the length is the number of pairs held, for MapK8sSetToConstant the set's size (LangMap: line 66) |
| AbstractMaps.Get | pkg/abstract/maps.go:118-124 | a lookup reports true exactly when the key is held, with its value; otherwise the zero value and false (LangMap: lines 68-71) |
| AbstractMaps.FeedSnoc | pkg/abstract/maps.go:126-134 | feeding one more pair after a run that went on applies the callback once more |
| AbstractMaps.MidwayStep | pkg/abstract/maps.go:126-134 | visiting one more unvisited key keeps the visit distinct, held and covering |
| AbstractMaps.Iterator2 | pkg/abstract/maps.go:126-134 | each visited pair is held, no key is visited twice, the callback is fed the visits in order, a run that goes to the end visits every key, and a run stops right after the first false (LangMap: lines 73-81) |
| AbstractMaps.FeedStore | pkg/abstract/maps.go:59-62 | storing pairs with distinct keys never stops and holds exactly those pairs |
| AbstractMaps.LangMapCopyOf | pkg/abstract/maps.go:57-64 | the copy is a LangMap holding exactly the pairs of the original |
| AbstractMaps.CompleteRunLength | pkg/abstract/maps.go:126-134 | a run to the end visits exactly Len pairs |
| AbstractMaps.CardinalityOfDistinct | pkg/abstract/maps.go:126-134 | pairs with distinct keys have as many keys as pairs |
| RestPath.UrlSegments | pkg/util/dynamic-detailed.go:41-55 | "api" for the core group, else "apis" and the group; then the version; "namespaces" and the namespace only when there is one; the resource; the name only when there is one; the subresources last, in order; the length adds up accordingly |
| RestPath.ParseSegments | pkg/util/dynamic-detailed.go:41-55 | whatever a path reads back as is a target whose path is unambiguous |
| RestPath.ParseUrlSegments | pkg/util/dynamic-detailed.go:41-55 | every unambiguous target reads back from its path |
| RestPath.ResourceSegmentsOfParse | pkg/util/dynamic-detailed.go:51-55 | the segments from the resource on are rebuilt from what they read as |
| RestPath.VersionSegmentsOfParse | pkg/util/dynamic-detailed.go:47-55 | the segments from the version on are rebuilt from what they read as |
| RestPath.UrlSegmentsOfParse | pkg/util/dynamic-detailed.go:41-55 | every path that reads back is the path of what it reads as |
| RestPath.UrlSegmentsInjective | pkg/util/dynamic-detailed.go:41-55 | two unambiguous targets never share a path |
| RestPath.SubresourceWithoutName | pkg/util/dynamic-detailed.go:52-55 | without a name, a subresource segment is indistinguishable from a name |

## Left out

- Goroutines, `informer.Run`, the `select {}` that blocks forever and the `defer close(stopper)` that therefore never runs (pkg/binding/crd.go:179-185) are concurrency and are not modelled. An informer is a record of its GVR.
- The dynamic-client List/Watch closures and the event handlers of started informers (pkg/binding/crd.go:142-168) are calls into the client library.
- The discovery call is an input value: the lists returned and an optional error message. `verbsSupportInformers`, `IsAPIGroupAllowed`, the excluded groups and resource names, and the incomplete-list marker are parameters.
- `schema.ParseGroupVersion` is modelled from the library's documented behaviour. A string with no '/' is a core-group version, one '/' splits group and version, and more than one fails.
- The REST request, its parameter codec and the decoding of the reply (pkg/util/dynamic-detailed.go:56-71) are network I/O.
- `MarshalLog`, `MapMarshalLog` and every log call are logging only.
- Library internals are abstract values. `fieldpath.Set` is a set of paths and a FieldsV1 value is an optional decoded set. `LabelSelectorAsSelector`/`Matches` are a parameter record. `apiequality.Semantic.DeepEqual` is equality, and the controller's `cleanObject` is a function parameter.
- `GVKObjRef.String()` is taken to be injective, so the maps keyed by that string are keyed by the reference itself.
- `math/rand` is nondeterministic choice, or explicit draw records for the generators that are pure functions.
- Go map iteration order is nondeterministic choice. `extractLabelsTest` visits each key once, so its draws are a set of kept keys and a set of spoiled ones.
- Test plumbing (fake clients, informer factories, `wait.PollUntilContextTimeout`, the mutex) is left out. Only the success condition of the poll is modelled (`PassedIff`).
- `MapFromLang` shares the Go map rather than copying it. With value semantics the two cannot be told apart, so the model states only that the view holds the map's pairs.
- `Iterator2` returns a function in Go. Here the callback is a pure function from a caller state to a new state and a go-on flag, and the iterator is run directly.
- Generated deepcopy code, the generated lister and the YAML-decoding command are not part of this model.
- JobFiltering.TrimMap: a Go map iteration deletes keys while iterating. This is modelled as one simultaneous filter, which Go's map semantics make equivalent.
- JobFiltering.CleanJob: the selector is trimmed on a deep copy that is never written back (pkg/transport/filtering/job.go:37-43). The model therefore leaves the selector alone, which is the code's effect even though the code evidently meant to trim it.
- JobFiltering.CleanJob: when no labels are found, a nil map is written back. This is modelled as an empty map. A failing `SetNestedMap` is ignored by the code and leaves the object unchanged, as in the model.
- JobFiltering.LeafOwnedKeyIsDropped: `WithPrefix` returns only the strict children of an element. A label owned only as a leaf therefore narrows to an empty ledger and is deleted. This follows the library as modelled; it is not claimed as a defect.
- TransportHarness.WrapObjects: the verdict's missing pairs hold the expected document, where the test stores its `%#v` rendering (pkg/transport/generic_tranpsort_controller_test.go:236). Only whether that table is empty feeds the success condition, so the rendering is not modelled.
- DownsyncTest.EvalTest: `t.Fatalf` ends the test goroutine, and a nil namespace dereference panics. Both become a `Failure` that stops the whole evaluation.
- DownsyncTest.GetObjectTest: the success guarantee asks for two namespaces and two objects because the namespace selector draws from the namespaces and each pick count can reach two. With fewer, the random ranges may panic, and the model returns that failure.
- Where the design description of the field-ownership projector differs from the code, the model follows the code. The description addresses list elements by their structural identity and trims for one designated manager. The code addresses list elements by position (pkg/transport/filtering/job.go:75) and keeps whatever any manager of the main resource owns (pkg/transport/filtering/job.go:29).

## Findings

| source | as written | input that shows it | evidently intended | confidence | as-written member | corrected member |
|---|---|---|---|---|---|---|
| pkg/binding/controller_test.go:120-143 | every axis check only `continue`s, and after the loop the function returns false, so no test ever reports a match | a ConfigMap "cm-a" in "ns1" against the single rule {resources: [configmaps]} (`MatchesAnyAsWrittenMissesMatch`) | return true at the first test all of whose axis checks pass | not executed | DownsyncTest.MatchesAnyAsWritten (with DownsyncTest.MatchesAnyAsWrittenNeverTrue) | DownsyncTest.MatchesAny (with DownsyncTest.MatchesAnyIff) |
