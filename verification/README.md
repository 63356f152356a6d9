# Verified model of provider-aws reconciliation

provider-aws keeps AWS resources in step with Kubernetes objects. This project models
the parts of it that compute rather than forward calls, and proves what the rest of the
provider relies on.

- **Tag and label diffs** (`EditScripts`, `LabelDiff`, `EC2TagDiff`). The remote side is a
  store that changes by single-key puts and deletes. `DiffLabels` is shown to be a
  shortest edit script, and its orderings to be the only shortest ones. `DiffTags`
  reconciles may be cut off anywhere and repeated without harm. `DiffEC2Tags` is
  described exactly on all lists, with nil pointers and repeated keys, together with the
  exact conditions under which it converges and under which it refines `DiffLabels`.
- **Tag comparison** (`TagCompare`, `TagReconcile`). `CompareTags` sorts both slices in
  place and compares them by position. It is related to equality of entries and of maps
  for every way an unstable sort may order ties, and to emptiness of the diff. The last
  theorems run observe, compare, diff and apply as one loop, in which the comparison
  sorts the very list that is diffed next.
- **Reference resolution** (`Resolution`, `RouteTables`, `SecurityGroups`). Both
  `ResolveReferences` methods are one pass over flattened slots that stops at the first
  error. Retrying keeps the first answer each slot was given, and converges.
- **Deep copy** (`GoHeap`, `RouteSDKs`, `RouteSDKFields`). `Route_SDK.DeepCopyInto`, all thirteen fields, on
  a heap of cells, arrays and map objects: new objects only, no sharing, equal value,
  untouched source.

Conventions. A Go string is a sequence of bytes. A pointer that is only read or replaced
is an `Option`; in the deep-copy modules a pointer is a reference. A `range` over a Go map
picks any remaining key, so results hold for every iteration order. `sort.Slice` is an
in-place sort of which callers use only that it permutes into key order. A nil
dereference is the outcome `Panicked`.

## Findings

- `CompareTags` against tags as EC2 reports them is true exactly when the desired list has
  distinct keys and both sides stand for the same map (`CompareDecides`). A desired list
  that repeats a tag is therefore never reported up to date, although every further
  update is empty (`RepeatedTagNeverMatches`, `ReconcileLoop`).
- Observing sorts the desired list in place, and the update diffs the sorted list, in which
  the last entry of a key wins. When a key carries two values, the contract of `sort.Slice`
  permits either to be put last, so a round may replace the value that was right
  (`SortUndoesATag`). The reconcile loop is safe on all stores and all runs if and only if
  no desired key carries two values (`ReconcileLoopSafeIff`); sorting keeps the desired map
  under the same condition (`SortKeepsMapIff`). Only the order of ties matters: with stable
  sorts the loop is safe for all desired lists (`StableSortsAreSafe`).
- `DiffEC2Tags` deletes a wanted tag, and does not add it back, when the remote list
  repeats its key after an exact match (`RepeatedMatchIsDeleted`). It converges if and
  only if no such repeat occurs (`EC2DiffConvergesIff`).
- Two tag lists with the same entries are certain to compare equal if and only if no key
  carries two values (`SameEntriesCompareEqualIff`, `TieComparesEitherWay`).
- `DeepCopyInto` of a struct into itself loses every pointer target, slice element and map
  entry, because each field is overwritten before it is read; the struct still holds its
  value if and only if there was nothing to lose (`SelfCopyKeepsIffHollow`).

## Model

| member | source | states |
|---|---|---|
| `EditScripts.ShortestScriptsArrangeThePlan` | pkg/clients/aws.go:608-628 | For all stores and all put/delete sequences: a sequence reaches the goal in as few steps as there are differing keys if and only if it lists each key's one fix exactly once, in any order |
| `EditScripts.RunRepairsAtMostLength` | pkg/clients/aws.go:608-628 | No sequence of operations repairs more keys than it has operations |
| `LabelDiff.DiffLabels` | pkg/clients/aws.go:608-628 | For every iteration order: the result holds exactly the desired entries missing or different remotely, and each stale key once |
| `LabelDiff.DiffTags` | pkg/clients/aws.go:559-577 | For every iteration order: as above, but changed keys are removed as well as added |
| `LabelDiff.LabelDiffIsMinimal` | pkg/clients/aws.go:608-628 | Every script turning remote into local is at least as long as the two outputs together; those of that length are exactly the orderings of the outputs |
| `LabelDiff.LabelUpdateShowsOldOrNew` | pkg/clients/aws.go:608-628 | At any point of any ordering of the operations, every key holds its old or its desired value |
| `LabelDiff.TagDiffIsTheTagPlan` | pkg/clients/aws.go:559-577 | The operations asked for are one fix per differing key and a delete per changed key; the overlap of added and removed keys is exactly the changed keys |
| `LabelDiff.TagOrderMatters` | pkg/clients/aws.go:559-577 | An ordering of the operations ends in local if and only if it never deletes a key it has already put |
| `LabelDiff.TagPrefixProgress` | pkg/clients/aws.go:559-577 | After any prefix of such an ordering the wrong keys are exactly those whose fix is still to come; the whole ordering reaches local |
| `LabelDiff.RemovesThenAddsIsDeletesFirst` | pkg/controller/eks/cluster.go:172-182 | Untagging everything before tagging, as the controllers do, is such an ordering |
| `LabelDiff.InterruptedReconcilesAreSafe` | pkg/controller/eks/cluster.go:172-182 | Over any run of re-diffed attempts cut off anywhere, the set of wrong keys only shrinks; one complete attempt makes the store equal local for good |
| `LabelDiff.TagDiffEmptyIffEqual` | pkg/clients/aws.go:559-577 | Both outputs are empty if and only if the maps are equal |
| `LabelDiff.TagDiffDuality` | pkg/clients/aws.go:559-577 | Swapping the arguments exchanges removed and added keys, and the entries left alone are counted alike on both sides |
| `EC2TagDiff.Dropped` | pkg/clients/aws.go:587-597 | The removed positions are increasing, and position i is among them if and only if its key is not wanted or an earlier entry with that key matched exactly |
| `EC2TagDiff.DiffEC2Tags` | pkg/clients/aws.go:580-605 | On all lists: `remove` is the dropped entries in remote order with nil values; `add` lists, with distinct keys and set pointers, exactly the wanted entries no remote entry matches, the last duplicate in local winning |
| `EC2TagDiff.EC2DiffMeans` | pkg/clients/aws.go:580-605 | The same in terms of the two lists alone: added are exactly the local entries that are the last of their key and that no remote entry equals; removed, in remote order and without value, are exactly the entries whose key is not local or was matched by an earlier remote entry |
| `EC2TagDiff.NilEntryIsEmpty` | pkg/clients/aws.go:584-589 | A nil key or value reads as the empty string, also in the map a list stands for |
| `EC2TagDiff.NilMatchesEmpty` | pkg/clients/aws.go:587-589 | A wanted empty value against a remote nil value gives an empty diff |
| `EC2TagDiff.EC2DiffConvergesIff` | pkg/clients/aws.go:580-605 | Applying the diff in any order reaches the wanted map if and only if no remote entry repeats a key after an exact match |
| `EC2TagDiff.EC2DiffRefinesLabelDiffIff` | pkg/clients/aws.go:580-628 | The outputs are those of `DiffLabels` on the corresponding maps if and only if no remote entry repeats a key after a matching or unwanted entry |
| `EC2TagDiff.EC2DiffEmptyIff` | pkg/clients/aws.go:580-605 | Both outputs are empty if and only if the maps agree and nothing repeats after an exact match |
| `EC2TagDiff.RepeatedMatchIsDeleted` | pkg/clients/aws.go:587-597 | A wanted tag reported twice is gone after the update |
| `GoValues.Trichotomy` | apis/ec2/v1beta1/common.go:77-83 | The order used for sorting is total and strict |
| `GoValues.Transitive` | apis/ec2/v1beta1/common.go:77-83 | The order used for sorting is transitive |
| `GoValues.LessIsFirstDifference` | apis/ec2/v1beta1/common.go:77-83 | One string is below another if and only if it has the lower byte at the first difference or is a proper prefix |
| `GoValues.NilReadsEmpty` | pkg/clients/aws.go:584-589 | A nil string pointer reads as the empty string, any other as its target |
| `TagCompare.SortByKey` | apis/ec2/v1beta1/common.go:77-83 | In place: a permutation in key order, or a panic on a nil key when there are two entries or more |
| `TagCompare.SortTags` | apis/ec2/v1beta1/common.go:76-84 | Both slices are permuted in place into key order; it panics if and only if an EC2 key is nil and there are at least two EC2 tags |
| `TagCompare.SortedMeans` | apis/ec2/v1beta1/common.go:76-84 | Sorted means ascending by key, with equal keys in any order, and no nil key unless it is the only entry |
| `TagCompare.CompareTags` | apis/ec2/v1beta1/common.go:59-73 | The result is one that some key-ordered arrangement of the two lists gives; both slices keep their entries and end up sorted, and lists of different lengths are left alone |
| `TagCompare.ScanMeans` | apis/ec2/v1beta1/common.go:66-72 | The positional scan is true exactly when all positions agree; it panics exactly when the first position that does not agree has a nil key, or an equal key and a nil value |
| `TagCompare.CompareMeans` | apis/ec2/v1beta1/common.go:59-73 | On all inputs: false for different lengths; a panic if some EC2 key is nil; otherwise what the scan of some sorted arrangements gives, nil values included |
| `TagCompare.CompareIsSound` | apis/ec2/v1beta1/common.go:59-73 | Without nil pointers it returns, and true only for equal multisets of key-value pairs |
| `TagCompare.CompareIsComplete` | apis/ec2/v1beta1/common.go:59-73 | Equal multisets with one value per key always give true, however ties are sorted |
| `TagCompare.SortedArrangementIsUnique` | apis/ec2/v1beta1/common.go:76-84 | Two key-sorted arrangements of the same entries with one value per key are identical |
| `TagCompare.GenerateEC2Tags` | apis/ec2/v1beta1/common.go:50-56 | A new slice with both pointers set in every entry |
| `TagCompare.BuildFromEC2Tags` | apis/ec2/v1beta1/common.go:37-47 | Nil exactly for an empty list, otherwise a new slice with nil pointers read as empty strings |
| `TagCompare.ConversionsUndoEachOther` | apis/ec2/v1beta1/common.go:37-56 | Build undoes generate; generate after build is the identity if and only if all pointers are set, is idempotent, and never changes the map the list stands for |
| `TagReconcile.CompareIgnoresOrder` | apis/ec2/v1beta1/common.go:59-84 | The possible results do not depend on the order of either input, so not on earlier calls either |
| `TagReconcile.SameEntriesCompareEqualIff` | apis/ec2/v1beta1/common.go:59-84 | Lists with the same entries always compare equal if and only if no key carries two values |
| `TagReconcile.CompareDecides` | apis/ec2/v1beta1/common.go:59-84 | For remote lists with set pointers and distinct keys: true exactly when the desired keys are distinct and both lists stand for the same map |
| `TagReconcile.CompareAgreesWithDiff` | apis/ec2/v1beta1/common.go:50-73 | For such remote lists: true exactly when the desired keys are distinct and the diff of the generated tags is empty |
| `TagReconcile.RepeatedTagNeverMatches` | apis/ec2/v1beta1/common.go:59-73 | A tag desired twice compares unequal to the same tag reported once, while the diff of the two is empty |
| `TagReconcile.TieComparesEitherWay` | apis/ec2/v1beta1/common.go:59-84 | A list with two values for one key, compared with itself, may give true and may give false |
| `TagReconcile.SortKeepsMapIff` | apis/ec2/v1beta1/common.go:76-84 | All key-sorted arrangements of a list stand for the map the list stands for if and only if no key carries two values |
| `TagReconcile.FinishedUpdate` | pkg/controller/ec2/natgateway/controller.go:171-189 | For all desired lists: an update that is not cut off makes the tags those of the list as observing left it, and is empty if they are already |
| `TagReconcile.SafeIfSortsKeepMap` | pkg/controller/ec2/natgateway/controller.go:122-189 | For all desired lists, over any run of rounds, each cut off anywhere, in which every sort keeps the map the list stands for: wrong tags only disappear; after a round that settles, the tags are the desired ones, updates are empty, and the comparison is true if and only if the desired keys are distinct |
| `TagReconcile.StableSortsAreSafe` | pkg/controller/ec2/natgateway/controller.go:122-189 | For all desired lists, the same over any run in which entries with equal keys keep their order |
| `TagReconcile.ReconcileLoop` | pkg/controller/ec2/natgateway/controller.go:122-189 | With one value per desired key, the same over any run, however ties are sorted |
| `TagReconcile.ReconcileLoopSafeIff` | pkg/controller/ec2/natgateway/controller.go:122-189 | All of that holds on all stores and all runs if and only if no desired key carries two values |
| `TagReconcile.SortUndoesATag` | pkg/controller/ec2/natgateway/controller.go:122-189 | At desired `a=v1, a=v2` and remote `a=v2, b=v1`, there is a round, finished after a sort that swaps the two, that leaves `a=v1`, although the desired map is `a=v2` |
| `Resolution.FirstFailure` | apis/ec2/v1beta1/referencers.go:126-192 | All requests before the returned slot are answered and the one at it, if any, fails |
| `Resolution.RetriesKeepFirstAnswers` | apis/ec2/v1beta1/referencers.go:126-192 | After any passes, failed or not, by resolvers that may all answer differently but leave earlier answers alone, each slot holds the first answer it was ever given, to its original request, or is untouched |
| `Resolution.RetriesConverge` | apis/ec2/v1beta1/referencers.go:126-192 | Passes ending in a success leave what one successful pass would whose resolver gives those first answers, hence what any agreeing successful resolver would; no later pass changes anything |
| `Resolution.StableIffRespected` | apis/ec2/v1beta1/referencers.go:126-192 | For resolvers that never fail: a second pass leaves all results of the first alone if and only if it leaves the first one's answers alone when asked about them |
| `Resolution.RetriedResolutionConverges` | apis/ec2/v1beta1/referencers.go:66-192 | For every kind of resource whose slots and unresolved fields are the whole of it, route tables and security groups among them: over any run of calls, each with a resolver of its own that only has to leave earlier answers alone, a success leaves exactly what one successful call on the original would that gives each slot its first answer; later calls, failing or not, change nothing |
| `RouteTables.RouteTable.ResolveReferences` | apis/ec2/v1beta1/referencers.go:126-192 | The three loops equal one pass over VPC, gateways, NAT gateways and subnets; an error names its slot, and all other fields and list lengths are unchanged |
| `RouteTables.VPCLeft` | apis/ec2/v1beta1/referencers.go:129-142 | Request 0 asks for a VPC with the original ID (empty for nil), reference and selector; its answer is written, or the error names the VPC |
| `RouteTables.GatewayLeft` | apis/ec2/v1beta1/referencers.go:144-158 | Request 1 + i asks for an internet gateway with the fields of route i; its answer is written unless it or an earlier request fails, and then the fields are unchanged and an error naming them is that request's |
| `RouteTables.NATGatewayLeft` | apis/ec2/v1beta1/referencers.go:160-174 | Likewise for NAT gateways, after all internet gateways |
| `RouteTables.SubnetLeft` | apis/ec2/v1beta1/referencers.go:176-190 | Likewise for the subnets of the associations, last |
| `RouteTables.RestLeft` | apis/ec2/v1beta1/referencers.go:126-192 | No field but those values and references changes, the lists keep their lengths, and an error names an existing field |
| `RouteTables.ViewDetermines` | apis/ec2/v1beta1/routetable_types.go:163-195 | No two parameters have the same slots and unresolved fields, so the theorem on retried calls applies |
| `SecurityGroups.SecurityGroup.ResolveReferences` | apis/ec2/v1beta1/referencers.go:66-102 | The nested loop equals one pass over the VPC and all pairs; an error names its rule and pair; egress rules, shapes and other fields are unchanged |
| `SecurityGroups.VPCLeft` | apis/ec2/v1beta1/referencers.go:69-81 | Request 0 asks for a VPC with the original ID (empty for nil), reference and selector; its answer is written, an empty one as nil, or the error names the VPC |
| `SecurityGroups.PairLeft` | apis/ec2/v1beta1/referencers.go:83-99 | The request after those for the VPC and all earlier pairs asks for a VPC with the fields of pair (i, j); its answer is written, an empty one as nil, unless it or an earlier request fails, and then the pair is unchanged and an error naming it is that request's |
| `SecurityGroups.RestLeft` | apis/ec2/v1beta1/referencers.go:66-102 | No field but those values and references changes, rules and pairs keep their number, and an error names an existing pair |
| `SecurityGroups.ViewDetermines` | apis/ec2/v1beta1/securitygroup_types.go:27-69 | No two parameters have the same slots and unresolved fields, so the theorem on retried calls applies |
| `SecurityGroups.PositionsAreLexicographic` | apis/ec2/v1beta1/referencers.go:83-99 | Slot positions run through the (rule, pair) indices in lexicographic order |
| `SecurityGroups.PairAt` | apis/ec2/v1beta1/referencers.go:83-99 | Each pair sits at its position among the slots |
| `GoHeap.FillSlice` | apis/apigatewayv2/v1alpha1/zz_generated.deepcopy.go:3237-3247 | The new slice holds the source's values in new cells, one per non-nil element; filled from itself it stays all nil |
| `GoHeap.FillStrMap` | apis/apigatewayv2/v1alpha1/zz_generated.deepcopy.go:3268-3282 | The new map has the source's keys and values, nil for nil, with a new cell per entry |
| `RouteSDKs.ParameterConstraints.DeepCopyInto` | apis/apigatewayv2/v1alpha1/zz_generated.deepcopy.go:2715-2722 | The copy's pointer is nil or new and holds the source's value, or the zero value when copied into itself |
| `RouteSDKs.CopyMap` | apis/apigatewayv2/v1alpha1/zz_generated.deepcopy.go:3288-3300 | A map of struct pointers is copied into new objects that no two entries share |
| `RouteSDKs.FillMapSlice` | apis/apigatewayv2/v1alpha1/zz_generated.deepcopy.go:3283-3303 | The slice of maps of struct pointers is copied, nil elements kept, no object shared between elements |
| `RouteSDKs.RouteSDK.DeepCopyInto` | apis/apigatewayv2/v1alpha1/zz_generated.deepcopy.go:3225-3324 | Everything reachable from the copy is new and reachable in one way only, its value is the source's, and the source is unchanged; when in and out are one struct, the exact hollow value that writing each field before reading it leaves |
| `RouteSDKs.RouteSDK.DeepCopy` | apis/apigatewayv2/v1alpha1/zz_generated.deepcopy.go:3327-3334 | Nil for nil, otherwise a new struct of equal value made of new objects |
| `RouteSDKFields.PlainPointersCopied` | apis/apigatewayv2/v1alpha1/zz_generated.deepcopy.go:3225-3324 | Each of the ten plain pointers of a copy is nil where the source's is, and otherwise leads to an object of the copy's own with the same content |
| `RouteSDKFields.ScopesCopied` | apis/apigatewayv2/v1alpha1/zz_generated.deepcopy.go:3237-3247 | The slice of strings is nil for nil, and otherwise of the same length with such pointers |
| `RouteSDKFields.ModelsCopied` | apis/apigatewayv2/v1alpha1/zz_generated.deepcopy.go:3268-3282 | The map of strings is nil for nil, and otherwise has the same keys, with such pointers |
| `RouteSDKFields.ParametersCopied` | apis/apigatewayv2/v1alpha1/zz_generated.deepcopy.go:3283-3303 | The slice of maps is nil for nil, and otherwise new and of the same length |
| `RouteSDKFields.ParameterMapCopied` | apis/apigatewayv2/v1alpha1/zz_generated.deepcopy.go:3283-3303 | Each of its maps is nil for nil, and otherwise has the same keys; each struct is nil for nil, and otherwise the copy's own, as is what its pointer leads to, with the same content |
| `RouteSDKFields.PlainPointersUnshared` | apis/apigatewayv2/v1alpha1/zz_generated.deepcopy.go:3225-3324 | No two plain pointers of a copy lead to one object |
| `RouteSDKFields.ScopesUnshared` | apis/apigatewayv2/v1alpha1/zz_generated.deepcopy.go:3237-3247 | No two scopes do, nor a scope and a plain pointer |
| `RouteSDKFields.ModelsUnshared` | apis/apigatewayv2/v1alpha1/zz_generated.deepcopy.go:3268-3282 | No two models do, nor a model and a plain pointer or scope |
| `RouteSDKFields.ParametersUnshared` | apis/apigatewayv2/v1alpha1/zz_generated.deepcopy.go:3283-3303 | No map, struct or struct pointer's target occurs twice, within a map, between maps or among the flags |
| `RouteSDKFields.SelfCopyEmpties` | apis/apigatewayv2/v1alpha1/zz_generated.deepcopy.go:3225-3324 | After a struct is copied into itself every pointer that was set leads to false or the empty string, slices keep their length with nil elements, and maps that were set are empty |
| `RouteSDKFields.EveryStructHolds` | apis/apigatewayv2/v1alpha1/zz_generated.deepcopy.go:3225-3324 | Every struct is made of some objects and has a value, so the copy is specified for all structs |
| `RouteSDKs.SelfCopyKeepsIffHollow` | apis/apigatewayv2/v1alpha1/zz_generated.deepcopy.go:3225-3324 | A struct left by copying it into itself still holds its old value if and only if there was nothing in it to lose |
| `RouteSDKs.HoldsOneValue` | apis/apigatewayv2/v1alpha1/zz_generated.deepcopy.go:3225-3324 | The value a struct holds does not depend on which objects are named as its parts |

## Left out

- Credentials, provider configuration, endpoint resolvers, error wrapping and start-up wiring: calls into Kubernetes, the AWS SDK and the environment.
- `CreateJSONPatch` and `CompactAndEscapeJSON`: the work is done by libraries.
- `String`, `StringValue` as an operation of its own and the `LateInitialize` family: one or two branches each, they would only add easy members.
- The remaining `ResolveReferences` methods: the same request and write without loops.
- The reference resolver itself: it is not part of this repository, so it is an arbitrary function of the call number and the request; the retry theorems state what they need, that a resolver asked about a value already resolved leaves it alone.
- `Stage_SDK`, `RouteResponse_SDK`, `StageParameters` and the other deep copies: the same generated blocks on other structs; in particular a struct pointer held directly in a field, as in `Stage_SDK`, is modelled only as the entry of a map.
- RouteSDKs.RouteSDK.DeepCopyInto: the ten plain pointers sit in three records, in field order; the entries of a map and the elements of a slice of maps are put together in a local before they are stored, which no other code can observe.
- RouteTables.RouteTable.ResolveReferences: the lists are values that the method reassigns, so slices sharing a backing array are not modelled; nor are the formatted error texts, only the path and the cause.
- SecurityGroups.SecurityGroup.ResolveReferences: the same two simplifications.
- TagReconcile.ReconcileLoop: promises nothing for desired lists in which a key carries two values, because the loop is not safe on them (`ReconcileLoopSafeIff`); `SafeIfSortsKeepMap` covers them as far as it is. No other writer changes the tags between the two descriptions of a round, and EC2 is taken to report every tag once with both pointers set.
- Batching of AWS requests: a request is any sequence of its single-key operations, and may stop anywhere.
