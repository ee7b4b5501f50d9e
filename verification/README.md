# io-ts error reshaping, modelled in Dafny

io-ts reports a failed decode as a flat list of `ValidationError`s. Each entry carries a
*context*: the path of `{ key, actual, type }` entries from the root value down to the failing
leaf, plus an optional message. This project models the two converters between that list and
the schema-shaped `DecodeError` value.

- `toDecodeError` (src/toDecodeError.ts) turns each context into a single-branch tree. It merges
  the trees on (codec identity, key), keeping first-seen order. It then converts the merged tree
  node by node. A node with children is classified by its codec's `_tag` into an empty shell
  (`LabeledProduct`, `IndexedProduct`, `Or`, `And` or `Leaf`), and the shell is filled from the
  children. `Exact`, `Readonly` and `Recursive` wrappers take the shell of the codec they wrap,
  under their own name. A node without children is a `Leaf`.
- `toErrors` (src/toErrors.ts) walks a `DecodeError` back to the flat list. It starts from a
  root entry with key `""`. At each step it re-derives the child's codec from the parent codec:
  - a dictionary's domain or codomain, chosen by name;
  - a declared property;
  - a tuple component or an array element;
  - the first union or intersection member carrying the child's name.

  It appends one entry per step and emits one report per `Leaf`.

Files and their modules:

| file | module | models |
|---|---|---|
| wrappers.dfy | `Wrappers` | `Option`, for properties that may be `undefined` |
| codecs.dfy | `Codecs` | the codec tags the converters read; `Base` peels off wrappers |
| validation.dfy | `Validation` | context entries and flat reports |
| index_keys.dfy | `IndexKeys` | `String(n)` and `+key` for index keys |
| decode_error.dfy | `DecodeErrors` | the `DecodeError` variants, field assignment, leaves |
| error_tree.dfy | `ErrorTree` | chain trees, merging, `toTree` |
| conversion.dfy | `Conversion` | `getRoot` and the conversion of the merged tree |
| field_assignment.dfy | `KeyIndex`, `FieldAssignment` | where a key first and last appears among the children; which child each converted field holds, and the key order |
| flatten.dfy | `Flatten` | `toErrors` / `visit`, as written and corrected |
| round_trip.dfy | `RoundTrip` | the single-report round trip and the two counterexamples |
| tree_walk.dfy | `TreeWalk` | walking back the conversion of a whole merged tree |
| scenarios.dfy | `Scenarios` | a union and an interface example of the converter's tests |

Codec identity (`===`) is an explicit `id` on every codec. The value under test (`actual`) is
a type parameter `A` that the model never inspects. The in-place array updates of the merge
are pure functions that return the new forest.

`toErrors` is modelled twice. `Flatten.ToErrorsAsWritten` unwraps a wrapper codec only where
the source does: for a `LabeledProduct` under any wrapper, and for an `And` under `Exact`.
`Flatten.ToErrors` unwraps a wrapper under every compound error, and the round-trip theorem is
proved for that version (see Findings). The walk returns `None` where the source throws: it
reads `props[key]` of a codec without `props`, or `types` of a codec without `types`. It also
returns `None` where a lookup in the source yields `undefined`: an undeclared key, a member
index of -1, an out-of-range tuple index, or the `type` of a codec that has none.

## Model

| member | source | states |
|---|---|---|
| IndexKeys.NatString | src/toErrors.ts:39 | `String(index)` is a non-empty digit string with no leading zero |
| IndexKeys.NumericKeyOfNatString | src/toDecodeError.ts:111 | `+key` reads back the index that `String(index)` spelled, so index keys survive the round trip |
| DecodeErrors.Put | src/toDecodeError.ts:106-108 | assigning `errors[key]` adds the key to the key set. An existing key keeps its position and takes the new value; a new key goes last. Other fields are unchanged and keys stay unique |
| DecodeErrors.PutLeaves | src/toDecodeError.ts:106-108 | assigning a field adds at most the assigned error's failures to the object, because an overwritten field loses its old ones |
| ErrorTree.FromContext | src/toDecodeError.ts:28-39 | the tree built from a context is single-branch, and its depth is the context length |
| ErrorTree.FromContextSpine | src/toDecodeError.ts:18-39 | node i of the chain carries entry i's key, value and codec. The message sits on the last node only; every other node has none |
| ErrorTree.FromError | src/toDecodeError.ts:41-43 | a report becomes a single-branch tree as deep as its context |
| ErrorTree.IndexOfSlot | src/toDecodeError.ts:46-48 | the result is the first index whose node has the same codec identity and key, or -1 exactly when there is none |
| ErrorTree.ConcatTree | src/toDecodeError.ts:45-55 | the forest grows by at most one and existing nodes keep their values and order. With no matching slot the tree is appended at the end; otherwise the length is unchanged and every tree except the first match is untouched |
| ErrorTree.ConcatForest | src/toDecodeError.ts:57-61 | merging a forest keeps the existing nodes' values and order and adds at most one tree per merged tree |
| ErrorTree.ConcatTreeIdempotent | src/toDecodeError.ts:45-61 | merging the same chain twice gives the forest that merging it once gives |
| ErrorTree.ConcatTreeLeaves | src/toDecodeError.ts:45-61 | merging one report's chain adds at most one childless node to the forest: it becomes a new sibling or extends one existing path |
| ErrorTree.MergeAll | src/toDecodeError.ts:65-67 | folding the later reports into the forest never changes the values of nodes already there |
| ErrorTree.ToTree | src/toDecodeError.ts:63-69 | the root carries the key, value and codec of the first report's first entry, and its message only when that context has one entry |
| ErrorTree.ToTreeLeaves | src/toDecodeError.ts:63-69 | the merged tree has at most one childless node per report |
| ErrorTree.ToTreeSnoc | src/toDecodeError.ts:63-69 | a further report whose root shares the slot of the tree's root is merged into the root's children. Any other report is a sibling and leaves the returned tree unchanged |
| Conversion.GetRoot | src/toDecodeError.ts:71-96 | the shell is empty, carries the given value, and is named after the codec itself. Its variant is the one the codec under all wrappers induces. A `Leaf` shell keeps the message |
| Conversion.Convert | src/toDecodeError.ts:99-126 | every error carries its node's value and codec name. A childless node is `Leaf(actual, codec.name, message)` whatever the tag. A branching node gets the variant of its unwrapped codec. `IndexedProduct`, `Or` and `And` have one entry per child in forest order, headed by that child, with `+key` as the index. `LabeledProduct` keys are unique and are exactly the children's keys |
| Conversion.ConvertChildren | src/toDecodeError.ts:110-116 | `IndexedProduct` element i is `[+key, toDecodeError(child i)]`, and `Or` / `And` member i is `toDecodeError(child i)` |
| Conversion.ConvertFields | src/toDecodeError.ts:105-109 | filling a `LabeledProduct` keeps keys unique and adds at most one field per child |
| Conversion.ConvertFieldsKeys | src/toDecodeError.ts:105-109 | the keys afterwards are the keys already present plus the children's keys |
| FieldAssignment.ConvertFieldsKeeps | src/toDecodeError.ts:105-109 | the fields already present keep their positions and keys |
| FieldAssignment.ConvertFieldsLast | src/toDecodeError.ts:105-109 | a key that some child carries holds the conversion of the last child with that key. Any other field is a field already present, unchanged and in place |
| FieldAssignment.ConvertFieldsNew | src/toDecodeError.ts:105-109 | the fields appended after the existing ones carry new keys, each carried by some child |
| FieldAssignment.ConvertFieldsOrder | src/toDecodeError.ts:105-109 | the appended keys come in the order in which the children first carry them |
| FieldAssignment.ConvertLabeled | src/toDecodeError.ts:104-109 | a converted `LabeledProduct` has one field per distinct child key, in first-seen order. Each field holds the conversion of the last child with that key |
| Conversion.ConvertLeaves | src/toDecodeError.ts:99-126 | the converted error has at most one leaf per childless node of the tree; a repeated field key loses the earlier child's leaves |
| Conversion.ToDecodeError | src/toDecodeError.ts:98-128 | the resulting error carries the first report's root value and root codec name |
| Conversion.ToDecodeErrorLeaves | src/toDecodeError.ts:98-128 | `toDecodeError` produces at most as many leaf failures as it was given reports |
| Flatten.IndexOfName | src/toErrors.ts:44 | the result is the first member carrying the name, or -1 exactly when no member does, so the first of several equal names always wins |
| Flatten.Walk | src/toErrors.ts:14-61 | the reports are the error's leaves, one per leaf, in order, with the leaf's value and message. Each context extends the starting context by one entry per level of nesting, so wrappers add none. Each added entry has the child's value and the key and codec read from its parent's codec. A field takes its key and the dictionary domain (when the child is named after it), else the codomain, or the declared property. An element takes `String(index)` and the tuple component, the array element or the wrapped codec. A member takes the index of the first member with its name, and that member. As written, fields see through every wrapper, elements and `Or` members read the parent itself, and `And` members see through `Exact` only. This describes the walk whenever it returns; `TreeWalk.WalkTree` proves it returns on the conversion of any re-derivable merged tree |
| Flatten.WalkFields | src/toErrors.ts:24-33 | the fields emit their leaves in insertion order, one level below the current context. Each field's entry has the field key, the child's value, and the domain or codomain (dictionary) or the declared property (interface, partial). This describes the walk whenever it returns; `TreeWalk.WalkTree` proves it returns on the conversion of any re-derivable merged tree |
| Flatten.WalkElements | src/toErrors.ts:36-41 | the elements emit their leaves in order, one level below the current context. Each element's entry has `String(index)`, the child's value, and the tuple component, the array element or the wrapped codec. This describes the walk whenever it returns; `TreeWalk.WalkTree` proves it returns on the conversion of any re-derivable merged tree |
| Flatten.WalkMembers | src/toErrors.ts:42-58 | the members emit their leaves in order, one level below the current context. Each member's entry has the index of the first member of `types` with the child's name, that member, and the child's value. This describes the walk whenever it returns; `TreeWalk.WalkTree` proves it returns on the conversion of any re-derivable merged tree |
| Flatten.ToErrorsAsWritten | src/toErrors.ts:12-64 | as the source handles wrappers: one report per leaf, each context starting with the root entry (key `""`, the error's value, the given codec) and continuing with one entry per level, each read from its parent's codec as for `Walk`. This describes the walk whenever it returns; `TreeWalk.WalkTree` proves it returns on the conversion of any re-derivable merged tree |
| Flatten.ToErrors | src/toErrors.ts:12-64 | with wrappers seen through at every step: one report per leaf, each context starting with the root entry and continuing with one entry per level, each read from its parent's codec under all its wrappers. This describes the walk whenever it returns; `TreeWalk.WalkTree` proves it returns on the conversion of any re-derivable merged tree |
| Flatten.AsWrittenLabeledSeesThroughWrappers | src/toErrors.ts:20-23 | a `LabeledProduct` under any stack of wrappers is walked as under the codec beneath them, with no entry added |
| Flatten.AsWrittenAndSeesThroughExact | src/toErrors.ts:50-53 | an `And` under any stack of `Exact` wrappers is walked as under the codec beneath them |
| Flatten.AsWrittenMembersUnderWrapper | src/toErrors.ts:42-57 | an `Or` under any wrapper, or an `And` under `Readonly` or `Recursive`, fails, because the wrapper has no `types` |
| Flatten.CorrectedSeesThroughWrappers | src/toErrors.ts:20-23 | in the corrected walk every compound error under any stack of wrappers is walked as under the codec beneath them |
| RoundTrip.WalkChain | src/toErrors.ts:14-61 | walking the conversion of a chain suffix from its prefix emits the whole report once, when every step is derivable |
| RoundTrip.RoundTripChain | src/toDecodeError.ts:98-128 | one report rooted at key `""` comes back unchanged from `toErrors(toDecodeError([report]), rootCodec)` when `toErrors` can re-derive every step. A step can be re-derived when its codec is, under the parent's wrappers, one of these: the dictionary's domain if named like it, else its codomain; the declared property; the tuple component or array element at its index key; or the first union or intersection member with its name |
| RoundTrip.RoundTripChainAsWritten | src/toErrors.ts:12-64 | the as-written walk also returns one report unchanged, when every step is derivable and every codec above a step is either no wrapper, a wrapper over a dictionary, interface or partial, or `Exact` wrappers over an intersection |
| RoundTrip.ReportsNeverMultiply | src/toErrors.ts:12-64 | for any non-empty report list and any root codec, `toErrors(toDecodeError(errors), codec)` returns at most as many reports as it was given, in both the as-written and the corrected walk |
| RoundTrip.RecursiveArrayCounterexample | src/toErrors.ts:36-41 | under `Recursive(List, Array<string>)`, the as-written walk records the array codec as the element's codec; the corrected walk returns the report |
| RoundTrip.ReadonlyIntersectionCounterexample | src/toErrors.ts:49-58 | under `Readonly` over an intersection, the as-written walk fails; the corrected walk returns the report |
| TreeWalk.ConvertDistinctFields | src/toDecodeError.ts:105-109 | children with distinct keys, none already present, become fields appended in forest order, each holding its own conversion |
| TreeWalk.TreeReportsCount | src/toErrors.ts:16-18 | the reports a tree stands for are one per childless node |
| TreeWalk.WalkTree | src/toErrors.ts:14-61 | walking the conversion of a tree against its root codec succeeds whenever every step can be re-derived. Re-derivable means every child is a `ChildOf` step from its parent, labeled siblings have distinct keys, and (as written) every branching codec is one the source sees through. The result is exactly the tree's reports: one per childless node, depth first, with the entries from the root down to it |
| TreeWalk.WalkTreeFields | src/toErrors.ts:24-33 | any number of re-derivable fields are all walked, in order, each contributing its subtree's reports |
| TreeWalk.WalkTreeElements | src/toErrors.ts:36-41 | any number of re-derivable elements are all walked, in order, each under `String(+key)`, which is its key |
| TreeWalk.WalkTreeMembers | src/toErrors.ts:42-58 | any number of `Or` / `And` members found by name are all walked, in order |
| TreeWalk.RoundTripTree | src/toDecodeError.ts:98-128 | for any report list rooted at key `""` whose merged tree is re-derivable, `toErrors(toDecodeError(errors), rootCodec)` succeeds. It returns exactly the merged tree's reports, one per childless node, which is at most `errors.length` |
| TreeWalk.RoundTripTreeAsWritten | src/toErrors.ts:12-64 | the same for the as-written walk, when every branching codec of the merged tree is one the source sees through |
| Scenarios.UnionScenario | test/toDecodeError.ts:57-64 | the two failures of `"a"` against a boolean / `NumberFromString` union become one `Or` with both leaves in report order, and walking it back returns both reports |
| Scenarios.LabeledScenario | test/toDecodeError.ts:84-92 | decoding `{}` against a `t.type` with properties `a`, `b`, `c` gives three reports. They become `labeledProduct({}, 'TypeLabeledProduct', { a, b, c })` with three leaves, and both walks return all three reports |

## Left out

- The codec framework (decoding, encoding, `is`, the schema constructors) and the
  `DecodeError` constructor module are not part of this model. Codecs are plain values that
  carry a tag, a name, an id and their children.
- Recursive codecs whose `type` getter leads back to the codec itself cannot be represented:
  codecs are finite values. A recursion is modelled by unfolding it as deep as the errors reach.
- Codec identity is `id` equality. Two codec values with the same `id` are taken to be the
  same object.
- `Object.keys` lists integer-like keys first. The model lists `LabeledProduct` fields in
  insertion order.
- `+key` on a key that is not a plain digit string (NaN, or forms such as `"1e2"` in the
  source) is -1. A tuple lookup at -1 fails, and `String(-1)` is `"-1"` rather than `"NaN"`.
- A child codec lookup that yields `undefined` makes the whole walk `None`. Such a lookup is an
  undeclared property, a member index of -1, an out-of-range tuple index, or the `type` of a
  codec that has none. In the source, a `Leaf` below such a step is still emitted, with an
  `undefined` codec in its context, and a compound error there throws. Where the source itself
  throws, `None` is exact: `props[key]` on a codec without `props` (src/toErrors.ts:31), and
  `types.findIndex` on a codec without `types` (src/toErrors.ts:44, 55).
- An empty report list given to `toDecodeError`, or a report with an empty context, throws in
  the source. Both are preconditions here.
- DecodeErrors.Put: keys are plain strings. In the source, `errors["__proto__"] = ...` sets
  the object's prototype and adds no own key, so that child is lost and `Object.keys` never
  walks it; the model adds it as an ordinary field.
- Flatten.FieldCodec: `codec.props[key]` (src/toErrors.ts:31) also finds inherited members such as
  `toString` when the key is not declared; the model finds declared properties only and
  fails the walk otherwise.
- Refinement codecs are `Other` here. The `IndexedProduct` branch (src/toErrors.ts:38) reads a
  refinement's `type`; the model finds no child codec under one and fails the walk.
- Flatten.Walk: that the walk returns is proved only on the conversion of a re-derivable
  merged tree (`TreeWalk.WalkableTree`), in which every child's codec is the one its parent's
  codec yields for that child. Reports the decoder can produce outside that class are not
  covered. Under a dictionary whose domain and codomain are distinct codecs with the same
  name, a value failure is recorded with the codomain, while the walk back picks the domain.
  Under a union or intersection with two members of the same name, a failure of the later
  member is walked back to the earlier one. A field whose recorded codec name differs from
  its declared property's name is likewise not covered.
- TreeWalk.RoundTripTree: for several reports the walk back returns the reports of the merged
  tree, depth first (`TreeWalk.TreeReports`). That these are the given reports regrouped by
  shared prefix is not proved. Their order depends on the decoder, which is not part of this
  model. The count bound (`RoundTrip.ReportsNeverMultiply`) holds for every report list. The
  union and interface scenarios show the given order coming back in two cases.
- perf/benchmark.ts is an asynchronous benchmark script with console output.

## Findings

| source | as written | input that shows it | evidently intended | confidence | as-written member | corrected member |
|---|---|---|---|---|---|---|
| src/toErrors.ts:36-41 | an `IndexedProduct` takes `codec.type` as the element codec for every non-tuple codec. For a `Readonly` or `Recursive` codec over an array that is the wrapped array codec, not the element codec | one report at path `"0"` under `t.recursion('List', () => t.array(t.string))`: the walk back records `Array<string>` where the report had `string` | see through the wrapper, as the `LabeledProduct` branch does, and then take the array's element codec. `RoundTrip.RoundTripChain` proves the round trip for the corrected walk | not executed | RoundTrip.RecursiveArrayCounterexample | Flatten.ToErrors |
| src/toErrors.ts:42-58 | `Or` reads `codec.types` under any wrapper, and `And` sees through `Exact` only. A `Readonly` or `Recursive` codec has no `types`, so the walk throws | one report under `t.readonly(t.intersection([t.type({ a: t.string }), t.type({ b: t.number })]))`, whose `DecodeError` the converter's own tests build | see through every wrapper, as `getRoot` does when it builds these shells. `RoundTrip.RoundTripChain` proves the round trip for the corrected walk | not executed | RoundTrip.ReadonlyIntersectionCounterexample | Flatten.ToErrors |

Both rows concern wrappers only. `RoundTrip.RoundTripChainAsWritten` proves that the
as-written walk returns a single derivable report unchanged when neither kind of wrapper sits
above an element or member step.
