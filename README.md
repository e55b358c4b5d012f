# schema-saz utilities, modelled in Dafny

schema-saz is a visual JSON Schema editor. Its `src/utils.ts` holds the
logic the editor is built on:

- two resolvers that classify a schema fragment, one choosing the preview
  component (`getSchemaFormatFromSchema`) and one choosing the editing form
  (`getFieldId`);
- the dot-delimited path helpers `generatePath` and
  `accessToObjectFieldByPath`;
- the copy-on-write edits `updateNestedObjectByPath` and
  `deleteNestedPropertyByPath`, which the editor applies to its schemas and
  preview data.

The model has six modules:

- `JsonValues` (json_values.dfy): the JSON values the editor stores, and
  JavaScript truthiness and spreading on them.
- `Paths` (paths.dfy): `path.split('.')`, its inverse `Join`, and
  `generatePath`.
- `Access` (access.dfy): `accessToObjectFieldByPath`, a fold of property
  reads whose outcome is a value, `undefined` or a `TypeError`.
- `Resolvers` (resolvers.dfy): both resolvers, and the first-match decision
  tables they are proved equal to.
- `TreeEdits` (tree_edits.dfy): what the two edits compute, stated as
  functions on values (`SetPath`, `DeletePath`), with their properties:
  read-after-write, the frame, pruning, and deleting an absent target. Each
  level is copied as `{ ...v }` copies it: an object's own entries, a
  string's characters or an array's elements under their index keys, and
  nothing for null, booleans and numbers.
- `ObjectHeap` (object_heap.dfy): the two edits as the code runs them. Objects
  are held by reference (`class Obj` with a mutable `fields` map). Each level
  is copied by spreading, a `current` pointer walks down the copies and, for
  the delete, an explicit stack walks back up. Each method is proved against
  `SetPath` or `DeletePath`:
  - the result's model is the reference edit of the input's model;
  - the input objects are not modified, since the methods modify nothing
    that existed before them;
  - the entries off the first segment are shared with the input by
    reference.

  The object graph's acyclicity is carried by a ghost ranking of the
  objects.

## Model

| member | source | states |
|---|---|---|
| Paths.Split | src/utils.ts:59 | `path.split('.')` yields one more segment than the path has dots, and no segment contains a dot |
| Paths.JoinSplit | src/utils.ts:59 | joining the segments of a split with dots gives back the path, so the split loses nothing |
| Paths.SplitJoin | src/utils.ts:59 | splitting a dot-joined list of dot-free segments gives back exactly those segments |
| Paths.SplitAtDot | src/utils.ts:59 | splitting `a.b` gives the segments of `a` followed by those of `b` |
| Paths.GeneratePath | src/utils.ts:51-56 | the generated path is the parent, then a dot when the parent is non-empty, then the field name, by length and by position; how it splits is `GeneratePathSplits` |
| Paths.GeneratePathSplits | src/utils.ts:51-56 | for every field name, dotted or not: under the root the generated path splits as the field does, otherwise into the parent's segments followed by the field's; a dot-free field adds exactly the one segment |
| Paths.SchemaChildPaths | src/components/SchemaPreview.tsx:327 | the preview's child path `path.properties.name` splits into the parent's segments (none under the root), then `properties`, then the pieces of `name` (just `name` when it has no dot); `path.items` (line 357) adds the one segment `items` |
| Paths.PathExamples | src/utils.ts:51-56 | worked values: `generatePath("", "a")`, `generatePath("a", "b")`, `"a.b.c".split('.')` and `"".split('.') == [""]` |
| Access.ReadKeysAppend | src/utils.ts:59 | folding the reads over `a + b` is folding over `a`, then over `b` from where `a` ended |
| Access.Step | src/utils.ts:59 | one read `o[i]` of the fold throws exactly on undefined or null, and on an object reads a value exactly when the key is an own entry; reads of spread entries are `StepReadsSpread` |
| Access.ReadKeys | src/utils.ts:59 | the fold `reduce((o, i) => o[i])`: once a read throws, or reads undefined with keys still to come, the whole lookup throws a TypeError; how it composes is `ReadKeysAppend` |
| Access.AccessToObjectFieldByPath | src/utils.ts:58-60 | a lookup on null throws, and a dot-free path is a single property read; longer paths are `AccessChildPath` |
| Access.StepReadsSpread | src/utils.ts:71 | every entry the spread `{ ...v }` copies out of a value is what `v[key]` reads, for objects, arrays and strings alike |
| Access.AccessChildPath | src/utils.ts:58-60 | for every field name, dotted or not, looking up `generatePath(p, f)` reads the pieces of `f` from the lookup of `p`, or is the lookup of `f` when `p` is empty; a dot-free `f` is one more property read |
| Access.AccessObjectExample | src/utils.ts:58-60 | `a.b` reads through nested objects to the leaf |
| Access.AccessArrayExample | src/utils.ts:58-60 | a numeric segment reads an array element |
| Access.AccessLengthExample | src/utils.ts:58-60 | a `length` segment reads the length of a string |
| Access.AccessMissingExamples | src/utils.ts:58-60 | a missing key reads as undefined, and one more read past it throws |
| JsonValues.Truthy | src/utils.ts:71 | the test `current[key] ? … : {}`: every value is truthy except null, `false`, `0` and `""`, and a falsy value spreads to no entries, so `{}` and `{ ...current[key] }` agree on it |
| JsonValues.Child | src/utils.ts:71 | `current[key]` on a container's entries: the entry when present, and otherwise a falsy value that spreads to no entries, standing for undefined |
| JsonValues.IndexKey | src/utils.ts:71 | the key an element is spread under is a canonical numeral that a read parses back to the element's index (`ArrayIndex`, the decimal value `DecimalValue` of a numeral without a leading zero) |
| JsonValues.SpreadIndexedEntries | src/utils.ts:71 | spreading a sequence holds each element under its index key and nothing but those keys |
| JsonValues.Fields | src/utils.ts:71 | `{ ...v }` copies an object's own entries, and nothing out of null, booleans, numbers, `""` and `[]`; an array spreads through `SpreadIndexed` and a string through `SpreadIndexed` of its `Characters`, whose entries are `SpreadEntries` |
| JsonValues.SpreadEntries | src/utils.ts:92 | spreading an array holds each element, and spreading a string each character, under its index key, and no key that is not an index |
| Resolvers.StringMember | src/utils.ts:21-48 | `schema?.type === t` and `schema?.format === t`: for every string `t`, the comparison holds exactly when the member is the string `t` |
| Resolvers.MemberIsRead | src/utils.ts:20-48 | `schema?.name`, for a name that is neither `length` nor an index, is the lookup's own property read `o[name]`: a member exactly when the read gives a value, and the same value; on null `?.` gives undefined where the read throws |
| Resolvers.ResolverMembersAreReads | src/utils.ts:20-48 | the `type`, `format` and `enum` members the resolvers compare are found exactly where the property read finds a value |
| Resolvers.NumeralPositive | src/utils.ts:20 | a string `length` compared with `> 0` as a decimal numeral: it starts with a digit, and without a leading zero it is an index above zero |
| Resolvers.StringifiedPositive | src/utils.ts:20 | a value compared with `> 0` through its string form: only numbers, strings and arrays can be positive, and a number is positive exactly when it is above zero |
| Resolvers.LengthPositive | src/utils.ts:20 | the coercion of an `enum` object's `length` by `> 0`: a boolean counts as itself, null, objects, `""` and `[]` never count, and every positive length is truthy |
| Resolvers.HasNonEmptyEnum | src/utils.ts:20 | `schema?.enum?.length > 0` holds only for a present array, string or object `enum`; how an object's `length` is coerced is `NumeralLengthPositive` and the two length fixtures |
| Resolvers.NumeralLengthPositive | src/utils.ts:20 | the comparison `> 0` on a numeral string, bare or as the one element of an array, holds exactly when the number it writes is positive |
| Resolvers.EnumLengthCoercionFixtures | src/utils.ts:20 | an `enum` object whose `length` is `"1"`, `true` or `[2]` resolves to Enum |
| Resolvers.EnumLengthRejectedFixtures | src/utils.ts:20-36 | a `length` of `"0"` or `[true]`, a number `enum` and an empty `enum` array do not count, so the `type` decides |
| Resolvers.IdInjective | src/utils.ts:39-48 | distinct field keys return distinct id strings |
| Resolvers.SchemaFormatFromSchema | src/utils.ts:20-36 | Enum exactly when `enum` is non-empty; any other type-based category matches the fragment's `type`; Unknown exactly when there is no non-empty `enum` and `type` is absent or not a recognised keyword |
| Resolvers.SchemaFormatIsFirstMatch | src/utils.ts:20-36 | the resolver is total and equals the first applicable rule of the table Enum, Boolean, String, Number, Integer, Object, Array, Unknown |
| Resolvers.EnumOverridesType | src/utils.ts:20 | a non-empty `enum` yields Enum whatever `type` is set to |
| Resolvers.FieldId | src/utils.ts:39-49 | BOOLEAN exactly when `type` is `boolean`; a date key exactly when the type is not `boolean` and `format` is `date`, `date-time` or `time`, with the key naming that format; any other key names the fragment's `type`; none exactly when neither `type` nor `format` is recognised |
| Resolvers.FieldIdIsFirstMatch | src/utils.ts:39-49 | the resolver equals the first applicable rule of the table BOOLEAN, DATE, DATE_TIME, TIME, STRING, INTEGER, NUMBER, OBJECT, ARRAY, and nothing when no rule applies |
| Resolvers.FieldIdAgreesWithCategory | src/utils.ts:20-48 | without an `enum` or a date format, the two resolvers agree: no field id exactly when the category is Unknown, and otherwise both name the same `type` |
| Resolvers.SampleSchemaFixtures | src/stories/SchemaBuilder.stories.tsx:28-34 | the sample schema's `type` property (string with an `enum`) resolves to Enum; its `price` (lines 35-40) to Number and NUMBER; its `birthday` (lines 85-90) to String and DATE |
| Resolvers.FormatOverTypeFixtures | src/utils.ts:40-42 | `{type: 'number', format: 'date'}` yields DATE, and `{type: 'boolean', format: 'date'}` yields BOOLEAN |
| Resolvers.UnmatchedSchemaFixtures | src/utils.ts:20-36 | the empty fragment and an unknown `type` resolve to Unknown and no field id; an `enum` of numbers resolves to Enum |
| TreeEdits.SetPath | src/utils.ts:62-77 | the update returns an object holding the first segment, whose other entries are exactly those spread out of the root, and which holds the value when the path has one segment; the deeper levels are `SetPathFrame` |
| TreeEdits.DeletePath | src/utils.ts:79-107 | the delete always returns an object: the root's copy is never pruned |
| TreeEdits.ReadAfterWrite | src/utils.ts:62-77 | reading the written segments back from the updated tree gives the value written, whatever the tree held along the path |
| TreeEdits.UpdateThenAccess | src/utils.ts:58-77 | `accessToObjectFieldByPath(updateNestedObjectByPath(o, p, v), p)` is `v` for every path, the empty path included |
| TreeEdits.SetPathFrame | src/utils.ts:64-74 | at every depth of the path the updated container is an object holding the segment, its other keys are those the original container had, and the last level holds the value |
| TreeEdits.SetCreatesContainers | src/utils.ts:71 | every container on the path becomes an object whose keys are those spread out of what was there plus the path's segment; a missing, null, boolean or numeric intermediate, or an empty string or array, leaves only the segment |
| TreeEdits.SetPathObjectsAlong | src/utils.ts:67-74 | after an update every container along the path exists and is an object |
| TreeEdits.SetPathKeepsOffPathReads | src/utils.ts:64-74 | a lookup that leaves the written path at an existing object reads the same as before the update |
| TreeEdits.DeleteInEmpty | src/utils.ts:90-104 | deleting anything below a container without entries leaves an empty object |
| TreeEdits.DeleteRemovesTarget | src/utils.ts:96-104 | after a delete the path no longer reads a value: either the last container lacks the key, or a pruned container makes the lookup fail |
| TreeEdits.DeleteFrame | src/utils.ts:81-104 | at every depth of the path a container's keys other than the path's segment keep their entries |
| TreeEdits.DeleteLeavesNoEmptyContainer | src/utils.ts:98-104 | no container below the root on the path is left empty: each was removed from its parent or still holds an entry |
| TreeEdits.DeleteKeepsOffPathReads | src/utils.ts:98-104 | a lookup that leaves the deleted path at a key that exists beside it reads the same as before, so a container that keeps a sibling is kept |
| TreeEdits.DeleteAbsentIsIdentity | src/utils.ts:90-104 | deleting a target that is absent under non-empty object containers returns a tree equal to the input, because the `{}` containers spread in are pruned again |
| TreeEdits.EmptyPathEditsEmptyKey | src/utils.ts:63-69 | the empty path writes or deletes the root's key `""`; it does not replace the root |
| TreeEdits.AddPropertyExample | src/utils.ts:62-77 | adding `properties.age` to an object schema adds the entry beside its `type` |
| TreeEdits.PruneOnlyPropertyExample | src/utils.ts:98-104 | deleting the only entry of `a.properties` removes `properties` from `a`, which keeps its other key |
| TreeEdits.DeleteWithSiblingExample | src/utils.ts:96-104 | deleting `properties.b` beside a sibling `c` keeps `properties` with `c` |
| TreeEdits.DeleteUnderEmptyContainerExample | src/utils.ts:90-104 | deleting the missing `a.b` under an existing empty `a` removes `a` as well |
| TreeEdits.SpreadStringExample | src/utils.ts:71 | a string intermediate is spread into its characters: writing `a.b` below `{a: "xy"}` gives `{a: {0: "x", 1: "y", b: 1}}`, and deleting it (line 92) keeps `{a: {0: "x", 1: "y"}}` |
| ObjectHeap.Obj.constructor | src/utils.ts:64 | a new object holds exactly the entries it is built from |
| ObjectHeap.Get | src/utils.ts:71 | `current[key]` on the heap: the entry when present, and otherwise a falsy value that spreads to no entries |
| ObjectHeap.TruthyVal | src/utils.ts:71 | the ternary's test on the heap: every object is truthy, and a falsy entry is a primitive whose spread is empty |
| ObjectHeap.SpreadVal | src/utils.ts:92 | `{ ...current[key] }` on the heap: an object's own entries, and the empty map for every primitive, strings and arrays included; for null, booleans, numbers, `""` and `[]` that is the value's spread, and the heap methods exclude non-empty strings and arrays on the path |
| ObjectHeap.LevelModel | src/utils.ts:71 | the entries each level's copy starts with stand for the container the reference definitions reach at that depth |
| ObjectHeap.CopyAlongPath | src/utils.ts:64-73 | the fresh copies, one per segment, start from the input's levels, each linked to the next at its segment; the deepest copy, `current`, holds its level's entries |
| ObjectHeap.SetChain | src/utils.ts:64-74 | each copy of the updated chain stands for the reference update of the path's suffix from its depth |
| ObjectHeap.UpdateOutcome | src/utils.ts:62-77 | the input still stands for the same tree; the root copy stands for `SetPath` of it and shares the entries off the first segment |
| ObjectHeap.UpdateNestedObjectByPath | src/utils.ts:62-77 | the result is fresh; the input's model is unchanged; the result's model is `SetPath` of the input's model; the root's entries off the first segment are shared by reference |
| ObjectHeap.PushAndCopy | src/utils.ts:91-93 | pushes `current` on the stack and links a fresh copy of `{ ...current[key] }` into it at `key` |
| ObjectHeap.CopyAndStack | src/utils.ts:87-96 | the stack holds every copy but the deepest; each copy starts from its level and is linked to the next; the last segment is removed from the deepest copy |
| ObjectHeap.PruneStep | src/utils.ts:101-103 | one pop of the second loop keeps its invariant: that copy loses its segment exactly when the next copy has no entries |
| ObjectHeap.PruneAlongStack | src/utils.ts:98-104 | each stacked copy loses its segment exactly when the copy below it is left without entries; the deepest copy is unchanged |
| ObjectHeap.PrunedLinks | src/utils.ts:98-104 | after pruning, each copy holds its level's entries, linked to the next copy, minus the segment where that copy is empty |
| ObjectHeap.DeleteChain | src/utils.ts:90-104 | each pruned copy stands for the reference delete of the path's suffix from its depth |
| ObjectHeap.DeleteOutcome | src/utils.ts:79-107 | the input still stands for the same tree; the root copy stands for `DeletePath` of it and shares the entries off the first segment |
| ObjectHeap.DeleteNestedPropertyByPath | src/utils.ts:79-107 | the result is fresh; the input's model is unchanged; the result's model is `DeletePath` of the input's model; the root's entries off the first segment are shared by reference |

## Left out

- Rendering, dialogs and the command reducer of the editor: they are not part
  of `src/utils.ts`. `accessToObjectFieldParentByPath`, which the preview
  imports, is not defined in `src/utils.ts`, and `src/constants` (the
  `SCHEMA_TYPE` values) is not part of this model. The `SCHEMA_TYPE`
  constants are taken to be the JSON Schema type keywords `boolean`,
  `string`, `number`, `integer`, `object` and `array`.
- `getSchemaFormatFromSchema` returns a member of a component bundle passed
  in by the caller. The model returns the member's name as a `Category`.
- Numbers are integers. Floating point is not modelled. The edits do not
  depend on it, but one test of the resolvers does: a fractional `length`
  of an `enum` object, which JavaScript counts as positive when it is above
  0, cannot be written here.
- Object key insertion order is not modelled: objects are maps. Nothing in
  `src/utils.ts` depends on that order.
- Prototype members (`toString` and the like) are not modelled. A read finds
  an object's own entries, an array element or a string character by
  canonical index, and the `length` of arrays and strings. A write to the
  key `__proto__` sets the object's prototype in JavaScript (and is ignored
  for a primitive value), and a spread does not copy it; the model treats
  `__proto__` as an ordinary own entry.
- Resolvers.HasNonEmptyEnum, Resolvers.SchemaFormatFromSchema: the coercion
  of an `enum` object's `length` covers integers, booleans, null, objects, plain decimal numerals
  and arrays of one such value. Numerals with a sign, surrounding
  whitespace, a fraction, an exponent, a hex prefix, or `Infinity` count as
  not positive here, although JavaScript may read them as positive numbers.
  The TypeError thrown when a `length` object, or an array element, has a
  non-callable own `toString` is not modelled either.
- Access.Step, JsonValues.Fields: a string's `length`, its index reads and
  its spread count Dafny characters, where JavaScript counts UTF-16 code
  units. A character outside the Basic Multilingual Plane counts once here
  and twice in the source.
- ObjectHeap.UpdateNestedObjectByPath: requires that no intermediate container
  on the path is a non-empty string or array. The value-level
  `TreeEdits.SetPath` follows the spread of such a container into
  index-keyed entries, but the heap holds strings and arrays as values and
  does not build that spread in a fresh object. Arrays are held as values,
  not by reference, so sharing of arrays between trees is not modelled.
- ObjectHeap.DeleteNestedPropertyByPath: the same restriction on
  intermediates, against `TreeEdits.DeletePath`, which follows the spread.
- ObjectHeap.UpdateNestedObjectByPath, ObjectHeap.DeleteNestedPropertyByPath:
  both require the input's object graph to be acyclic, since its model as a
  JSON value is built by following every reference. JavaScript accepts a
  cyclic graph on every path, since each step copies one level; the model
  cannot represent one. Data that can be serialised to JSON is acyclic.
- The `keys.length === 0` guard of `deleteNestedPropertyByPath` has no
  counterpart. A split is never empty, so the guard cannot fire.
- The `forEach` of `updateNestedObjectByPath` tests `index === keys.length - 1`
  on every step. The model runs the loop over all segments but the last, then
  makes the assignment at the last segment. The steps are the same.
- The delete's first loop is split into a helper method, `PushAndCopy`, that
  performs one step.
- Three behaviours of the code that a reader may not expect, which the
  model follows:
  - the empty path writes or deletes the key `""` of the root and never
    replaces the root;
  - deleting a missing key under an existing but empty container prunes that
    container;
  - a `format` of `date`, `date-time` or `time` yields a date field id for
    every `type` except `boolean`.
