# Cartesian-product expander and connection registry of a data-store adapter

This project models the logic of `lib/adapter.js`, a skeletal adapter for an
object-relational mapping layer. The adapter has two independent parts.

- **Criteria expander.** `product` takes a sequence of candidate sequences
  and lists every combination that picks one candidate per position. Its
  first position varies slowest and its last fastest. `objectProduct` applies
  `product` to the values of a criteria object, then re-attaches the keys by
  position.
- **Connection registry.** The adapter's `connections` object maps a
  connection identity to `{collections: {...}}`. Three methods change it in
  place: `registerConnection`, `teardown` and `define`.

Files:

- `cartesian_product.dfy` (module `CartesianProduct`): `product` as recursive
  functions. The lemmas give its length, membership (both directions) and
  ordering laws. The ordering law is stated in closed form through `Rank`,
  the mixed-radix number of a choice of candidate indices with the first
  position most significant.
- `criteria_expander.dfy` (module `CriteriaExpander`): `objectProduct`. An
  explicit sequence of distinct keys stands for `Object.keys` order.
- `utility_example.dfy` (module `UtilityExample`): the unit test's 9-object
  expected result. It is first proved for any three distinct keys and any
  candidates of the same shape.
- `connection_registry.dfy` (module `ConnectionRegistry`): the registry as a
  class `Registry` with a `connections` map field. Each method is tied to a
  function stating the new registry: `Register`, `Teardown`, `Define`. Lemmas
  relate successive operations.

Three behaviours of the code shape the model:

- `define` does not check that the connection is registered. Given an unknown
  identity, the code would throw. The model therefore requires that the
  identity is registered, and there is no error for an unknown identity.
- `objectProduct` does not wrap a scalar value into a one-element sequence.
  `product` calls `forEach` on every value, so every value must be a
  sequence. In the model, the unit test's `b: 'xyz'` is written as `['xyz']`.
  The unit test as written (test/unit/utility.js:12) reaches `'xyz'.forEach`
  at lib/adapter.js:167, and that call throws, because a string has no
  `forEach`.
- `describe` and `drop` only call their callback. `describe` reports nothing
  about the registry, and `drop` removes nothing from it.

## Model

| member | source | states |
|---|---|---|
| `CartesianProduct.Product` | lib/adapter.js:160-174 | the number of combinations is the product of the candidate counts |
| `CartesianProduct.PrependEach` | lib/adapter.js:168-170 | the inner loop pushes `[x] + p` for every `p`, in order, once each |
| `CartesianProduct.Expand` | lib/adapter.js:165-171 | the nested loops push `|xs| * |prod|` combinations |
| `CartesianProduct.ExpandAt` | lib/adapter.js:167-171 | the pair (candidate `i`, tail combination `j`) is pushed at index `i * |prod| + j` |
| `CartesianProduct.ExpandFirst` | lib/adapter.js:167-171 | the first `|prod|` pushes pair the first candidate with each tail combination, in order |
| `CartesianProduct.ExpandRest` | lib/adapter.js:167-171 | after them come the pushes for the remaining candidates, in order |
| `CartesianProduct.ExpandMember` | lib/adapter.js:167-171 | every pushed combination is a candidate followed by a tail combination |
| `CartesianProduct.ProductOfNothing` | lib/adapter.js:161-163 | an empty input gives exactly one combination, the empty one |
| `CartesianProduct.ProductSound` | lib/adapter.js:165-171 | every combination has one entry per position, and entry `i` is a candidate of position `i` |
| `CartesianProduct.ProductComplete` | lib/adapter.js:165-171 | every sequence that picks one candidate per position is among the combinations |
| `CartesianProduct.ProductAt` | lib/adapter.js:165-171 | combination `i * |tail| + j` is candidate `i` of the first position followed by tail combination `j`, so the first position varies slowest |
| `CartesianProduct.CountZero` | lib/adapter.js:160-174 | there are no combinations exactly when some position has no candidates |
| `CartesianProduct.ProductEmptyFactor` | lib/adapter.js:167-171 | a position without candidates makes the product empty |
| `CartesianProduct.ProductKeepsDuplicates` | lib/adapter.js:167-171 | two equal candidates of the first position give equal combinations at two distinct indices, so nothing is de-duplicated |
| `CartesianProduct.RankBound` | lib/adapter.js:160-174 | the rank of every choice of candidate indices is a valid index into the product |
| `CartesianProduct.ProductAtRank` | lib/adapter.js:160-174 | the combination at the rank of a choice `d` takes candidate `d[p]` at every position `p` |
| `CartesianProduct.RankLexOrder` | lib/adapter.js:160-174 | a lexicographically smaller choice comes strictly earlier, so the output is in lexicographic order |
| `CartesianProduct.RankOnto` | lib/adapter.js:160-174 | every index of the product is the rank of some choice |
| `CriteriaExpander.ValuesOf` | lib/adapter.js:177-178 | the value sequences are taken in key order, one per key |
| `CriteriaExpander.Attach` | lib/adapter.js:181-183 | the built object has exactly the listed keys |
| `CriteriaExpander.AttachAt` | lib/adapter.js:182 | with distinct keys, key `n` maps to entry `n` of the combination |
| `CriteriaExpander.AttachRebuilds` | lib/adapter.js:181-183 | attaching the keys to the values an object gives them, in key order, gives back that object |
| `CriteriaExpander.ObjectProduct` | lib/adapter.js:176-185 | as many objects as `product` has combinations of the values; each object has exactly the input's keys |
| `CriteriaExpander.ObjectProductEntry` | lib/adapter.js:180-184 | object `i` is combination `i` of `product` with the keys attached; the combination has one entry per key |
| `CriteriaExpander.ObjectProductAt` | lib/adapter.js:180-184 | object `i` maps key `n` to entry `n` of combination `i` of `product`, so count and order are those of `product` |
| `CriteriaExpander.ObjectProductAtRank` | lib/adapter.js:176-185 | the object at the rank of a choice `d` maps key `n` to candidate `d[n]` of that key |
| `CriteriaExpander.ObjectProductSound` | lib/adapter.js:176-185 | every produced object has the input's key set, and each key maps to one of its candidates |
| `CriteriaExpander.ObjectProductComplete` | lib/adapter.js:176-185 | every object that fixes one candidate per key is produced |
| `CriteriaExpander.ObjectProductOfNothing` | lib/adapter.js:176-185 | an object without keys expands to one empty object |
| `UtilityExample.ThreeKeysOrder` | test/unit/utility.js:10-27 | for three distinct keys with 3, 1 and 3 candidates, the nine objects come first key slowest, last key fastest |
| `UtilityExample.ExpectedOrder` | test/unit/utility.js:9-28 | the test's criteria, with `b` written as `['xyz']`, expand to exactly the test's nine objects, in the test's order |
| `ConnectionRegistry.Register` | lib/adapter.js:92-104 | a falsy identity fails with `MissingIdentity`; a registered one fails with `AlreadyRegistered`; a failure leaves the registry unchanged; a success adds exactly `identity ↦ {collections: {}}` and keeps every other entry |
| `ConnectionRegistry.Teardown` | lib/adapter.js:116-129 | a falsy identity empties the registry; an unknown identity changes nothing; a registered identity loses only its own entry |
| `ConnectionRegistry.Define` | lib/adapter.js:144-147 | the named collection now maps to the definition; other collections of that connection and all other connections are unchanged |
| `ConnectionRegistry.Registry.constructor` | lib/adapter.js:48 | the registry starts empty |
| `ConnectionRegistry.Registry.RegisterConnection` | lib/adapter.js:92-104 | the reported outcome and the new `connections` are those of `Register` |
| `ConnectionRegistry.Registry.TeardownConnection` | lib/adapter.js:116-129 | the new `connections` is that of `Teardown`; no error is ever reported |
| `ConnectionRegistry.Registry.DefineCollection` | lib/adapter.js:144-147 | on a registered connection, the new `connections` is that of `Define` |
| `ConnectionRegistry.OperationsKeepIdentitiesTruthy` | lib/adapter.js:94-127 | every operation keeps every registered identity truthy, so no entry is ever stored under `''` |
| `ConnectionRegistry.RegisterTwiceFails` | lib/adapter.js:95 | registering the same identity a second time fails with `AlreadyRegistered` and changes nothing |
| `ConnectionRegistry.TeardownUndoesRegister` | lib/adapter.js:92-129 | tearing down a connection just registered restores the previous registry |
| `ConnectionRegistry.TeardownForgets` | lib/adapter.js:122-128 | after a teardown the identity is not registered, so `define` may not name it |
| `ConnectionRegistry.TeardownIdempotent` | lib/adapter.js:122-128 | tearing down twice is the same as tearing down once |
| `ConnectionRegistry.DefineOverwrites` | lib/adapter.js:145 | a later definition of the same collection replaces the earlier one |

## Left out

- `find` (lib/adapter.js:197-202) is not modelled. It only logs through a global logger and returns a fixed row.
- `create`, `update`, `destroy`, `describe` and `drop` are not modelled. They only call their callback and touch no state.
- Callbacks are replaced by return values. `teardown`'s argument shifting, where a function as first argument means "no identity", is modelled as an absent identity.
- `registerConnection`'s `collections` argument is not modelled. The code never uses it.
- Identities are modelled as an optional string. Of JavaScript's falsy values, only an absent identity and `''` are modelled; `0`, `false` and `NaN` are not.
- The registry lookups are modelled as own keys of a map. In the code, an inherited property name such as `toString` also looks registered.
- `objectProduct` takes its key order as an explicit sequence of distinct keys. The enumeration order of `Object.keys`, where integer-like keys come first, is not modelled.
- Scalar values inside `objectProduct` criteria are not modelled. The code has no wrapping rule for them.
- The configuration constants `syncable` and `defaults`, and the commented-out custom methods, are not modelled.
