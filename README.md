# react-ga-trackable, modelled in Dafny

`react-ga-trackable` attaches Google Analytics tracking properties to React
elements as `data-*` attributes. A `TrackingProvider` fixes a prefix and a
property-name converter (by default `kebabize`). A `Trackable` component takes
a `ga` bag of properties and computes one attribute per distinct converted
name, named `data-` + normalised prefix + converted property name; when two
properties convert to the same name, the later property wins. It then attaches the
attributes to one element: the replacement given in `component`, or else its
first child.

The model is pure, like the code it follows:

- `Wrappers.dfy`: `Option` (an omitted JavaScript value) and `Result` (a value or a thrown error).
- `TrackingContext.dfy`: `kebabize` as its three passes, the context record, its default value, and the provider's field defaulting. React's context lookup is an explicit stack of enclosing provider values.
- `Trackable.dfy`: `getTrimmedPrefix`, `reducePropsWithPrefix`, the attribute computation with its error, and the rendering of `Trackable`.
  - A node is a text or an element.
  - A replacement is absent, a tag name, a rendered value, or a component type.
  - The output is nothing, one element, or a fragment.
- `TrackableExamples.dfy`: the cases of the component's test suite, stated on the model.

The `ga` bag is given as its ordered list of entries, the order in which
`Object.entries` lists them. Attribute values have an arbitrary type `V`.

`getTrimmedPrefix` (src/Trackable.tsx:19-20) turns a prefix that already
ends in `-` into the empty prefix, instead of keeping it. The model does the
same (`TrimmedPrefixExamples`, `GaWithDashedPrefix`).

## Model

| member | source | states |
|---|---|---|
| TrackingContext.IsWhitespace | src/TrackingContext.tsx:17 | the `\s` class, by code point; no contract of its own, `KebabizeIsKebab` states that no such character survives |
| TrackingContext.SplitCamel | src/TrackingContext.tsx:16 | pass 1; its contract keeps the first character, and `SplitCamelKeeps`, `SplitCamelLength`, `SplitCamelNoBoundary`, `SplitCamelUnchanged` and `SplitCamelJoin` state what it does |
| TrackingContext.ReplaceRuns | src/TrackingContext.tsx:17 | pass 2, for any character class; no contract of its own, `ReplaceRunsNoneLeft`, `ReplaceRunsKeeps`, `ReplaceRunsSplit` and `ReplaceRunsUnchanged` state what it does |
| TrackingContext.Lower | src/TrackingContext.tsx:18 | pass 3; the length is kept, each character is lowered by `LowerChar`, and `LowerFilterPlain` and `LowerUnchanged` state what it does |
| TrackingContext.SplitCamelKeeps | src/TrackingContext.tsx:16 | the first pass only inserts dashes: every other character of the name stays, in order |
| TrackingContext.SplitCamelLength | src/TrackingContext.tsx:16 | the first pass adds exactly one character per lowercase/uppercase pair, and removing dashes before and after gives the same string |
| TrackingContext.SplitCamelNoBoundary | src/TrackingContext.tsx:16 | after the first pass no lowercase ASCII letter is directly followed by an uppercase one (the global replace misses no pair) |
| TrackingContext.SplitCamelUnchanged | src/TrackingContext.tsx:16 | the first pass leaves a name unchanged if and only if it has no lowercase/uppercase pair |
| TrackingContext.SplitCamelJoin | src/TrackingContext.tsx:16 | the first pass works locally: on a concatenation, a dash is inserted at the seam exactly when the seam is a lowercase/uppercase pair |
| TrackingContext.ReplaceRunsNoneLeft | src/TrackingContext.tsx:17 | after the second pass no separator (white space or `_`) is left |
| TrackingContext.ReplaceRunsKeeps | src/TrackingContext.tsx:17 | the second pass keeps every character that is neither a separator nor a dash, in order |
| TrackingContext.ReplaceRunsSplit | src/TrackingContext.tsx:17 | a maximal run of separators between two other characters becomes exactly one dash, and each side is converted independently |
| TrackingContext.ReplaceRunsUnchanged | src/TrackingContext.tsx:17 | the second pass leaves a name unchanged if and only if it has no separator |
| TrackingContext.LowerChar | src/TrackingContext.tsx:18 | the result is never an uppercase ASCII letter; an uppercase letter maps to the lowercase letter 32 code points above; every other character is unchanged |
| TrackingContext.LowerFilterPlain | src/TrackingContext.tsx:18 | lowercasing creates and removes no separator and no dash |
| TrackingContext.LowerUnchanged | src/TrackingContext.tsx:18 | lowercasing leaves a string unchanged if and only if it has no uppercase ASCII letter |
| TrackingContext.Kebabize | src/TrackingContext.tsx:14-18 | the three passes in order; no contract of its own, the four lemmas below state its properties |
| TrackingContext.KebabizeIsKebab | src/TrackingContext.tsx:14-18 | the converted name has no uppercase ASCII letter, no white space and no `_` |
| TrackingContext.KebabizeKeepsPlain | src/TrackingContext.tsx:14-18 | every character that is not a separator or a dash survives the conversion, lowercased and in order |
| TrackingContext.KebabizeUnchanged | src/TrackingContext.tsx:14-18 | a name is its own kebab form if and only if it has no uppercase ASCII letter and no separator |
| TrackingContext.KebabizeIdempotent | src/TrackingContext.tsx:14-18 | converting a converted name changes nothing |
| TrackingContext.DefaultContextValues | src/TrackingContext.tsx:20-25 | the default context value (the constant `DefaultContext`) has the empty prefix and `kebabize`, and it is what a component sees outside every provider |
| TrackingContext.TrackingProvider | src/TrackingContext.tsx:27-35 | the provider's value holds the given prefix and converter, with `""` and `kebabize` for an omitted one |
| TrackingContext.UseTrackingCtx | src/TrackingContext.tsx:25 | the innermost enclosing provider's value, or the default value; no contract of its own, `DefaultContextValues` and `ProviderDoesNotInherit` state what it returns |
| TrackingContext.EmptyProviderIsDefault | src/TrackingContext.tsx:27-35 | a provider with no props installs exactly the default value |
| TrackingContext.ProviderDoesNotInherit | src/TrackingContext.tsx:25-35 | inside a provider the component sees that provider's props, defaulted, whatever the enclosing providers set |
| TrackableComponent.GetTrimmedPrefix | src/Trackable.tsx:19-20 | the prefix is empty or ends in `-`; it is non-empty exactly when the given prefix is present, non-empty and does not end in `-`, and then it is that prefix followed by `-` |
| TrackableComponent.AttributeName | src/Trackable.tsx:30 | `data-`, the prefix and the converted property name; no contract of its own, `AttributeNamesArePrefixed` and `GaPropsNames` state its use |
| TrackableComponent.ReducePropsWithPrefix | src/Trackable.tsx:22-33 | the keys are exactly `data-` + prefix + converted name for the entries, and there are at most as many attributes as entries |
| TrackableComponent.AttributeNamesArePrefixed | src/Trackable.tsx:30 | every attribute name starts with `data-` and the prefix |
| TrackableComponent.ReduceLaterEntryWins | src/Trackable.tsx:27-31 | an entry whose attribute name no later entry shares is present with its own value, so on a collision the last entry wins |
| TrackableComponent.ReduceSizeWhenDistinct | src/Trackable.tsx:27-33 | entries with distinct attribute names give one attribute each |
| TrackableComponent.GaProps | src/Trackable.tsx:40-62 | the computation fails exactly when the context value is missing, with the `TrackingProvider` message; an absent bag gives no attributes; there are at most as many attributes as entries |
| TrackableComponent.GaPropsNames | src/Trackable.tsx:49-60 | under a context value, the attribute names are `data-` + normalised prefix + the context's converter applied to each property name |
| TrackableComponent.GaPropsUnderContext | src/Trackable.tsx:40-47 | a component inside or outside any providers always finds a context value, so the error is never thrown |
| TrackableComponent.CloneElement | src/Trackable.tsx:79-81 | the clone keeps the element's type and children; its props are the element's props with the attributes spread over them, the attributes winning |
| TrackableComponent.MapChild | src/Trackable.tsx:86-98 | the callback of the children map; no contract of its own, `MapChildren` states its result for every child |
| TrackableComponent.MapChildren | src/Trackable.tsx:86-98 | one slot per child; a slot is empty exactly for a non-element child; the first child, if an element, gets the attributes; every later element is unchanged |
| TrackableComponent.Present | src/Trackable.tsx:84-100 | the non-null callback results, in order, which the fragment holds; at most one per slot, and `PresentOfUnchanged` and `ChildrenOutput` state its contents |
| TrackableComponent.PresentOfUnchanged | src/Trackable.tsx:97 | when every slot holds its child if that child is an element and nothing otherwise, the present values are exactly the element children |
| TrackableComponent.ChildrenOutput | src/Trackable.tsx:84-100 | the fragment holds the first child with the attributes if it is an element, then every later element child, unchanged and in order |
| TrackableComponent.ChildrenOutputWithoutFirstElement | src/Trackable.tsx:86-98 | if the first child is not an element, no child gains the attributes |
| TrackableComponent.ResolveTarget | src/Trackable.tsx:64-100 | the replacement dispatch; no contract of its own, `ResolveTag`, `ResolveEmptyTag`, `ResolveInvalid`, `ResolveElement` and `ChildrenOutput` state each branch |
| TrackableComponent.ResolveTag | src/Trackable.tsx:64-72 | a tag-name replacement gives one new element of that tag whose props are exactly the attributes and whose children are the original children |
| TrackableComponent.ResolveEmptyTag | src/Trackable.tsx:64 | an empty tag name is falsy and behaves as no replacement |
| TrackableComponent.ResolveInvalid | src/Trackable.tsx:75-77 | a replacement that is not a valid element renders nothing |
| TrackableComponent.ResolveElement | src/Trackable.tsx:79-81 | an element replacement renders as its clone with the attributes: one element of the same type with its own children, whose props are exactly its own props and the attributes, the attributes winning; the original children do not matter |
| TrackableComponent.Trackable | src/Trackable.tsx:35-101 | the component throws the `TrackingProvider` error exactly when the context value is missing and renders otherwise |
| TrackableComponent.TrackableWithoutGa | src/Trackable.tsx:51 | without a `ga` bag and a replacement, the output is exactly the element children, unchanged |
| TrackableComponent.TrackableFirstNotElement | src/Trackable.tsx:86-98 | when the first child is not an element, the output is exactly the element children, whatever the bag |
| TrackableExamples.KebabizeExamples | src/TrackingContext.tsx:14-18 | `regular`, `Regular`, `camelCase`, `snake_case`, `kebab-case` and `name` convert to `regular`, `regular`, `camel-case`, `snake-case`, `kebab-case` and `name`, and `camel_case` converts like `camelCase` |
| TrackableExamples.MixedRunConverted | src/TrackingContext.tsx:17 | `user \t_id` converts to `user-id`: a run mixing white space and `_` gives one dash |
| TrackableExamples.TrimmedPrefixExamples | src/Trackable.tsx:19-20 | no prefix and `""` give `""`, `ga` gives `ga-`, and `ga-` gives `""` |
| TrackableExamples.CollidingNamesLaterWins | src/Trackable.tsx:27-31 | two properties with the kebab form `camel-case` give one attribute `data-camel-case` holding the later value |
| TrackableExamples.GaWithDashedPrefix | src/Trackable.tsx:19-20 | with the prefix `ga-`, a property `name` gives the attribute `data-name` |
| TrackableExamples.GaNamingConventions | src/Trackable.test.tsx:189-224 | under the prefix `ga`, the four naming conventions give `data-ga-regular`, `data-ga-camel-case`, `data-ga-snake-case` and `data-ga-kebab-case` with their values |
| TrackableExamples.RendersChildWithoutAttributes | src/Trackable.test.tsx:37-53 | a `div` child under a default provider and without a bag renders with no attribute |
| TrackableExamples.GaWithoutPrefix | src/Trackable.test.tsx:74-91 | `ga={{ name: 'Name prop' }}` without a prefix gives the `div` exactly the attribute `data-name` |
| TrackableExamples.GaWithPrefix | src/Trackable.test.tsx:133-150 | the same bag under `gaPrefix="ga"` gives exactly `data-ga-name` |
| TrackableExamples.StringReplacement | src/Trackable.test.tsx:226-238 | `component="span"` renders one `span` holding the text child |
| TrackableExamples.ElementReplacement | src/Trackable.test.tsx:240-259 | `component={<ReplacementComponent />}` without a bag renders that component element itself, and the text child is not rendered |
| TrackableExamples.TextFirstChild | src/Trackable.tsx:86-98 | with a text first child, the bag's attribute appears nowhere and the following `div` renders unchanged |
| TrackableExamples.MissingContext | src/Trackable.tsx:43-47 | without a context value the component throws the `TrackingProvider` error |

The examples that compute attributes take each entry by the kebab form of its
name; `KebabizeExamples` shows that the property names of the tests have
those forms.

## Left out

- React itself is not modelled: rendering, reconciliation, the DOM, JSX, `useMemo` memoisation, and context propagation through `createContext`/`useContext`. The context is a parameter. A missing context value is `None`, which `createContext` with a default never produces.
- The `ua` bag and `uaPrefix` are not modelled. The test suite uses them, but the component does not implement them.
- Event handlers and the click assertions of the replacement test are not modelled, nor the commented-out test.
- TrackingContext.LowerChar: lowercases ASCII `A`-`Z` only. `String.prototype.toLowerCase` also maps non-ASCII uppercase letters.
- TrackingContext.IsWhitespace: the ECMAScript `\s` class is written out by code point. A Dafny `char` is a Unicode scalar value, so a character outside the Basic Multilingual Plane is one `char` here where JavaScript sees two UTF-16 code units, and a lone surrogate cannot be represented.
- `React.Children.map` is modelled on a flat list of children. Its flattening of nested arrays and its keys are not modelled. A `null`, `undefined` or boolean child is passed to the callback as `null` and still takes an index. Such a child behaves exactly like a `Text` child, so `{false}<div/>` gives the `div` no attributes, as `TextFirstChild` shows for a text child.
- `Object.entries` is not modelled. The bag is given as its entry list, in order, so the ordering rule for integer-like keys is left out.
- Keys, refs and the key warnings of `createElement`/`cloneElement` are not modelled.
  - A tag replacement receives the children wrapped in one array. The model puts the children list into the new element directly.
- Function and class components are not modelled.
  - A component instance given as `component` is an element whose tag is the component's name. `cloneElement` puts the attributes on that element. What the component renders from its props, and whether the attributes reach the DOM, is not modelled.
  - `ComponentType` stands for an uninstantiated component, which is not a valid element.
  - `Instance(Text(...))` stands for a truthy value that is neither a string nor an element, such as a number.
