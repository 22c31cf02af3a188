# SVG icon registry and markup resolution

A model of the icon core of `src/shared/components/svg-icon.js`: the
process-wide registry that maps icon names to SVG markup, the bulk
registration operation `registerIcons(icons, {reset})`, the read accessor
`availableIcons()`, and the rule by which the `SvgIcon` component turns a
request (an icon `name`, or a `src` object carrying `trustedHTML`) into the
single markup string it injects, or into one of three errors.

- `wrappers.dfy` — `Option` (for values that may be `undefined`) and `Result`
  (for a markup string or the error the component throws).
- `svg_icon.dfy` — module `SvgIcon`: the data model, the pure functions
  `AfterRegister`, `Replay` and `Resolve`, the lemmas about them, and the class
  `IconRegistry`, which holds the module-level registry as a `map` field that
  `Register` reassigns.

JavaScript truthiness is written out. A name that is `undefined` (`None`) or
the empty string is not a name, so resolution falls through to the `src`
branch. A registered name whose markup is the empty string counts as
unregistered. A `src` whose `trustedHTML` is missing or empty counts as
untrusted. The class keeps a ghost history of every registration, and its
invariant says the map is what those registrations produce from the empty
map. That is the registry's intended lifecycle: it starts empty and changes
only through `registerIcons`, as the doc comment of `availableIcons` asks of
callers (the source does not enforce it; see "Left out").

## Model

| member | source | states |
|---|---|---|
| `SvgIcon.AfterRegister` | src/shared/components/svg-icon.js:114-119 | after a registration the names are those of `icons`, plus the old ones unless `reset`; every name of `icons` maps to its new markup; every other name keeps its old markup, and exists only when there was no reset |
| `SvgIcon.RegisterIdempotent` | src/shared/components/svg-icon.js:114-119 | registering the same icons twice with the same reset flag gives the same registry as registering them once |
| `SvgIcon.MergeIsNoOpIffIncluded` | src/shared/components/svg-icon.js:118 | a registration without reset leaves the registry unchanged exactly when every new entry is already present with the same markup (both directions) |
| `SvgIcon.LastWriterWins` | src/shared/components/svg-icon.js:114-119 | over any sequence of registrations, a name keeps the markup of the latest call that wrote it, provided no later call reset the registry or wrote that name |
| `SvgIcon.Replay` | src/shared/components/svg-icon.js:17 | the registry after replaying a sequence of registrations from the empty map always holds every entry of the latest registration, with its markup |
| `SvgIcon.ReplayProvenance` | src/shared/components/svg-icon.js:114-119 | every entry of the replayed registry was written, with that markup, by one of the registrations: no markup appears from nowhere |
| `SvgIcon.ResetForgetsEarlier` | src/shared/components/svg-icon.js:115-118 | a registration with reset makes every earlier registration irrelevant: the registry equals the one built from the reset call onwards |
| `SvgIcon.ResetThenNothing` | src/shared/components/svg-icon.js:115-118 | right after a reset with `icons`, the registry is exactly `icons`, with no leftover entries, whatever came before |
| `SvgIcon.Resolve` | src/shared/components/svg-icon.js:37-56 | the unregistered-icon error happens exactly when a truthy name has no non-empty markup, and carries that name; the untrusted-resource error exactly when no truthy name is given and `src` lacks non-empty `trustedHTML`; the missing-source error exactly when there is neither a truthy name nor a `src`; success returns the registered markup for a truthy name, otherwise `src.trustedHTML`; returned markup is never empty and always comes from the registry or from the trusted wrapper |
| `SvgIcon.NameTakesPrecedence` | src/shared/components/svg-icon.js:40-45 | with a truthy name the outcome does not depend on `src` at all |
| `SvgIcon.ResolveAfterRegister` | src/shared/components/svg-icon.js:40-45 | a name just registered with non-empty markup resolves to exactly that markup, with or without reset, whatever `src` is |
| `SvgIcon.ResetUnregisters` | src/shared/components/svg-icon.js:40-43 | after a reset, a non-empty name that the new icons lack fails with the unregistered-icon error, whatever was registered before |
| `SvgIcon.IconRegistry.constructor` | src/shared/components/svg-icon.js:17 | the registry starts as the empty map, with an empty registration history |
| `SvgIcon.IconRegistry.AvailableIcons` | src/shared/components/svg-icon.js:129-131 | returns the current map, which is the result of replaying every registration so far from the empty map |
| `SvgIcon.IconRegistry.Register` | src/shared/components/svg-icon.js:114-119 | the new map is `AfterRegister` of the old map, and the call is appended to the history, so the invariant is kept |
| `SvgIcon.IconRegistry.ResolveIcon` | src/shared/components/svg-icon.js:37-56 | resolving against the registry gives `Resolve` of the current map, and, having no `modifies` clause, cannot change the registry |

## Left out

- Preact rendering: the `useRef`/`useLayoutEffect` patch of the `<svg>` class attribute, the `title` span property, the `classnames` call and `dangerouslySetInnerHTML` (svg-icon.js:58-81) are view-layer plumbing through foreign calls; the model stops at the markup string.
- The `propTypes` declarations (svg-icon.js:84-106) are run-time type hints checked by an external library; the model's types play that role.
- JavaScript object quirks: names inherited from `Object.prototype` (such as `"toString"`) that are truthy in a `{}` registry. The registry is a value map of strings.
- Aliasing of the object `availableIcons` returns (svg-icon.js:129-131): in the source it is the registry object itself, so a caller that mutates it changes the registry, an earlier reference sees later merges, and a reference taken before a reset still refers to the old map. `AvailableIcons` returns a value copy, so the model assumes callers follow the documented rule of changing the registry only through `registerIcons`.
- Non-string `name`, `src` or `trustedHTML` values (other falsy or truthy objects): only strings, `undefined` and a `src` object are modelled.
- `reset` is a required `bool` of `IconRegistry.Register`: the source's `{ reset = false } = {}` default (an omitted options object or flag means no reset) and its truthiness test `if (reset)` on non-boolean values (svg-icon.js:114-115) are not modelled; callers pass `false` for the default.
- The text of the three error messages: the errors are the cases of `ResolveError`.
