# Translation registry of a schema-driven form library

The form library localises labels, descriptions and messages through a
translation registry (`src/registry/translationRegistry.ts`). The registry
holds one module-level slot, `customTranslateFn`, which is either `null` or a
function from key to text. `setTranslationFunction` fills the slot,
`resetTranslationRegistry` empties it, and `getT` hands out `translate`,
which resolves a key when it is called: it delegates to the registered
function, or returns the key unchanged when nothing is registered.

The project models this in two modules:

- `TranslationSpec` (`translation_spec.dfy`) is the registry as a value: the
  slot (`Option<string -> string>`), the two writes, `Translate`, and the
  replay of a history of writes. A reference definition, `InForce`, says the
  slot is decided by the latest write alone. The lemmas prove default
  identity, override, last write wins, reset and its idempotence over every
  history of calls.
- `TranslationRegistry` (`translation_registry.dfy`) is the registry as the
  program keeps it: a class `Registry` whose field `customTranslateFn` the
  two registration methods overwrite. `Translate` is a function that reads
  the object and changes nothing; `GetT` reads nothing at all. A ghost `history` records every
  write, and `Valid()` ties the field to the replay of that history, so the
  lemmas of `TranslationSpec` apply to the live registry. `GetT` returns the
  member function `Translate` itself, which reads the registry each time it
  is applied; three scenario methods show that a translator obtained before a
  later write sees that write.

`null` in the slot is `None`. The source tests the slot with JavaScript
truthiness (`if (customTranslateFn)`); a function value is always truthy, so
the test is exactly "a function is registered".

## Model

| member | source | states |
|---|---|---|
| TranslationSpec.Apply | src/registry/translationRegistry.ts:44-46 | registering makes the given function the slot's content; resetting (lines 65-67) empties the slot; neither looks at the previous content |
| TranslationSpec.ReplayIsInForce | src/registry/translationRegistry.ts:13 | from any starting slot, performing a history of writes leaves exactly the latest write in force, or the starting slot if there were none |
| TranslationSpec.ReplaySnoc | src/registry/translationRegistry.ts:44-46 | one more registration or reset acts on the slot the earlier calls reached |
| TranslationSpec.ReplayConcat | src/registry/translationRegistry.ts:44-67 | performing two runs of calls in turn equals replaying the second run from where the first left the registry |
| TranslationSpec.DefaultIsIdentity | src/registry/translationRegistry.ts:13-24 | in the initial state, with nothing registered, every key translates to itself |
| TranslationSpec.ResetsOnlyIsIdentity | src/registry/translationRegistry.ts:13-24 | as long as no function was ever registered (no calls, or only resets), every key translates to itself |
| TranslationSpec.RegisteredTranslates | src/registry/translationRegistry.ts:19-22 | after registering `fn`, whatever happened before, every key `k` translates to exactly `fn(k)` |
| TranslationSpec.LastWriteWins | src/registry/translationRegistry.ts:44-46 | registering twice gives the state registering only the second function gives; every key is translated by the second function, nothing of the first survives |
| TranslationSpec.ResetRestoresDefault | src/__tests__/registry.test.ts:138-144 | after a reset, whatever was registered before, the registry is in its initial state and translation is the identity |
| TranslationSpec.ResetIdempotent | src/registry/translationRegistry.ts:65-67 | two resets leave the same state as one, and that state is the initial state |
| TranslationSpec.LatestRunDecides | src/registry/translationRegistry.ts:44-67 | whatever came before, after a further non-empty run of registrations and resets, a key is translated as the latest write of that run decides |
| TranslationRegistry.Registry.constructor | src/registry/translationRegistry.ts:13 | the registry starts with no function registered and no writes recorded |
| TranslationRegistry.Registry.Translate | src/registry/translationRegistry.ts:19-24 | the key's translation is the one the latest registration or reset decides: the registered function applied to the key, or the key itself |
| TranslationRegistry.Registry.GetT | src/registry/translationRegistry.ts:54-56 | always returns the same function, `Translate` itself, without reading the registry |
| TranslationRegistry.Registry.SetTranslationFunction | src/registry/translationRegistry.ts:44-46 | overwrites the slot with `fn`, records the write, keeps the slot consistent with the history, and afterwards every key translates to `fn(key)` |
| TranslationRegistry.Registry.ResetTranslationRegistry | src/registry/translationRegistry.ts:65-67 | empties the slot back to its initial state, records the write, and afterwards every key translates to itself |
| TranslationRegistry.TranslateAfterLaterRegistration | src/registry/translationRegistry.ts:19-22 | a translator obtained before `setTranslationFunction(fn)` and applied after it returns `fn(key)` |
| TranslationRegistry.TranslateAfterLaterWrites | src/registry/translationRegistry.ts:54-56 | a translator obtained before any run of registrations and resets, applied after it, translates as the latest write of the run decides (as the registration of the time it was obtained, if the run is empty); the history grows by exactly that run |
| TranslationRegistry.TranslateAfterLaterReset | src/registry/translationRegistry.ts:23 | a translator obtained before a reset and applied after it returns the key unchanged |

`translate` and `getT` never modify the registry: both are Dafny functions,
which cannot change state. Only `SetTranslationFunction` and
`ResetTranslationRegistry` change the slot; the scenario methods change it
only by calling them.

## Left out

- The registered function is an arbitrary total, side-effect-free `string -> string`; a function that throws, has side effects or reads other state (an i18next `t` whose language changes) is not modelled, because its code is not part of this model.
- TranslationRegistry.Registry.Translate: does not promise the "translation not found" fallback that the comment at src/registry/translationRegistry.ts:17 documents: the code at lines 20-21 returns whatever the registered function returns, so falling back to the key for a missing translation is up to that function (i18next's `t` does so by default), which is not part of this model.
- The TypeScript type `TranslationFunction` admits only functions; a caller passing `null` or `undefined` through untyped JavaScript to `setTranslationFunction` is not modelled.
- The component registry, the behaviour registry and `setupSnowForm` are not part of this model: they are separate modules with their own state, and this model covers only the translation registry.
- The demo application, the React widgets and the code-snippet generator are UI and fixed text, with no registry logic.
