# Module registration and import scanning of the code playground

This project is a Dafny model of two pieces of a browser code playground. The playground edits TypeScript/React code in Monaco and previews it in an iframe.

- **`ModuleResolver`** (`Resolver` module, `resolver.dfy`) makes external libraries known to the editor's TypeScript service.
  - `registerModule` writes a module's declaration text into the host's extra-library table under three virtual paths. It also records the text in the resolver's own insertion-ordered `moduleMap`.
  - `registerAmbientModules` writes the built-in declarations of two UI libraries under one fixed path.
  - `createAmbientDeclaration` builds a fallback `declare module` text.
  - `getRegisteredModules` lists the names in the table.

  The Monaco host is the class `LanguageHost`. It holds only the table from path to text that `addExtraLib` overwrites.
- **The preview's import handling** (`Preview` module, `preview.dfy`).
  - `extractImports` runs the global pattern ``import[^'"`]*['"`]([^'"`]+)['"`]`` over the code. It keeps every captured specifier that is not a relative or absolute path, once each, in first-seen order.
  - `buildImportMap` maps each specifier to its `https://esm.sh/<spec>?bundle` URL, and `<spec>/` to the prefix `https://esm.sh/<spec>/`.
- **Insertion order** (`Ordered` module, `ordered.dfy`). JavaScript's `Set` and `Map` keep their keys in insertion order, and re-inserting a key neither duplicates nor moves it.
  - `Dedup` models adding elements one by one.
  - `OrderedMap` is a key list plus an entry map.

## How the pattern is modelled

Each character class of the pattern excludes the three quote characters, so a match at a position `p` is determined without choice:

- `import` at `p`;
- the opening quote is the first quote at or after `p + 6`;
- the closing quote is the first quote after that, and there must be at least one character between the two quotes.

Otherwise nothing matches at `p`, and `exec` tries `p + 1`.

- `MatchAt` is that test at one position.
- `NextMatch(s, pos)` is `exec` with `lastIndex == pos`.
- `CapturesFrom(s, pos)` is the list of `match[1]` values that the `while` loop sees, with each search resuming at the end of the previous match.
- `ImportSpecifiers(input)` is `Dedup(Bare(CapturesFrom(input, 0)))`.
- The method `ExtractImports` is the loop itself, proved equal to that function.

The quotes need not be the same character, exactly as in the pattern.

## Model

| member | source | states |
|---|---|---|
| Ordered.Add | src/Preview.tsx:20 | `Set.prototype.add`: the new contents are the old ones plus the element. A duplicate-free list stays duplicate-free, and the keys already present keep their places. |
| Ordered.Dedup | src/Preview.tsx:11-23 | The set's contents in insertion order hold no duplicates and exactly the elements added. |
| Ordered.DedupSnoc | src/Preview.tsx:20 | Adding one more element to the set appends it when absent and changes nothing when present. |
| Ordered.DedupOrder | src/Preview.tsx:20-23 | `Array.from` of the set lists the elements in the order of their first insertion. |
| Ordered.OrderedMap.Set | src/utils/moduleResolver.ts:33 | `Map.set`: the key maps to the value, and every other key keeps its presence and value. A new key goes last and a present key keeps its place. The map invariant is preserved. |
| Ordered.EmptyMap | src/utils/moduleResolver.ts:8 | The new `Map` is valid and has no keys and no entries. |
| Ordered.SetIdempotent | src/utils/moduleResolver.ts:33 | Setting the same entry twice equals setting it once. |
| Ordered.SetLastWriteWins | src/utils/moduleResolver.ts:33 | Of two sets of one key the later value wins. |
| Resolver.LanguageHost.AddExtraLib | src/utils/moduleResolver.ts:26-29 | The given path now holds the given text and no other path changes. |
| Resolver.ModulePaths | src/utils/moduleResolver.ts:19-23 | A module is written under three paths. |
| Resolver.ModulePathsWritten | src/utils/moduleResolver.ts:19-30 | After the writes, `file:///node_modules/<m>/index.d.ts`, `file:///node_modules/@types/<m>/index.d.ts` and `file:///node_modules/<m>.d.ts` each hold the text. |
| Resolver.ModulePathsDistinct | src/utils/moduleResolver.ts:19-23 | The three paths of one module are pairwise distinct, so registration makes three separate entries. |
| Resolver.ModulePathsOfDistinctModulesMayCoincide | src/utils/moduleResolver.ts:19-23 | The flat path of module `a/index` is the package-root path of module `a`. |
| Resolver.WriteAll | src/utils/moduleResolver.ts:25-30 | After the `forEach`, every listed path maps to the text. Every other path keeps its presence and its value. |
| Resolver.WriteAllSnoc | src/utils/moduleResolver.ts:25-30 | One more iteration of the `forEach` is one more overwrite. |
| Resolver.WriteAllIdempotent | src/utils/moduleResolver.ts:17-30 | Registering the same text twice leaves the host table as registering it once. |
| Resolver.WriteAllLastWriteWins | src/utils/moduleResolver.ts:17-30 | A second registration under the same paths replaces the first. |
| Resolver.CreateAmbientDeclaration | src/utils/moduleResolver.ts:41-49 | The text contains `declare module '<name>'` and `export = content;`. |
| Resolver.AmbientDeclarationInjective | src/utils/moduleResolver.ts:41-49 | Different module names give different declarations. |
| Resolver.SetTracksRegistrations | src/utils/moduleResolver.ts:8-33 | After one more `set`, the map's key list is still the distinct registered names in first-registration order. |
| Resolver.ModuleResolver.constructor | src/utils/moduleResolver.ts:8-12 | A new resolver has an empty module map, nothing registered, and the given host. |
| Resolver.ModuleResolver.RegisterModule | src/utils/moduleResolver.ts:17-36 | The three module paths map to the text and every other host path is unchanged. `moduleMap` is the old map with the name set to the text. The key-list invariant is kept. |
| Resolver.ModuleResolver.RegisterAmbientModules | src/utils/moduleResolver.ts:54-134 | Only `file:///node_modules/@types/ambient-modules.d.ts` changes in the host, and it receives the fixed declarations. `moduleMap` is unchanged. |
| Resolver.ModuleResolver.GetRegisteredModules | src/utils/moduleResolver.ts:139-141 | The names are exactly the registered ones and exactly the map's keys: no duplicates, in first-registration order. |
| Preview.Capture | src/Preview.tsx:14 | `match[1]` is non-empty and contains no quote. |
| Preview.FindQuote | src/Preview.tsx:10 | The result is the first quote at or after `i`, or the end of the text when there is none. |
| Preview.MatchUnique | src/Preview.tsx:10 | At most one match starts at a given position. |
| Preview.MatchAt | src/Preview.tsx:10 | A match found at `p` starts at `p` and satisfies the pattern. |
| Preview.MatchAtComplete | src/Preview.tsx:10 | When the test at `p` fails, no match of the pattern starts at `p`. |
| Preview.NextMatch | src/Preview.tsx:13 | A match found from `lastIndex` satisfies the pattern and starts at or after `lastIndex`. It ends at least 9 characters after `lastIndex`, within the text. |
| Preview.NextMatchLeftmost | src/Preview.tsx:10-13 | The match found is the leftmost one from `lastIndex`. When none is found, no match starts at or after `lastIndex`. |
| Preview.Bare | src/Preview.tsx:15-19 | Exactly the captures that start with none of `./`, `../`, `/` are kept. |
| Preview.BareSnoc | src/Preview.tsx:15-21 | One more capture is kept exactly when it is not a relative or absolute path. |
| Preview.CollectStep | src/Preview.tsx:15-21 | One loop iteration skips a relative capture, and adds a bare one to the set. |
| Preview.CapturesStep | src/Preview.tsx:13-14 | The capture of the match found comes first, then the captures from where the match ended. |
| Preview.ExtractImports | src/Preview.tsx:9-24 | The `while`/`exec` loop returns exactly `ImportSpecifiers(input)`. It terminates on every input because every match advances `lastIndex`. |
| Preview.ImportSpecifiersAreBareCaptures | src/Preview.tsx:13-21 | A string is in the result if and only if the scan captured it and it is not a relative or absolute path. |
| Preview.ImportSpecifiersNotRelative | src/Preview.tsx:15-19 | No result starts with `./`, `../` or `/`. |
| Preview.BareKeepsFirstOccurrenceOrder | src/Preview.tsx:15-21 | Of two kept specifiers, the one that occurs first among the kept captures also occurs first among all captures. |
| Preview.ImportSpecifiersFirstSeenOrder | src/Preview.tsx:11-23 | The result has no duplicates. It is in the order in which its specifiers first occur in the scan's captures, and so in the bare captures too. |
| Preview.CapturesSound | src/Preview.tsx:10-14 | Every capture from a position on is non-empty, quote-free, and the capture of a match of the pattern in the input. |
| Preview.ImportSpecifiersSound | src/Preview.tsx:10-24 | Every result is non-empty, quote-free, and stands between quotes after an `import` with no quote in between. |
| Preview.NoKeywordNoImports | src/Preview.tsx:10-13 | An input without `import` gives the empty result. |
| Preview.FindQuoteAt | src/Preview.tsx:10 | The first quote from `i` on is found at `j` when `j` holds a quote and no quote precedes it from `i`. |
| Preview.MatchOfParts | src/Preview.tsx:10 | The keyword, two quote-free runs and two quotes in place make the pattern match at that position with those quotes. |
| Preview.StatementMatch | src/Preview.tsx:10 | `import<gap>'<spec>'`, with a quote-free gap and a non-empty quote-free spec, matches wherever it stands and captures `spec`. |
| Preview.SkipNonKeywords | src/Preview.tsx:10-13 | `exec` passes over positions where `import` does not start. |
| Preview.NextMatchHere | src/Preview.tsx:13 | When the pattern matches at `lastIndex`, `exec` returns that match. |
| Preview.TwoMatches | src/Preview.tsx:13-14 | Two matches separated only by text without the keyword, the second ending the input, give exactly their two captures. |
| Preview.BareThenRelative | src/Preview.tsx:15-23 | A bare specifier followed by a relative one gives the bare one alone. |
| Preview.ExampleSpelling | src/Preview.tsx:10 | The example's two statements are `import {x} from 'left-pad'` and `import y from './local'`. |
| Preview.ExampleCaptures | src/Preview.tsx:13-14 | The scan of the example captures `left-pad` and then `./local`. |
| Preview.ExampleImports | src/Preview.tsx:9-24 | `import {x} from 'left-pad'; import y from './local'` gives exactly `["left-pad"]`. |
| Preview.BuildImportMap | src/Preview.tsx:26-33 | The `forEach` loop builds exactly `ImportMapOf(imports)`, the writes of both entries for each specifier in turn. |
| Preview.ImportMapKeys | src/Preview.tsx:28-33 | The keys are the specifiers and the specifiers followed by `/`, and nothing else. |
| Preview.ImportMapValues | src/Preview.tsx:28-33 | Every value is the bundle URL or the prefix URL of some specifier. |
| Preview.ImportMapEntries | src/Preview.tsx:28-33 | When no specifier is another one followed by `/`, each specifier maps to its `?bundle` URL and `spec/` maps to its `/` prefix. |
| Preview.ImportMapEmpty | src/Preview.tsx:27 | No specifiers give the empty map. |
| Preview.BundleIsNotPrefix | src/Preview.tsx:30-32 | A bundle URL is never a prefix URL. |
| Preview.ImportMapSlashCollision | src/Preview.tsx:28-33 | For `["a", "a/"]` the key `a/` ends with the bundle URL of `a/`, not the prefix of `a`: the later write wins. |

The helpers `Ordered.FirstIndex`, `Ordered.FirstIndexOfPrefix`, `Ordered.FirstIndexOfLast` and `Ordered.AppendAssoc` support the proofs and need no row. So do `Resolver.OccursBetween` and `Preview.Statement`, `Preview.SlashLonger`, `Preview.ExampleFirst`, `Preview.ExampleSecond`, `Preview.ExampleSeparator` and `Preview.ExampleKinds`.

`CapturesFrom`, `ImportSpecifiers` and `ImportMapOf` are specification functions. The lemmas and methods above state their properties.

## Left out

- The logging calls (`console.log`) in `registerModule` and `registerAmbientModules` have no effect on state.
- The Monaco instance is left out. The model keeps only the `addExtraLib` overwrite on a path-to-text table. The disposable that `addExtraLib` returns and the language worker's reaction to new libraries are not modelled.
- `JSON.stringify` in `buildImportMap` is left out: the model returns the map itself, not its text. So the model does not capture three things:
  - the JSON key order;
  - the indentation;
  - the special behaviour of a `__proto__` key on a plain object. In the model every key is an ordinary entry.
- The JavaScript regular-expression engine is left out. It is replaced by the deterministic reading of this one pattern described above. Strings are sequences of Dafny characters, not UTF-16 code units.
- For `registerAmbientModules`, the ambient declaration text is carried as the value written. Nothing is proved about its contents.
- The following are left out because they lie outside the two modelled files or do not compute what is modelled here:
  - `htmlTemplate`, the `Preview` component and its effect;
  - the bundler;
  - the worker proxy;
  - the IntelliSense debugger;
  - the editor and library-manager UI components;
  - the type declaration files.
- The type-fetching coordinator is not part of this model. The code in `utils/intelligenceManager` and `utils/typeFetcher` is not among the modelled source files. Nothing of it is modelled: its cache statistics, the merging of duplicate in-flight fetches, the concurrency cap and the debounce loop.
