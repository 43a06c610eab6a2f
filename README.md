# Stored artifacts of the artifact reader

The artifact reader (m19e/artifact-reader) reads a screenshot of a game
artifact, scores its substats, and lets the user keep a list of scored
artifacts in the browser. This project models that stored-artifact list as
the reader page (`src/pages/reader/index.tsx`) handles it:

- **save** puts the artifact being edited at the front of the list, under a newly made id;
- **remove** drops every entry with a given id;
- **edit** replaces every entry with a given id by a new artifact;
- **the filtered view** is what the grid shows under the artifact-type and set dropdowns, where `"ALL"` is the wildcard;
- **the set dropdown** offers each set that occurs in the list, once.

The page replaces the state cell with a new array on every update, and nothing in it loops. So each operation is a Dafny function from the old list to the new one. The properties are lemmas relating these functions to each other.

Module `ArrayOps` (`ArrayOps.dfy`) models the JavaScript builtins the page uses. `Filter` is `Array.prototype.filter`. `Map` is `Array.prototype.map`. `Distinct` is `Array.from(new Set(xs))`: a `Set` keeps insertion order, so each value sits at its first occurrence. These are recursive functions, and their contracts say what the builtin guarantees:

- `Filter`: the result is an order-preserving subsequence (`IsSubsequence`), every element of it passes the test, and every passing element keeps its multiplicity.
- `Map`: element-wise images, with the length unchanged.
- `Distinct`: no duplicates, the same values as the input, ordered by first occurrence.

Module `Reader` (`Reader.dfy`) holds the page's own logic. `Artifact<P>` has an `id`, the id of its artifact type (`typeId`), the id of its set (`setId`), and a payload `P` that none of the operations reads. The payload stands for every other field of `Artifact` (declared in `@/types/Scorer`), including the rest of its `type` and `set` records.

The filter predicate in the source is the three-way disjunction
`(allType && validSet) || (allSet && validType) || (validType && validSet)`.
`PageKeeps` is that disjunction. `FilteredView` applies it, together with the `"ALL"`-shortcut branch, exactly as written. `FilteredViewIsFilter` proves that, for all filter strings, the view equals filtering by the conjunction `Matches`:
`(type filter is "ALL" or equals the type id) && (set filter is "ALL" or equals the set id)`.
No assumption is made that real ids differ from `"ALL"`.

The substat parsing and scoring engine lives in `@/tools/Scorer`, `@/hooks/Scorer` and `@/consts/Scorer`, outside the reader page, so it is not part of this model.

## Model

| member | source | states |
|---|---|---|
| `ArrayOps.Filter` | src/pages/reader/index.tsx:80 | The result of `filter` is an order-preserving subsequence of the input. Every element of it passes the test. Each passing element occurs as often as in the input, and nothing else occurs. |
| `ArrayOps.Map` | src/pages/reader/index.tsx:83 | The result of `map` has the input's length, and position i holds the image of input position i. |
| `ArrayOps.Distinct` | src/pages/reader/index.tsx:161 | `Array.from(new Set(xs))` has no duplicates and holds exactly the values of `xs`. They are ordered by first occurrence in `xs`. |
| `Reader.Save` | src/pages/reader/index.tsx:75-78 | The list grows by one. The new head is the current artifact with its id replaced by the new id. All old entries follow in their original order. |
| `Reader.Remove` | src/pages/reader/index.tsx:79-81 | No entry with the target id survives. Every other entry is kept with its multiplicity, in its original relative order (a subsequence). The length is unchanged exactly when no entry had the id. |
| `Reader.RemoveShrinks` | src/pages/reader/index.tsx:80 | Filtering out an id keeps the length exactly when no entry carries that id. |
| `Reader.RemoveAbsent` | src/pages/reader/index.tsx:80 | Removing an id that is not present returns the list unchanged. |
| `Reader.RemoveTwice` | src/pages/reader/index.tsx:80 | Removing the same id twice equals removing it once. |
| `Reader.RemoveAfterSave` | src/pages/reader/index.tsx:75-81 | Removing the id just saved gives the same list as removing that id from the list before the save. |
| `Reader.RemoveUndoesSave` | src/pages/reader/index.tsx:75-81 | If the new id was not used before, removing it after a save restores the previous list. |
| `Reader.Edit` | src/pages/reader/index.tsx:82-84 | Length is preserved. Every position whose id matches becomes the new artifact, and every other position is unchanged. |
| `Reader.EditAbsent` | src/pages/reader/index.tsx:83 | Editing an id that is not present is the identity. |
| `Reader.EditTwice` | src/pages/reader/index.tsx:82-84 | Applying the same edit twice equals applying it once, whatever id the new artifact carries. |
| `Reader.RemoveAfterEdit` | src/pages/reader/index.tsx:79-84 | If the edit keeps the id, removing that id afterwards gives the same list as removing it without the edit. |
| `Reader.PageKeeps` | src/pages/reader/index.tsx:91-98 | The page's test on one artifact when some filter is chosen: the type filter is "ALL" and the set matches, or the set filter is "ALL" and the type matches, or both match. Whenever the two filters are not both "ALL", it holds exactly when the artifact satisfies the conjunction `Matches`. |
| `Reader.FilteredView` | src/pages/reader/index.tsx:86-99 | Every shown artifact passes both filters. The view is an order-preserving subsequence of the store. Each stored artifact that passes is shown as often as it is stored. |
| `Reader.FilteredViewIsFilter` | src/pages/reader/index.tsx:86-99 | For every pair of filter values, the page's view (the "ALL"/"ALL" shortcut, else the three-way disjunction) equals filtering by the conjunction of the two per-field conditions. |
| `Reader.FilteredViewIsWholeStore` | src/pages/reader/index.tsx:86-99 | The view equals the whole store if and only if every stored artifact passes the filters. |
| `Reader.FilteredViewUnfiltered` | src/pages/reader/index.tsx:86-90 | With both filters on "ALL", the view is the stored list. |
| `Reader.FilteredViewAfterSave` | src/pages/reader/index.tsx:75-99 | After a save, the view is the saved artifact (only if it passes the filters) followed by the view of the older entries. |
| `Reader.SetIds` | src/pages/reader/index.tsx:161 | Position i holds the set id of stored entry i. |
| `Reader.SetOptions` | src/pages/reader/index.tsx:161 | The set dropdown's options have no duplicates and contain a set id exactly when some stored artifact belongs to that set. They are ordered by first occurrence in the store. |
| `Reader.SetOptionSelectsSomething` | src/pages/reader/index.tsx:154-168 | Choosing any offered set, with the type filter on "ALL", shows at least one artifact. |
| `Reader.UnofferedSetSelectsNothing` | src/pages/reader/index.tsx:154-168 | A set filter that is neither "ALL" nor an offered option shows nothing, whatever the type filter. |

## Left out

- The OCR step (src/pages/reader/index.tsx:47-74) is left out. It is an asynchronous call into the Tesseract library: the worker is created, loaded, run and terminated.
- Substat parsing and scoring are left out: `getSubStatusDatas` (`@/tools/Scorer`), the `useArtifact` hook (`@/hooks/Scorer`), and `ArtifactTypeList` and `ArtifactSet` (`@/consts/Scorer`) live outside the reader page. Every field of `Artifact` other than its id, type id and set id, including the rest of its `type` and `set` records, is the opaque payload `P`.
- Id generation is left out. `Date.now().toString(16)` reads the clock, so `Save` takes the new id as a parameter. Ids are not assumed unique, and the lemmas say what happens when an id repeats.
- Persistence is left out. `useLocalStorage` is a browser-storage hook, so the stored list is a plain sequence value.
- Browser and UI wiring is left out: `URL.createObjectURL`, the React `useState`/`useCallback` cells, and all JSX rendering. The dropdowns are modelled only as the strings they set.
- `src/components/atoms/Header.tsx` is left out because it is presentational markup with no list logic.
- `src/pages/index.tsx` is left out because it is page markup plus a wrapper over the `next-useragent` parser.
