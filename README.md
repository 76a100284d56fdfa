# Alveus website: found-animal guidance and the Animal Quest episode strategies

This project is a Dafny model of two small pieces of logic in the Alveus Sanctuary website.

**The "found an animal" guidance tree** (`apps/website/src/data/found-animal.ts`):
- The recursive flow type: a prompt of lines, plus optional named options, each owning a child flow.
- The two text macros `rehab(animal = "it", context = "")` and `leave(animal = "it")`.
- The bundled tree, transcribed as one constant built from those macros.

The model proves the following about the tree:
- Every node reachable by any path of option names has a non-empty prompt.
- Each node either has no options or has a non-empty list of distinctly named options.
- Every terminal node ends with a macro's recommendation.
- Concrete paths through the tree lead where the tree says.

**The Animal Quest episode list** (`apps/website/src/pages/animal-quest/index.tsx`):
- Episode numbering: each entry gets `idx + 1` and the list is reversed.
- The three strategies of `sortByOptions`:
  - `all` is the identity.
  - `classification` pairs each episode with its lead ambassador and sorts the pairs by class, then by episode number descending. It then groups them in a `Map` keyed by the slug of the classification.
  - `broadcast` sorts newest first and groups by the UTC year string.
- The separator rule that joins featured ambassador names.

The grouping reduce is a method with a loop over an ordered map. It is proved against specification functions:
- `Keys`: the keys in order of first occurrence.
- `Select`: a key's items in list order.
- `GroupName`: the name written last for a key.

Its contract gives the partition property, first-seen group order and order within a group.

Two ECMAScript behaviours are modelled explicitly:
- `Map.prototype.set`: ECMA-262, section 24.1.3.9. An existing key keeps its place; a new key is appended.
- `Array.prototype.sort`: ECMA-262, section 23.1.3.30. The sort is a permutation, is ordered for a consistent comparator, and is stable. It is modelled by insertion sort on values.

Modules, one per file:
- `Wrappers`: `Option`.
- `OrderedMaps`: the ECMAScript `Map` as an ordered map.
- `ArraySort`: the array sort.
- `Decimal`: `Number.prototype.toString` for integers below 10^21 in magnitude.
- `Grouping`: the reduce.
- `AnimalQuest`: the page's strategies.
- `FoundAnimal`: the tree.

## Model

| member | source | states |
|---|---|---|
| FoundAnimal.Rehab | apps/website/src/data/found-animal.ts:13-18 | `rehab` returns exactly two lines, and the second is the fixed sentence about finding a local rehabilitator |
| FoundAnimal.RehabHelp | apps/website/src/data/found-animal.ts:16 | the part of the first rehab line after the verb names the animal verbatim |
| FoundAnimal.RehabOpening | apps/website/src/data/found-animal.ts:14-16 | the first line begins "Call a wildlife rehabilitator." when `context` is empty and "{context}, call a wildlife rehabilitator." otherwise; it contains the animal |
| FoundAnimal.RehabSecondLineFixed | apps/website/src/data/found-animal.ts:17 | the second rehab line is the same for all arguments |
| FoundAnimal.Leave | apps/website/src/data/found-animal.ts:19-23 | `leave` returns exactly three lines, and the last begins "Do not feed or otherwise interfere with it, to avoid " |
| FoundAnimal.LeaveMentions | apps/website/src/data/found-animal.ts:20-22 | each of the three `leave` lines contains the animal verbatim, and the first begins "Leave {animal}" |
| FoundAnimal.MacroDefaults | apps/website/src/data/found-animal.ts:13-20 | `rehab()` is `rehab("it", "")` and begins "Call a wildlife rehabilitator."; `leave()` is `leave("it")` and begins "Leave it" |
| FoundAnimal.Choose | apps/website/src/data/found-animal.ts:1-9 | picking an option by name gives nothing exactly when no sibling has that name, and otherwise the flow of a sibling with that name |
| FoundAnimal.FollowAppend | apps/website/src/data/found-animal.ts:1-9 | following a path `p + q` is following `p` and then `q` from the node reached |
| FoundAnimal.FollowKeepsSound | apps/website/src/data/found-animal.ts:1-9 | every node reached from a well-formed subtree is itself a well-formed subtree |
| FoundAnimal.DataSound | apps/website/src/data/found-animal.ts:27-364 | every node of the bundled tree has a non-empty prompt; a branching node has a non-empty `options` list with distinct names, never an empty list; every terminal node ends with a macro's closing line |
| FoundAnimal.ReachedNodesWellFormed | apps/website/src/data/found-animal.ts:27-364 | for every path of option names, the node reached (if any) has the well-formed shape, and a terminal node ends with a recommendation |
| FoundAnimal.RootQuestion | apps/website/src/data/found-animal.ts:28 | the root prompt is exactly "What animal have you found in distress?" |
| FoundAnimal.BirdQuestion | apps/website/src/data/found-animal.ts:31-36 | choosing "Bird" reaches a node whose first line is "Is the bird injured?" |
| FoundAnimal.InjuredBird | apps/website/src/data/found-animal.ts:31-43 | Bird then Yes reaches a terminal node whose prompt is exactly `rehab("an injured bird")` |
| FoundAnimal.FledglingSafe | apps/website/src/data/found-animal.ts:50-62 | at the fledgling question, Yes reaches a terminal node whose prompt is `leave("the bird")` |
| FoundAnimal.SafeFledgling | apps/website/src/data/found-animal.ts:31-62 | Bird, No, Yes, Yes reaches a terminal node whose prompt is exactly `leave("the bird")` |
| FoundAnimal.LeaveTheBird | apps/website/src/data/found-animal.ts:20 | the first line of `leave("the bird")` is "Leave the bird" followed by " alone and keep yourself, and any pets, away from it." |
| FoundAnimal.UnknownAnimal | apps/website/src/data/found-animal.ts:29-363 | a name other than Bird, Deer/Fawn, Cat, Squirrel and Raccoon is not offered at the root |
| OrderedMaps.OrderedMap.Get | apps/website/src/pages/animal-quest/index.tsx:75 | `map.get(k)` gives a value exactly when `k` has an entry, and that entry's value |
| OrderedMaps.OrderedMap.Set | apps/website/src/pages/animal-quest/index.tsx:73-76 | after `map.set(k, v)`, `k` maps to `v` and every other key keeps its value; an existing key keeps its position, a new key is appended; the map stays well formed |
| OrderedMaps.Empty | apps/website/src/pages/animal-quest/index.tsx:79 | `new Map()` is well formed, has no keys and gives nothing for every key |
| ArraySort.Insert | apps/website/src/pages/animal-quest/index.tsx:61 | inserting into a list adds exactly that element |
| ArraySort.StableSort | apps/website/src/pages/animal-quest/index.tsx:61-67 | the sorted array is a permutation of the input |
| ArraySort.SortSorted | apps/website/src/pages/animal-quest/index.tsx:86 | for a consistent comparator the sorted array never puts an element after one the comparator orders after it |
| ArraySort.SortStable | apps/website/src/pages/animal-quest/index.tsx:86 | elements the comparator calls equal keep their input order |
| Decimal.IntToString | apps/website/src/pages/animal-quest/index.tsx:88 | `toString()` of an integer below 10^21 in magnitude is non-empty and starts with "-" exactly for negative numbers |
| Decimal.RoundTrip | apps/website/src/pages/animal-quest/index.tsx:88 | reading the year string back gives the year |
| Decimal.Injective | apps/website/src/pages/animal-quest/index.tsx:88 | different years have different strings, so different years make different groups |
| Decimal.AllInjective | apps/website/src/pages/animal-quest/index.tsx:88 | `toString()` is one-to-one on integers, for every pair at once |
| Grouping.GroupBy | apps/website/src/pages/animal-quest/index.tsx:68-80 | the reduce lists each key once, in order of first occurrence in the sorted list; each group holds the name of the last element with that key and that key's items in list order; every element's key has a group; the groups together hold exactly the input's items |
| Grouping.PreviousItems | apps/website/src/pages/animal-quest/index.tsx:75 | `map.get(k)?.items \|\| []` is the stored items of `k`, or empty when `k` has no entry |
| Grouping.Step | apps/website/src/pages/animal-quest/index.tsx:73-76 | one `map.set` step turns the groups of a list into the groups of the list one element longer |
| Grouping.KeysFirstSeen | apps/website/src/pages/animal-quest/index.tsx:90-93 | the keys are distinct, are exactly the keys that occur, and come in order of first occurrence |
| Grouping.Partition | apps/website/src/pages/animal-quest/index.tsx:87-95 | when the keys cover every element once, the groups' items together are the input's items with the same multiplicities |
| Grouping.GroupKeepsOrder | apps/website/src/pages/animal-quest/index.tsx:92 | within a group, an element's item sits at a position that grows with the element's position in the sorted list |
| Grouping.SelectPrefix | apps/website/src/pages/animal-quest/index.tsx:75 | a group built from a prefix of the list is a prefix of the final group, since items are only appended |
| Grouping.GroupNameOf | apps/website/src/pages/animal-quest/index.tsx:74 | when every element of a key writes the same name, the group's name is that name |
| Grouping.GroupNameWriter | apps/website/src/pages/animal-quest/index.tsx:73-76 | a key that occurs is named by one of its own elements, the last one `set` under it |
| Grouping.ProjectPermutation | apps/website/src/pages/animal-quest/index.tsx:56-60 | rearranging a list rearranges its projected items the same way |
| AnimalQuest.Reverse | apps/website/src/pages/animal-quest/index.tsx:45 | `.reverse()` keeps the length and puts element `i` at position `n - 1 - i` |
| AnimalQuest.Numbered | apps/website/src/pages/animal-quest/index.tsx:41-44 | `.map` keeps each entry in its place and gives entry `idx` the episode number `idx + 1` |
| AnimalQuest.NumberEpisodes | apps/website/src/pages/animal-quest/index.tsx:40-45 | position `k` of the page's list holds source entry `n - 1 - k` with episode number `n - k` |
| AnimalQuest.NumbersDescend | apps/website/src/pages/animal-quest/index.tsx:40-45 | episode numbers lie in 1..n and strictly decrease down the list, so none repeats |
| AnimalQuest.Label | apps/website/src/pages/animal-quest/index.tsx:50 | only the `all` option is labelled "All Episodes" |
| AnimalQuest.Lead | apps/website/src/pages/animal-quest/index.tsx:59 | the lead ambassador exists exactly when the episode has a first featured key with a record, and is that record |
| AnimalQuest.Pairs | apps/website/src/pages/animal-quest/index.tsx:57-60 | pairing fails exactly when some episode has no lead record; otherwise each episode is paired, in place, with its lead |
| AnimalQuest.ByClassThenNumber | apps/website/src/pages/animal-quest/index.tsx:62-66 | the comparator puts `p` first exactly when its class comes first, or the classes compare equal and `p` has the higher episode number; it returns 0 exactly when the classes compare equal and the episode numbers are equal |
| AnimalQuest.ClassificationConsistent | apps/website/src/pages/animal-quest/index.tsx:62-66 | a consistent class comparator, with ties broken by episode number descending, is a consistent comparator |
| AnimalQuest.ClassesTransitive | apps/website/src/pages/animal-quest/index.tsx:63-65 | a consistent class comparator chains its zero and negative results transitively |
| AnimalQuest.ClassificationSorted | apps/website/src/pages/animal-quest/index.tsx:61-67 | after the sort, classes never go backwards, and where the comparator returns 0 the episode numbers go down |
| AnimalQuest.ClassificationKeysAreSlugs | apps/website/src/pages/animal-quest/index.tsx:70-74 | every classification group's key is `convertToSlug` of that group's name, the `getClassification` label it holds |
| AnimalQuest.ClassificationName | apps/website/src/pages/animal-quest/index.tsx:70-74 | the group name written for a pair depends only on its ambassador's class, so pairs of one class write the same name |
| AnimalQuest.SortByClassification | apps/website/src/pages/animal-quest/index.tsx:55-80 | the strategy fails exactly when an episode has no lead record; otherwise groups are keyed by the classification slug in first-seen order of the sorted pairs, and each key is the slug of its group's name; each is named by its classification and holds its episodes in sorted order; the groups hold exactly the input episodes |
| AnimalQuest.NewestFirst | apps/website/src/pages/animal-quest/index.tsx:86 | the timestamp comparator puts `a` first exactly when `a` was broadcast later, and calls two episodes equal exactly when their timestamps are equal |
| AnimalQuest.NewestFirstConsistent | apps/website/src/pages/animal-quest/index.tsx:86 | the timestamp comparator is consistent |
| AnimalQuest.YearKey | apps/website/src/pages/animal-quest/index.tsx:88 | two episodes get the same year key exactly when their broadcasts fall in the same UTC year |
| AnimalQuest.BroadcastOrder | apps/website/src/pages/animal-quest/index.tsx:85-86 | the broadcast sort (`ByBroadcastDate`, the stable sort of a copy under `NewestFirst`) keeps every episode and orders timestamps non-increasingly |
| AnimalQuest.YearsDescend | apps/website/src/pages/animal-quest/index.tsx:86-93 | when the year never decreases with the timestamp, the group keys are year strings in strictly decreasing year order |
| AnimalQuest.LaterYearFirst | apps/website/src/pages/animal-quest/index.tsx:86-88 | in a newest-first list, when the year never decreases with the timestamp, an earlier episode of a different year carries the later year |
| AnimalQuest.YearGroupsHomogeneous | apps/website/src/pages/animal-quest/index.tsx:88-92 | every episode in the group of year `y` was broadcast in year `y` |
| AnimalQuest.SelectHasKey | apps/website/src/pages/animal-quest/index.tsx:92 | an episode in a group has that group's key |
| AnimalQuest.SortByBroadcast | apps/website/src/pages/animal-quest/index.tsx:84-95 | groups are keyed by year string in first-seen order of the newest-first list; each is named by its own key and holds its episodes in that order; the groups hold exactly the input episodes |
| AnimalQuest.GroupNamedByKey | apps/website/src/pages/animal-quest/index.tsx:90-91 | when the name is the key, every group is named by its key |
| AnimalQuest.Arrange | apps/website/src/pages/animal-quest/index.tsx:48-97 | `all` returns the input unchanged; `broadcast` always succeeds with groups; `classification` fails exactly when a lead record is missing; `broadcast` gives the year groups of the newest-first list (keys in first-seen order, each named by its key, episodes in order); a successful `classification` gives the slug groups of the sorted pairs (keys in first-seen order, each the slug of its classification name, episodes in sorted order); every successful strategy shows each input episode exactly once |
| AnimalQuest.Separator | apps/website/src/pages/animal-quest/index.tsx:228-230 | after name `idx` of `count`: `", "` before the second-to-last; `", and "` after the second-to-last of more than two; `" and "` after the first of two; nothing after the last |
| AnimalQuest.Featuring | apps/website/src/pages/animal-quest/index.tsx:218-231 | the featuring line is the names as an English list with a serial comma: "A", "A and B", "A, B, and C" |
| AnimalQuest.FeaturingIsEnglishList | apps/website/src/pages/animal-quest/index.tsx:218-231 | each name followed by its separator, from the first name on, gives the serial-comma list; the separators turn the names into "A", "A and B" or "A, B, and C": `", "` before the second-to-last, then `","` and `" and "` for more than two, just `" and "` for two, and nothing after the last |
| AnimalQuest.FeaturingTail | apps/website/src/pages/animal-quest/index.tsx:228-230 | from any name up to the second-to-last, the rest of the line is the names joined by ", " and then ", and " before the last |

## Left out

- Rendering (JSX, styling, `Image`, `Link`, `Heading`, `Section`, `Meta`, `Select`, `Grouped`, `IconYouTube`) is not modelled; it has no behaviour beyond display.
- The featured-ambassador image choice (`apps/website/src/pages/animal-quest/index.tsx:151-183`) is not modelled; it only picks a picture.
- The `useGrouped` hook is not modelled. It holds the selected option in the URL and renders the dropdown, and it lives in a file that is not part of this model. `Arrange` models only the strategy functions passed to it.
- The ambassador records, `sortAmbassadorClassification`, `getClassification`, `convertToSlug` and `getUTCFullYear` are taken as parameters.
  - The comparator is assumed consistent only where a lemma needs that (`ArraySort.Consistent`).
  - The year function is assumed non-decreasing only in `AnimalQuest.YearsDescend` and its helper `AnimalQuest.LaterYearFirst`.
- Decimal.IntToString: writes every digit for any integer, while `Number.prototype.toString` switches to exponent form ("1e+21") from 10^21 up; the model agrees with ECMAScript only below 10^21 in magnitude, which every UTC year (at most 275760 in magnitude) is.
- `Date` is an integer timestamp. NaN timestamps and calendar arithmetic are not modelled.
- Of each Animal Quest entry, only the edition title (which identifies it), the broadcast time and the featured ambassador keys are kept.
- Reading `.class` of a missing ambassador record throws a TypeError in the page. Here it is the `None` result of `AnimalQuest.Pairs`, `AnimalQuest.SortByClassification` and `AnimalQuest.Arrange`.
- Only each ambassador's class key is modelled. The featuring line's lookup of `ambassadors[key].name`, and its links for active ambassadors, are not: `AnimalQuest.Featuring` joins the names it is given.
- `ArraySort.StableSort` works on values, not in place on an array. Every call in the page sorts a fresh copy (`[...episodes]`), so the input array is never changed and nothing else observes the in-place update.
- `ArraySort.SortSorted` and `ArraySort.SortStable` are weaker than a full sort contract: they hold only for a consistent comparator. For an inconsistent one, ECMA-262 leaves the order implementation-defined, and only the permutation is stated.
- `AnimalQuest.ClassificationSorted` states the order only for a consistent class comparator, for the same reason.
- `FoundAnimal.SafeFledgling` states the reached node's prompt as `leave("the bird")`, not as the literal first line. `FoundAnimal.LeaveTheBird` then gives that line as "Leave the bird" followed by the fixed ending.
- `FoundAnimal.Rehab` and `FoundAnimal.Leave` state in their own contracts only the line count and a fixed line. The rest of what they promise is stated in `FoundAnimal.RehabOpening`, `FoundAnimal.RehabSecondLineFixed`, `FoundAnimal.LeaveMentions` and `FoundAnimal.MacroDefaults`.
- A separate navigator (select, back and restart with a history stack) and a load-time tree validator that reports a defective node's path are not modelled: no such code exists. The code is only the tree literal, so the model follows the code. Its structural guarantees are proved of the one bundled tree (`FoundAnimal.DataSound`), and paths are followed by the pure `FoundAnimal.Follow`.
- There is no strategy-not-found error. The options are a closed set of three here, as they are in the page's `as const` object.
