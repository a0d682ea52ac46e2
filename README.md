# Vocabulary manager: store and query engine

A model of the non-presentational logic of a personal dictionary application
(a single React page, `App.tsx`, over the records of `types.ts`). The page
keeps two collections, word entries and sentence entries. Handlers add
entries to the front, delete them after a confirmation, and replace the
notes of a word. Two derived values are recomputed on every change. The
first is the list of distinct sentence categories. The second is the
visible list: words filtered by a case-insensitive substring search and
sorted newest-first, oldest-first or alphabetically, or sentences filtered
by search and category and sorted newest-first.

Layout:

- `types.dfy` (module `Types`): the records, drafts, sort options and tabs, and entry construction from a draft.
- `seqs.dfy` (module `Seqs`): `filter` and insertion-ordered de-duplication (`Array.from(new Set(…))`) with their properties.
- `sorting.dfy` (module `Sorting`): `Array.prototype.sort` with a comparator, as an in-place insertion sort on an array. It is stable, like the ECMAScript sort, and sorted-and-stable determines the result.
- `query.dfy` (module `Query`): substring search, the match predicates of both tabs, the comparators, the two query branches and the category list.
- `store.dfy` (module `Store`): the class `Dictionary` holding `words` and `sentences` as `seq` fields, with one method per handler. It also holds the delete and note-update functions and their lemmas.

Modelling choices:

- The generated id (`crypto.randomUUID`), the clock (`Date.now`) and the answer of `window.confirm` are parameters of the handlers.
- The uniqueness of ids is the object invariant `Dictionary.Valid()`. Adding keeps it when the supplied id is new to the collection. Deleting and updating notes always keep it.
- `toLowerCase` and `localeCompare` are parameters `lower` and `collate`. The alphabetical order needs `collate` to be a total preorder, which a conforming `localeCompare` is.
- `includes` is written out as a scan, `Query.Includes`, and proved equal to "some position starts a copy of the needle".
- `WordEntry.translation` and `WordEntry.tags` are `Option`s. `types.ts` declares them required, but the search reads them with optional chaining (`?.`), so entries from older saved data may lack them. An absent field never matches.
- Timestamps are unbounded integers. The source subtracts them as JavaScript numbers, which is exact for millisecond timestamps.
- Delete is a `filter` (App.tsx:64, 70), so it removes every entry carrying the id, not just one; with unique ids that is exactly one (`WithoutPresentIdRemovesOne`).
- `translation` and `tags` are declared required in `types.ts`, yet each read in the search goes through `?.` (App.tsx:88, 90), so an absent field is handled at the read and never matches.
- The view computation `Dictionary.FilteredContent` has no `modifies` clause. So it cannot change either collection; the sort works on a freshly allocated array.

## Model

| member | source | states |
|---|---|---|
| Types.NewWord | App.tsx:44-49 | the new word carries the supplied id and timestamp, and splitting it back off yields exactly the draft |
| Types.NewSentence | App.tsx:53-58 | the new sentence carries the supplied id and timestamp, and splitting it back off yields exactly the draft |
| Types.WordSplitRoundTrip | types.ts:1-11 | every word entry is its draft plus its id and timestamp |
| Types.SentenceSplitRoundTrip | types.ts:13-20 | every sentence entry is its draft plus its id and timestamp |
| Seqs.Filter | App.tsx:86-91 | `filter` holds exactly the elements of the input that satisfy the predicate and never grows the sequence |
| Seqs.FilterCounts | App.tsx:86-91 | `filter` keeps each element satisfying the predicate as often as it occurs, and no other element |
| Seqs.FilterIsSubsequence | App.tsx:64 | the filtered sequence keeps the survivors in their original relative order |
| Seqs.FilterKeepsAll | App.tsx:86-91 | when every element satisfies the predicate, `filter` returns the sequence unchanged |
| Seqs.FilterKeepsUniqueKeys | App.tsx:64 | filtering a sequence with unique ids leaves the ids unique |
| Seqs.SwapKeepsFilter | App.tsx:94-96 | exchanging two neighbours that do not both pass the predicate leaves the filtered sequence unchanged |
| Seqs.Dedup | App.tsx:80-81 | the set-to-array conversion holds exactly the values of the input, with no value twice |
| Seqs.DedupFirstSeenOrder | App.tsx:80-81 | the de-duplicated values stand in the order of their first occurrence in the input |
| Sorting.SortInPlace | App.tsx:94-96 | sorting rearranges the array (same multiset) so that no element precedes one the comparator puts strictly before it, and it is stable: each group of elements the comparator ties keeps its original relative order |
| Sorting.SwapKeepsStable | App.tsx:94-96 | swapping a strictly misordered pair of neighbours keeps every group of tied elements in its order |
| Sorting.SortedStableUnique | App.tsx:94-96 | two sorted, stable rearrangements of the same sequence are equal, so the sort's contract fixes its result |
| Query.Includes | App.tsx:87 | defines `includes` as a scan over the start positions of the string; the empty needle is always included and a needle longer than the string never is |
| Query.WordMatches | App.tsx:86-91 | defines the words-tab match: the lowered query is a substring of the lowered word, translation (if present), definition, or some tag (if tags are present) |
| Query.SentenceMatches | App.tsx:101-107 | defines the sentences-tab match: the lowered query is a substring of the lowered content or translation, and the category filter is `ALL` or equals the sentence's category |
| Query.WordFilter | App.tsx:86-91 | defines the words-tab filter: the words satisfying `WordMatches`, in stored order |
| Query.SentenceFilter | App.tsx:101-107 | defines the sentences-tab filter: the sentences satisfying `SentenceMatches`, in stored order |
| Query.WordsNewestFirst | App.tsx:96 | defines the NEWEST comparator `b.createdAt - a.createdAt` |
| Query.WordsOldestFirst | App.tsx:95 | defines the OLDEST comparator `a.createdAt - b.createdAt` |
| Query.WordsByWord | App.tsx:94 | defines the ALPHABETICAL comparator, the collation of the two `word` fields |
| Query.WordComparator | App.tsx:93-97 | defines the switch from sort option to comparator |
| Query.SentencesNewestFirst | App.tsx:109 | defines the sentences comparator `b.createdAt - a.createdAt` |
| Query.CategoryColumn | App.tsx:80 | defines `sentences.map(s => s.category)`: one category per sentence, position by position |
| Store.WithoutId | App.tsx:62-72 | defines delete as the filter keeping entries whose id differs from the argument |
| Store.WithNote | App.tsx:75 | defines the note update as the map replacing `notes` on entries with a matching id |
| Query.IncludesIffOccurs | App.tsx:87 | `includes` holds exactly when the needle occurs at some position of the string |
| Query.EmptyQueryKeepsAllWords | App.tsx:86-91 | an empty search keeps every word in its place |
| Query.EmptyQueryKeepsAllSentences | App.tsx:101-107 | an empty search under the `ALL` category keeps every sentence |
| Query.MissingFieldsDoNotMatch | App.tsx:88-90 | a word without translation and tags matches only through its word or definition |
| Query.WordComparatorIsPreorder | App.tsx:93-97 | the oldest-first and newest-first comparators are total preorders, and so is the alphabetical one under a consistent collation |
| Query.SortedByComparatorIffOrdered | App.tsx:93-97 | being sorted by the chosen comparator is the same as: descending `createdAt` for NEWEST, ascending for OLDEST, collation order of `word` for ALPHABETICAL |
| Query.WordsViewUnique | App.tsx:85-98 | two lists that are both in the option's order and both keep tied words in filtered order are equal: the words view is determined |
| Query.SentencesViewUnique | App.tsx:101-109 | two newest-first lists that both keep equal-time sentences in filtered order are equal: the sentences view is determined |
| Query.QueryWords | App.tsx:85-98 | the words view holds exactly the matching words, each as often as stored, in the order the sort option names; words the comparator ties keep their stored order |
| Query.QuerySentences | App.tsx:101-109 | the sentences view holds exactly the sentences matching search and category, each as often as stored, by descending `createdAt`; sentences with equal `createdAt` keep their stored order |
| Query.Categories | App.tsx:79-82 | the category list holds each category used by some sentence, once, and nothing else |
| Query.CategoriesFirstSeenOrder | App.tsx:79-82 | the categories appear in the order in which the sentences first use them |
| Store.WithoutIdRemovesExactly | App.tsx:62-72 | delete keeps exactly the entries whose id differs, with their multiplicity and relative order |
| Store.WithoutIdKeepsUniqueKeys | App.tsx:64 | delete keeps the ids unique |
| Store.WithoutAbsentId | App.tsx:64 | deleting an id no entry carries leaves the collection unchanged |
| Store.WithoutPresentIdRemovesOne | App.tsx:64 | with unique ids, deleting a present id shortens the collection by exactly one |
| Store.DeleteUndoesAdd | App.tsx:50-70 | deleting the entry just added under a fresh id restores the previous collection |
| Store.WithNoteIsolated | App.tsx:74-76 | the note update keeps length and order, sets the note on matching words and changes no other field or entry |
| Store.WithNoteIdempotent | App.tsx:74-76 | applying the same note update twice equals applying it once |
| Store.WithNoteAbsentId | App.tsx:74-76 | a note update for an absent id changes nothing |
| Store.WithNoteKeepsUniqueIds | App.tsx:74-76 | the note update keeps the ids unique |
| Store.Dictionary.constructor | App.tsx:22-32 | a missing or unparseable slot leaves its collection empty; a parsed slot becomes the collection; unique ids in the parsed slots make the store valid |
| Store.Dictionary.AddWord | App.tsx:44-51 | the new entry is prepended to the unchanged old words, sentences are untouched, and a fresh id keeps ids unique |
| Store.Dictionary.AddSentence | App.tsx:53-60 | the new entry is prepended to the unchanged old sentences, words are untouched, and a fresh id keeps ids unique |
| Store.Dictionary.DeleteWord | App.tsx:62-66 | a confirmed delete filters out the id and, with unique ids and the id present, removes exactly one word; a declined one changes nothing; sentences are untouched |
| Store.Dictionary.DeleteSentence | App.tsx:68-72 | a confirmed delete filters out the id and, with unique ids and the id present, removes exactly one sentence; a declined one changes nothing; words are untouched |
| Store.Dictionary.UpdateNote | App.tsx:74-76 | words become the note-updated words, sentences are untouched, ids stay unique |
| Store.Dictionary.SentenceCategories | App.tsx:79-82 | the memo holds each category used by a stored sentence, once, and nothing else |
| Store.Dictionary.FilteredContent | App.tsx:84-111 | the words tab yields the matching words in the chosen order; the sentences tab yields the matching sentences newest first, whatever the sort option; on both tabs tied entries keep their stored order |

## Left out

- Saving (App.tsx:35-41): the write of each collection to `localStorage` after every change is I/O and is not modelled.
- Loading (App.tsx:22-32): JSON parsing is abstracted to the three outcomes of a slot. Text that parses to something other than an array of entries is not modelled.
- The `default` arm of the sort switch (App.tsx:96): `SortOption` has exactly three values in the model, so the arm coincides with NEWEST. The select control only produces those three values.
- Unicode lowering and locale-aware collation are not defined. They are the parameters `lower` and `collate`. `EmptyQueryKeepsAllWords` and `EmptyQueryKeepsAllSentences` assume that lowering the empty string yields the empty string.
- The presentation layer (App.tsx:113-289), the child components and the word-lookup collaborator are not modelled. `AIResponse` is declared as a record only.
