# Adventurers League log sheet: a Dafny model of its core rules

This project models the rules of ddal-next13, a web application for keeping
Dungeons & Dragons Adventurers League character logs. It covers:

- **Items** (`items.dfy`): how an item list is consolidated. This covers quantity
  prefixes such as "3x ", sort names, and merging repeated grants into one entry.
  The component keeps its `itemsMap` between recomputations, so it is a class.
- **Table** (`table.dfy`): the character and log tables. It models the running
  level along a character's logs, the documents handed to the search index, and the
  filtering and ordering of the rows shown.
- **Search** (`search.dfy`): search-term extraction and the
  highlighting of matches. This covers stop words, escaping, filtering, and the
  splice loop that interleaves pieces and matches.
- **Forms** (`forms.dfy`): the business rules of the two log forms. These are the
  level-20 caps, the season, the level bound, the DM-log assignment rules, the edits
  of the item lists, the values a DM log is forced to, and which schema errors are
  shown.
- **Utils** (`utils.dfy`): `slugify`, `sorter`, `parseError` and
  `serializeCharacter`.
- **Schemas** (`schemas.dfy`): the input schemas. This covers the date grammar,
  the DM, log and new-character schemas with their defaults and messages, and the
  form resolver's error map.
- **Store** (`store.dfy`): the server actions `deleteLog`, `saveDM`, `deleteDM`
  and `deleteCharacter`, and the DM visibility rule of the DM queries. They run over
  an in-memory copy of the five tables involved, held by the class `Db`, whose
  methods are proved equal to specification functions.
- **Crumbs** and **Meta** (`crumbs.dfy`, `meta.dfy`): the breadcrumb links and the
  page metadata.
- **Strings** and **Sorting** (`strings.dfy`, `sorting.dfy`): the JavaScript string
  operations these rely on, and an insertion sort for `Array.prototype.sort`.

Several calls into code outside the project become function parameters:

- the Unicode NFD form and `toLowerCase` in `slugify`;
- `toISOString` in `sorter`;
- `new Date(string)` in `serializeCharacter`;
- valibot's `url()` check.

Other modelling choices:

- The search index's hits are a set of ids.
- The set of stop words is a parameter.
- A date is its `getTime()` value.
- JavaScript numbers are integers.
- `localeCompare` is a code-point comparison (`Sorting.CompareStrings`), proved
  to be a total order.

## Model

| member | source | states |
|---|---|---|
| Items.ClearQty | src/components/items.tsx:45 | A name that does not start with a digit is unchanged; after a leading count the longest of "x ", "x", " " and nothing is cut as well, and the rest is kept exactly |
| Items.CountReadsBack | src/components/items.tsx:44-45 | A count written in front of " " or "x " is read back as that count, and clearing the count leaves exactly the text after the separator |
| Items.DropWordS | src/components/items.tsx:38 | Removes exactly one character, the last `s` of the leading word that is not its first character; a name whose leading word has no such `s` is unchanged |
| Items.DropPluralized | src/components/items.tsx:75-78 | Pluralising the leading word and then dropping its last `s` gives the name back |
| Items.PluralizeDropped | src/components/items.tsx:75-78 | Dropping the final `s` of a plural leading word of two or more characters followed by more text, then pluralising again, gives the name back |
| Items.ArticleDropped | src/components/items.tsx:39 | A leading "A ", "An " or "The " is removed and the rest is kept exactly |
| Items.SorterNameIgnoresCount | src/components/items.tsx:32-41 | With sorting on, a name with a count prefix sorts under the same sort name as the name without it |
| Items.ConsumableNames | src/components/items.tsx:43 | A name made of an optional count, one of Potion, Scroll, Spell Scroll, Charm or Elixir, " of" or "s of", and a tail not ending in white space is consumable |
| Items.ConsumableHasOf | src/components/items.tsx:43 | Every consumable name, trimmed, holds " of" at some position after its first character |
| Items.CountedGrantRow | src/components/items.tsx:52-66 | A grant with a count and the same grant without one get the same key, name and consumable flag, with counts `n` and 1, so they are merged |
| Items.MergedQty | src/components/items.tsx:71-82 | After a merge that makes the count above 1, reading the count back from the new name gives the summed quantity, and clearing it gives the (re-pluralised) base name |
| Items.Step | src/components/items.tsx:68-89 | A new key appends the item and points the map at the new last position. A known key (not at position 0) leaves the list and the map as they are and renames exactly the stored entry to the merged name, whose count reads back as the old count plus the row's when that sum is above 1. The step throws the `TypeError` exactly when the known key's entry points past the end of the list, and then changes nothing |
| Items.RunInBounds | src/components/items.tsx:68-89 | Starting from a map whose entries all point inside the list, the reduce never throws, and the positions it appends strictly increase, so the output is in first-seen order |
| Items.FirstRunOrdered | src/components/items.tsx:49-89 | The first computation of a list never throws, and its output is no longer than the input and keeps the input's order |
| Items.FixedKeysDistinct | src/components/items.tsx:49-89 | With the corrected merge test and a fresh map, the output keys are pairwise distinct and every input key appears among them: every repeat is merged |
| Items.FixedQtySummed | src/components/items.tsx:49-89 | With the corrected merge test, and every grant counting at least one, the count read back from each entry's name is the sum of the counts of all grants with its key |
| Items.ConsolidateFixed | src/components/items.tsx:49-89 | The corrected consolidation is never longer than its input |
| Items.FixedNeverThrows | src/components/items.tsx:30-89 | The corrected reduce starts from a fresh map on every computation, so it never throws |
| Items.SortedItems | src/components/items.tsx:93-96 | The sorted list is a permutation of the consolidated list, and is that list itself when sorting is off |
| Items.SortedItemsOrdered | src/components/items.tsx:94 | With sorting on, the list is in ascending order of sort name |
| Items.ItemsPanel.constructor | src/components/items.tsx:30 | A new component starts with an empty map and a clone of its items |
| Items.ItemsPanel.SetItems | src/components/items.tsx:47 | A new `items` value is cloned afresh and the map is kept |
| Items.ItemsPanel.Consolidate | src/components/items.tsx:49-91 | The renamed clone, the new map and the result are those of the reduce run from the map left by earlier computations; a thrown error is returned as the error |
| Items.ItemsPanel.Reduce | src/components/items.tsx:68-89 | The loop with its pushes, in-place renames and map updates computes the reduce `Run` |
| Items.DuplicateOfFirstNotMerged | src/components/items.tsx:69-86 | Two identical grants give two entries as written, and one entry with the corrected test |
| Items.SecondComputationThrows | src/components/items.tsx:30-71 | The first computation of two items with distinct keys succeeds; running again with the map it left throws a `TypeError` |
| Items.CloakRingKeysDiffer | src/components/items.tsx:55 | Two concrete items have distinct keys, so they meet the condition of SecondComputationThrows |
| Table.FindLevel | src/components/table.tsx:236 | The entry found is one of the entries and has the log's id; none is found only when no entry has that id |
| Table.FindLevelFirst | src/components/table.tsx:236 | When entry `k` has the id and none before it does, entry `k` is the one found |
| Table.LogRows | src/components/table.tsx:232-246 | One row per log, in the logs' order, each with its own level gain and the running level through it; no character gives no rows |
| Table.LevelAfterMonotone | src/components/table.tsx:233-237 | With no negative gains the running level never decreases along the list |
| Table.KeptOfMembers | src/components/table.tsx:59 | A name is collected from a log exactly when some gained item of that name has no `logLostId` |
| Table.KeptNamesMembers | src/components/table.tsx:57-61 | A name is among a character's collected names exactly when one of its logs contributes it |
| Table.CollectKeptOf | src/components/table.tsx:59 | The inner loop pushes the kept names of one log, in order |
| Table.CollectKept | src/components/table.tsx:57-61 | The nested push loop collects the kept names log after log, in log order |
| Table.IndexCharacters | src/components/table.tsx:46-66 | One document per character, in order, each being that character's document |
| Table.BuildCharacterDoc | src/components/table.tsx:49-62 | The object built for a character is that character's document |
| Table.LogDocMagicItems | src/components/table.tsx:252 | When no item name holds a comma, the magic-item text splits back into the gained names followed by the lost names |
| Table.CharacterDocMagicItems | src/components/table.tsx:57-62 | When no kept name holds a comma, the character's magic-item text splits back into the kept names |
| Table.FilterCharacters | src/components/table.tsx:77-78 | Keeps exactly the characters the index found, as a sub-multiset of the input |
| Table.FilterLogs | src/components/table.tsx:276-277 | Keeps exactly the logs the index found, as a sub-multiset of the input |
| Table.CharacterResults | src/components/table.tsx:73-95 | A query longer than one character shows a permutation of the found characters; a shorter one shows a permutation of all of them; the output never exceeds the input |
| Table.CharacterResultsOrdered | src/components/table.tsx:86-89 | The characters shown are in ascending order of total level and then name |
| Table.LogResults | src/components/table.tsx:272-289 | The same filtering rule for logs: the found logs, or all of them, as a permutation |
| Table.LogResultsOrdered | src/components/table.tsx:282-284 | The logs shown are in ascending date order in both branches |
| Search.StopWordEndIff | src/components/search.tsx:25 | A stop word matches at a position exactly when a whole word equal to a stop word ignoring case starts there; the match ends after it and after one following space if any |
| Search.TableStopWordsOk | src/components/table.tsx:23 | The stop words the table pages pass are non-empty words of lower-case word characters |
| Search.RemoveStopWordsLength | src/components/search.tsx:25 | Removing stop words never lengthens the query |
| Search.RemoveStopWordsChars | src/components/search.tsx:25 | Every character left after removing stop words is a space or comes from the query |
| Search.RemoveStopWordsNone | src/components/search.tsx:25 | A query in which no stop word matches is left unchanged |
| Search.KeepWordsMembers | src/components/search.tsx:25 | The kept words are exactly the words that are not stop words ignoring case |
| Search.RemoveStopWordsWords | src/components/search.tsx:25 | The words of the query after the replace are exactly its words with the stop words left out, in their order |
| Search.Escape | src/components/search.tsx:26 | Escaping never shortens the text, and adds no space to a text that has none |
| Search.Unescape | src/components/search.tsx:33 | A non-empty term that compiles matches a non-empty text, so no pattern matches the empty string |
| Search.UnescapeEscape | src/components/search.tsx:26-33 | An escaped text always compiles, to a pattern that matches exactly that text |
| Search.DropEmpty | src/components/search.tsx:29 | Keeps exactly the non-empty pieces |
| Search.DropEmptyOrder | src/components/search.tsx:29 | Dropping empty pieces distributes over concatenation and keeps a single piece exactly when it is not empty, so the order is kept |
| Search.SearchTerms | src/components/search.tsx:23-30 | A query of at most one character has no terms, and no term is empty |
| Search.TermsHaveNoSpace | src/components/search.tsx:27-29 | No term contains a space |
| Search.TermsEscapedOrCut | src/components/search.tsx:26-29 | Every term is made of whole escape tokens, except that its last backslash may have lost the character it escaped |
| Search.TermEscape | src/components/search.tsx:26-29 | Every term is the escape of some text, or that escape followed by one lone backslash |
| Search.Literals | src/components/search.tsx:32-34 | The terms compile exactly when each does, each to its own text; otherwise the failure is the syntax error |
| Search.FirstAlternativeFirst | src/components/search.tsx:36-38 | The alternative chosen at a position is the first of the terms that occurs there ignoring case; none is chosen only when none occurs |
| Search.MatchesIff | src/components/search.tsx:41 | A term's pattern matches an item exactly when the term's text occurs in it, ignoring case |
| Search.PiecesCount | src/components/search.tsx:51 | Splitting by the pattern gives one piece more than there are matches |
| Search.MatchesAreLiterals | src/components/search.tsx:45 | Every match is one of the terms' texts up to case |
| Search.KeepMatching | src/components/search.tsx:41 | Unfiltered, every item is kept; filtered, exactly the items every term matches |
| Search.KeepMatchingOrder | src/components/search.tsx:41 | The filter distributes over concatenation and keeps a single item exactly when it is unfiltered or every term matches it, so the order is kept |
| Search.TextItemsUnfiltered | src/components/search.tsx:40-42 | An unfiltered single text is rendered back exactly as given |
| Search.Interleave | src/components/search.tsx:48-58 | The interleaving of n pieces has 2n - 1 parts, and none when there are no pieces |
| Search.InterleaveAt | src/components/search.tsx:53-55 | The m-th piece sits at position 2m and the m-th match at 2m + 1 |
| Search.Partition | src/components/search.tsx:48-58 | The splice loop produces piece 0, match 0, piece 1, match 1, ..., the last piece |
| Search.OddPartsOfInterleave | src/components/search.tsx:53-55 | The parts at odd positions are exactly the inserted matches |
| Search.ConcatInterleave | src/components/search.tsx:51-57 | The pieces and matches, interleaved, spell out the text again |
| Search.PartsSpellItems | src/components/search.tsx:48-58 | The parts of a highlighted text spell the text, the matches sit at the odd positions, and each match is a term up to case |
| Search.SearchResults | src/components/search.tsx:5-62 | The component computes what `Render` specifies, running the splice loop |
| Search.RenderSpellsText | src/components/search.tsx:60 | Whatever is rendered spells out the text items: as they are when nothing matches, or as parts and matches |
| Search.RenderWithoutTerms | src/components/search.tsx:36-38 | With no terms there is no pattern, and the text items are rendered as they are |
| Search.TrailingTabThrows | src/components/search.tsx:25-33 | The query "ab" followed by a tab leaves a term ending in a lone backslash, so rendering throws the syntax error |
| Search.SearchTermsFixed | src/components/search.tsx:23-30 | The corrected terms: none for a query of at most one character |
| Search.FixedTermsCompile | src/components/search.tsx:23-33 | Every corrected term compiles, to exactly the words of the trimmed query without stop words |
| Forms.Season | src/components/forms.tsx:221 | The season is 1 exactly when the log has experience, 8 exactly when it has none but has ACP, and 9 otherwise |
| Forms.LevelInputMax | src/components/forms.tsx:488-492 | A DM log's level input has maximum 1; a character log's allows at least its old level and at least 20 minus the total level, and is one of the two |
| Forms.LevelInputWithinCap | src/components/forms.tsx:488-492 | Any level the input allows, for a known character at most level 20, passes the level-20 check |
| Forms.LogVerdictIff | src/components/forms.tsx:255-274 | A character log is submitted exactly when no focus rule applies, no ACP is gained at level 20, and a positive level does not take the character past 20; each rejection names the check that failed |
| Forms.DMVerdictIff | src/components/forms.tsx:799-821 | A DM log is submitted exactly when a given character is one of the user's, a typed name has an applied date, and an applied date has a character |
| Forms.FormErrors.Handle | src/components/forms.tsx:262-273 | The handler submits only on `Submitted`; a rejection records its message on its field, and nothing else changes |
| Forms.RemoveAt | src/components/forms.tsx:240-247 | Exactly the element at the index is removed, the others keep their order, and an index outside the list changes nothing |
| Forms.UpdateAt | src/components/forms.tsx:613-659 | Editing an index changes that entry only, and keeps the length |
| Forms.RemoveAfterAdd | src/components/forms.tsx:239-242 | Removing the gained item or lost id just added, by its index, gives the list back |
| Forms.RenameTwice | src/components/forms.tsx:613 | Renaming an item keeps its id and description, and a second rename overrides the first |
| Forms.NotYetLost | src/components/forms.tsx:581 | The ids offered are the available ones not yet dropped |
| Forms.CanDropIff | src/components/forms.tsx:581-591 | A Drop button shows exactly for a non-DM log, for story awards only on a game log, when some available id is not yet dropped |
| Forms.LogValues.constructor | src/components/forms.tsx:279 | The form values start with the given type, flag and date and empty lists |
| Forms.LogValues.ApplyLogForm | src/components/forms.tsx:279-286 | The type and the four lists come from the form state, and only a new log takes the chosen date |
| Forms.LogValues.ApplyDMForm | src/components/forms.tsx:826-834 | A DM log is always a game log marked as a DM log, and drops nothing |
| Forms.ShownErrors | src/components/forms.tsx:299-313 | For every index, the error of a gained magic item's or story award's name is shown, as is that of a listed field; the errors of the two lost lists, whole or per index, are not |
| Utils.RemoveMarks | src/lib/utils.ts:33 | No combining mark from U+0300 to U+036F is left, and a text without one is unchanged |
| Utils.CollapseSpaces | src/lib/utils.ts:36 | No white space is left, every character is a hyphen or from the input, and a text without white space is unchanged |
| Utils.KeepSlugChars | src/lib/utils.ts:37 | Only word characters and hyphens from the input are left, and a text of only those is unchanged |
| Utils.CollapseHyphens | src/lib/utils.ts:38 | No two hyphens are left in a row, characters come from the input, and the first character is kept |
| Utils.CollapseHyphensKeeps | src/lib/utils.ts:38 | A text without a double hyphen is unchanged |
| Utils.SlugifyShape | src/lib/utils.ts:29-39 | A slug holds only word characters and hyphens, no white space and no double hyphen; when lower-casing leaves no ASCII capital it holds only `[a-z0-9_-]` |
| Utils.SlugifyIdempotent | src/lib/utils.ts:29-39 | A slug is its own slug, when lower-casing leaves it unchanged |
| Utils.SorterAntisymmetric | src/lib/utils.ts:80-87 | Swapping the arguments negates the result, equal values give 0, and a string meets a date through the date's ISO text |
| Utils.ParseErrorRethrown | src/lib/utils.ts:18-23 | Re-throwing the reported message as an `Error` or as a string reports the same message again |
| Utils.ParseOptional | src/lib/utils.ts:69 | A date is parsed exactly when the text is present and non-empty |
| Utils.SerializeLogs | src/lib/utils.ts:71-76 | One parsed log per log, in the same order |
| Utils.SerializeCharacterKeepsLogs | src/types/util.ts:24-39 | Serialising keeps the id, the name, the logs' number and order and their ids and names, parses each date, and leaves a missing applied date missing |
| Schemas.FormatDateAccepted | src/types/schemas.ts:26 | Every well-formed date is written in a form the grammar accepts, and reading it back gives the date |
| Schemas.AcceptedDateFormats | src/types/schemas.ts:26 | Every accepted text is the text of a well-formed date |
| Schemas.DateGrammarIff | src/types/schemas.ts:26 | The grammar accepts exactly the texts of well-formed dates: month 01-12, day 01-31, hour and offset hour 00-24, minutes and seconds 00-59, optional milliseconds, `Z` or an offset |
| Schemas.DateGrammarAcceptsEdges | src/types/schemas.ts:26 | "2023-02-31T24:00:00Z" is accepted: no per-month day check, and hour 24 passes |
| Schemas.DateGrammarRejectsHour25 | src/types/schemas.ts:26 | Hour 25 is rejected |
| Schemas.DateGrammarRejectsMonth13 | src/types/schemas.ts:26 | Month 13 is rejected |
| Schemas.DateOf | src/types/schemas.ts:27 | A date object or a text in the grammar passes; anything else raises "Invalid Date Format" |
| Schemas.RequiredText | src/types/schemas.ts:40 | Only a non-empty text passes; an empty one raises "Required" |
| Schemas.NumberOf | src/types/schemas.ts:45-50 | Only a number passes, and a non-negative one where required |
| Schemas.DciPatternAcceptsAll | src/types/schemas.ts:33 | The unanchored DCI pattern matches every text |
| Schemas.DciOf | src/types/schemas.ts:33 | A DCI passes exactly when it is null or a text |
| Schemas.NullishTextOf | src/types/schemas.ts:34 | A uid passes exactly when it is null, missing or a text |
| Schemas.ParseDMIff | src/types/schemas.ts:30-35 | A DM passes exactly when it is an object with a text id, a non-empty name, and a DCI and a uid of the allowed kinds; a missing DCI becomes null and a missing uid "" |
| Schemas.LogTypeOf | src/types/schemas.ts:44 | The type passes exactly when it is "game" or "nongame" |
| Schemas.GainedListOf | src/types/schemas.ts:60-69 | Every gained item that passes has a non-empty name, and a missing list is the empty list |
| Schemas.LostListOf | src/types/schemas.ts:70 | Every lost id that passes is non-empty, and a missing list is the empty list |
| Schemas.ParsedLogConstraints | src/types/schemas.ts:38-82 | A parsed log has a non-empty name, non-negative ACP and level, a valid type and dates, non-empty gained names and lost ids |
| Schemas.LogDefaults | src/types/schemas.ts:39-81 | A log with only a name, a date and an empty DM passes, and every other field takes its default |
| Schemas.LogRejections | src/types/schemas.ts:38-48 | A value that is not an object raises only "Invalid type" at the root; in an object, a negative ACP or level, a missing or empty name, and a date outside the grammar each raise their own issue |
| Schemas.UrlOf | src/types/schemas.ts:90-91 | A URL passes exactly when the value, after its default "", is a text `url()` accepts |
| Schemas.NewCharacterRules | src/types/schemas.ts:85-92 | A new character that passes has a non-empty name and campaign and accepted URLs; a value that is not an object raises only "Invalid type" at the root; a missing URL is checked as "" |
| Schemas.MessagesAt | src/types/schemas.ts:102-105 | The messages gathered for a key come from issues at that dotted path, and there are none only when no issue has that path |
| Schemas.NestedKeys | src/types/schemas.ts:105 | The error keys are exactly the dotted paths of the issues |
| Schemas.Resolve | src/types/schemas.ts:97-114 | The resolver answers with the data and no errors exactly when parsing succeeds; otherwise with the original values and, per dotted path, its messages joined by ", " |
| Schemas.ResolvedMessages | src/types/schemas.ts:105 | A field's error splits back into its messages when none holds a comma |
| Store.VisibleIff | src/server/db/dms.ts:7-22 | A DM is visible exactly when every one of its logs belongs to a character of the user, or its uid is the user's |
| Store.DMQueriesAgree | src/server/db/dms.ts:33-105 | `getUserDMWithLogs` returns a DM exactly when `getUserDMsWithLogs` lists it, and with the same logs |
| Store.DMWithoutLogsVisible | src/server/db/dms.ts:10-16 | A DM without logs is visible to every user |
| Store.DMWithForeignLogHidden | src/server/db/dms.ts:7-22 | A DM with a log of another user's character is hidden from a user who is not its uid |
| Store.ClearLost | src/server/actions/log.ts:29-36 | No item is left dropped by the log; items it dropped are restored, and no other item changes |
| Store.DropGained | src/server/actions/log.ts:37-41 | Exactly the items granted by the given logs are removed, and the rest are unchanged |
| Store.AuthorizeLog | src/server/actions/log.ts:20-28 | The only error the checks give is "Not authorized" |
| Store.DeleteLogGuards | src/server/actions/log.ts:8-67 | A failed deletion changes nothing and returns no id; no user gives "Not authenticated"; a missing log fails; a success was authorised by the owner of the log's character, or by the DM of a log without one, and returns the character's id |
| Store.DeleteLogEffects | src/server/actions/log.ts:29-59 | After success the log is gone, nothing it granted is left, what it dropped is restored, and no other table or item changes |
| Store.DeleteLogConsistent | src/server/actions/log.ts:29-59 | Deleting a log leaves every relation pointing at an existing row |
| Store.SaveDMProperties | src/server/actions/dm.ts:9-24 | An invisible DM gives the permission error and changes nothing; on success the DM's row is `data` under `data.id`, its id is returned, and no other DM, character or item changes |
| Store.SaveDMConsistent | src/server/actions/dm.ts:13-18 | Saving a DM leaves every relation pointing at an existing row |
| Store.DeleteDMProperties | src/server/actions/dm.ts:27-42 | No user, an invisible DM or a DM with logs each gives its own error and changes nothing; otherwise exactly that DM is removed and its id returned |
| Store.DeleteDMConsistent | src/server/actions/dm.ts:27-42 | Deleting a DM leaves every relation pointing at an existing row |
| Store.DeleteCascade | src/server/actions/character.ts:13-36 | The cascade removes the character and exactly its logs, and leaves the DMs |
| Store.DeleteCascadeEffects | src/server/actions/character.ts:13-26 | The cascade removes exactly the items granted on the character's logs, leaves every other item and log unchanged, and does not touch an item granted elsewhere but dropped on those logs |
| Store.DeleteCascadeConsistent | src/server/actions/character.ts:13-36 | When items are only dropped on logs of their own character, the cascade leaves no relation dangling |
| Store.DeleteCharacterAsWritten | src/server/actions/character.ts:10 | As written, the owner's request deletes nothing, and any other request, with no user at all included, deletes the character |
| Store.OwnerCannotDeleteOwnCharacter | src/server/actions/character.ts:10 | For one concrete character, its owner's request returns false, and another user's or an anonymous request deletes it |
| Store.DeleteCharacterFixed | src/server/actions/character.ts:5-39 | With the intended guard a character is deleted exactly when its owner asks, by the cascade, and nothing changes otherwise |
| Store.Db.Restore | src/server/actions/log.ts:11 | A rolled-back transaction restores the saved tables |
| Store.Db.DeleteLog | src/server/actions/log.ts:8-67 | The tables and the result are those of the `deleteLog` specification, the rollback included |
| Store.Db.SaveDM | src/server/actions/dm.ts:9-24 | The tables and the result are those of the `saveDM` specification |
| Store.Db.DeleteDM | src/server/actions/dm.ts:27-42 | The tables and the result are those of the `deleteDM` specification |
| Store.Db.DeleteCharacter | src/server/actions/character.ts:5-39 | The tables and the result are those of `deleteCharacter` as written |
| Crumbs.LinksFrom | src/components/breadcrumbs.tsx:6-9 | Each crumb keeps its name, and keeps its link unless it has none or is the last |
| Crumbs.LinksShape | src/components/breadcrumbs.tsx:6-9 | Same length and names in order; the last crumb and crumbs without `href` are never links; every other crumb keeps its link |
| Crumbs.AppendCrumb | src/components/breadcrumbs.tsx:8 | Appending a crumb turns the previously last crumb back into its link and changes no earlier link |
| Meta.CharacterPageIff | src/lib/meta.ts:2 | A path is a character page exactly when it is `/characters/` and one non-empty segment without a slash, with an optional trailing slash, ignoring case |
| Meta.AppMetaOf | src/lib/meta.ts:31-35 | The title is returned unchanged |
| Meta.AppMetaCards | src/lib/meta.ts:2-29 | A character page has neither card; every other page has both, each with the site address followed by the path |
| Meta.CharacterPageExamples | src/lib/meta.ts:2 | `/characters/abc` and `/Characters/abc/` are character pages; `/characters/`, `/characters/a/b` and `/characters/a//` are not |
| Strings.Trim | src/components/search.tsx:27 | The result is the input without its leading and trailing white space, and neither end of it is white space |
| Strings.ReplaceFirst | src/components/items.tsx:37 | Only the first occurrence is replaced, and a text without one is unchanged |
| Strings.SplitJoin | src/components/search.tsx:41 | Joining the pieces of a split with the same separator gives the text back |
| Sorting.CompareStrings | src/components/table.tsx:86 | The comparison is -1, 0 or 1, and 0 exactly on equal strings |
| Sorting.CompareStringsTransitive | src/components/table.tsx:86 | The string comparison is transitive |
| Sorting.SortBy | src/components/table.tsx:89 | Sorting gives a permutation of its input |
| Sorting.SortBySorted | src/components/table.tsx:89 | Sorting gives a list ordered by the key |

## Left out

- The statistics engine `getLogsSummary`, `getMagicItems` and `getStoryAwards`: src/lib/entities is not part of this model. `log_levels`, `total_level` and the available items are inputs.
- MiniSearch indexing and ranking: a third-party library. Its hits are a set of ids.
- The `score` and `match` fields the tables attach to a row: they come from the index's ranking.
- The highlight test of search.tsx:62: `RegExp.test` with the `g` flag keeps `lastIndex` between calls, and it only chooses how a part is drawn.
- The stop words: src/lib/utils.ts does not export the imported `stopWords`. The set is a parameter, and `TableStopWords` is the set of table.tsx:23.
- Search.RemoveStopWords: it agrees with the source's `/ ?\b(w1|w2|...)\b ?/gi` only for a set that satisfies `Search.StopWordsOk`: non-empty, of non-empty words made of lower-case word characters. `Search.TableStopWordsOk` proves that the table pages' set does.
  - For an empty set, the pattern is `/ ?\b()\b ?/gi`. It matches an empty string at every word boundary, so "ab" becomes " ab ". The model removes nothing.
  - A stop word with an upper-case letter matches under the `i` flag, but the model looks up the lower-cased word and misses it.
  - A stop word holding a regular-expression character such as `.` or `+` would be read as a pattern, not as text.
- Items.FixedQtySummed: it assumes that every grant counts at least one. With a count of 0 the merged count can be 1 or less. That name then carries no count and reads back as 1, so two "0x Potion" grants give "Potion", which counts 1, not 0.
- React rendering, hooks, transitions, timers and drawers; cookies, `localStorage`, fetch and redirects.
- `dayjs` in `formatDate`, `parseObjectPrimitives` (floating point), `tooltipClasses` (`twMerge`), `setCookie` and `canUseDOM`.
- NFD normalisation and `toLowerCase`: they are parameters of `Utils.Slugify`. Case-insensitive matching folds ASCII letters only.
- `localeCompare`: modelled as a code-point comparison, not a locale collation.
  - Items.SortedItemsOrdered, Table.CharacterResultsOrdered and Table.LogResultsOrdered prove code-point order, not the browser's collation. For example, the app sorts "apple" before "Banana", but the model sorts it after.
- String lengths and indices count Unicode scalar values, while JavaScript counts UTF-16 code units.
  - The `search.length > 1` tests of search.tsx:24 and table.tsx:75, 274 and 627 are therefore modelled per character. For example, a query of one emoji such as "😀" has JavaScript length 2, so the app searches for it, but in the model it has length 1 and gives no terms.
  - `Search.Escape` and the regular-expression steps work on whole characters, never on half of a surrogate pair.
- `Utils.Sorter`: a string against a date uses the given `toISOString`; dates are their `getTime()` values.
- `Utils.ParseError`: an object's `JSON.stringify` text is an input (`ObjectValue(json)`), not computed. The model does not capture that `JSON.stringify` throws a `TypeError` on a cyclic object or one holding a BigInt, and that this exception escapes the `catch` handlers that call `parseError`. Nor does it capture that `JSON.stringify` returns `undefined` for an object whose `toJSON` gives `undefined`. A function value (`typeof e === "function"`), like a number, a boolean, `undefined`, a symbol or a BigInt, is an `OtherValue` and gives "Unknown error".
- JavaScript numbers are unbounded integers: no fractions, no NaN, no overflow.
- `structuredClone`: the clone is a fresh value sequence, so the caller's items cannot be changed by it.
- `Items.SortedItems` and `Table.CharacterResults`/`Table.LogResults`: `.sort` in place is modelled on values. The model does not capture that it reorders the memoised `characters`/`logs` array itself, nor its stability.
- valibot internals beyond the constraints stated:
  - an array is never accepted as an object;
  - the messages of a bare `string()`, `object()`, `boolean()` or `array()` failure are taken to be "Invalid type";
  - an `object()` schema given something that is not an object raises that one issue at its own path and does not check its fields.
- `url()`: a parameter of `Schemas.UrlOf`.
- `editCharacterSchema` (`merge`): not modelled.
- Authentication, environment validation, configuration, the Prisma client and the route handlers.
- The plain reads `getLog`, `getDMLogs`, `getCharacter`, `getCharacters` and the `dataCache` wrappers.
- Prisma referential actions are not shown. The model assumes two things:
  - re-keying a DM through `...data` re-points its logs;
  - a deletion applies no other `onDelete` action.
- The messages of Prisma's own errors: `RecordNotFound` and `UniqueViolation` are placeholders for them.
- `saveDM` with `data.id` already taken: modelled as the unique-constraint error.
- Concurrency and transaction isolation; each action runs alone.
- The form's `register` `min`/`max`: modelled as the bounds of the level input, not as a further check before submission.
- `Forms.FormErrors.Handle`: `form.handleSubmit` then runs the schema.
  - The Ignored and Rejected verdicts only say that it is not reached.
  - `Schemas.Resolve` and `Forms.ShownError` model what follows.
- The DM-log `characterName` combobox and the `setValueAs` of the applied date (forms.tsx:942-993): input widgets.

## Findings

| source | as written | input that shows it | evidently intended | confidence | as-written member | corrected member |
|---|---|---|---|---|---|---|
| src/server/actions/character.ts:10 | deletes only when `character.userId !== userId` | the owner's own request returns `false`; another user's, or one with no user, deletes the character and its logs | delete only when the requester owns the character (the page offers the button to the owner only) | not executed | Store.DeleteCharacterAsWritten | Store.DeleteCharacterFixed |
| src/components/items.tsx:70 | `existingIndex && existingIndex >= 0` is false for position 0 | two identical grants `[x, x]` give two entries | merge whenever the key is known (`existingIndex !== undefined`) | not executed | Items.DuplicateOfFirstNotMerged | Items.FixedKeysDistinct |
| src/components/items.tsx:30 | `itemsMap` is created once and never cleared | computing two items with distinct keys again: the second item's stale entry 1 points past the new one-entry list, and `acc[1].name` throws a `TypeError` | a fresh map for every computation | not executed | Items.SecondComputationThrows | Items.FixedNeverThrows |
| src/components/search.tsx:26-27 | escapes before trimming | the query "ab" followed by a tab: the tab is escaped, `trim` removes it, and `new RegExp("ab\\")` throws | trim and split the query first, then escape each word | not executed | Search.TrailingTabThrows | Search.FixedTermsCompile |
