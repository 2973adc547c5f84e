# Endpaper's hard core, modelled and proved

This project models the parts of Endpaper whose promises span functions, and proves them for every
input, every run or every interleaving:

- **Who an author is** (`Spelling`, `Aliases`, `Index`, `Repoint`, `Table`, `Batches`, `BatchOrder`,
  `Decisions`): credit lines are split into names, a table of aliases says which spellings are one person,
  an index is derived from both, and members merge, merge in batches and undo. Resolution stays one
  lookup deep over every run, a merge moves exactly whom it should, and a batch is its merges in any order.
- **Who might be one** (`Buckets`, `Rules`, `AllPairs`, `Forest`, `Suggest`, `Tested`): four rules propose edges
  under a shared comparison budget, and a union-find groups them. Bucketing is compared with trying every
  pair, the groups with the connected components of the edges, and what is offered with the chains of
  pairs the tests accept.
- **The preview's promise** (`Listings`, `Preview`, `Requests`, `Promise`, `Review`): what reading the suggestions
  and submitting every group they do not hold back does to whom every key means, and exactly when that
  is what was on screen.
- **Shelves on which a promise fails** (`Unsettled`, `Mistaken`, `Starved`, over `Unmerged`): each from its credit
  lines to the answer.
- **Reading a CSV's bytes** (`Utf8`): a decoder after Table 3-7 of the Unicode Standard (section 3.9),
  and the count of ill-formed runs that decides how a file is read.
- **Sealed credentials** (`Base64`, `Envelopes`, `Credentials`): an envelope opens only where it was sealed,
  the superseded scheme is carried forward without changing an answer, and the sealed store refines
  a plain one.
- **State machines and folds** (`Headings`, `Folds`, `Records`, `Resets`, `Directory`, `Categories`, `Covers`).

`Sequences`, `Strings`, `Wrappers`, `Octets` and `Decimals` are shared vocabulary. Code that works by
assignment is a method or a class proved against a specification function; the theorems are lemmas
about those functions. `dafny verify dfyconfig.toml` checks everything.

## How things are represented

- Unicode tables are a parameter (`Spelling.Unicode`): what is a space, what is a word character, and one
  character's fold. Where a result needs more of them it says so: that a space stays a space, that lower-case
  letters stand for themselves, that U+1D400 folds to `A` and that to `a`, or that no character of a key
  folds to nothing or to a space. All of it is taken to hold of Unicode's own, which are not part of
  this model.
- A set's iteration order is a parameter: `Naming.tokens` is any fixed walk over a name's words.
- A row id is the last row's plus one. Books, and the keys an entry folds, are sets. The index is a map,
  and the list made of it is sorted. `str.casefold` is a parameter, taken to leave lower case alone where
  that is asked of it.
- The box (AES-GCM) is ideal: the memory of every sealing, opened only by what was given when it sealed. A
  nonce drawn is one never drawn before and on no row. A key is its generation tag and its derived
  box key. How an address is read (`origin_of`) and the published addresses are parameters.
- The bcrypt of a code is ideal, an account stands for its id, and one call reads the clock once.
- A directory is a map from extension to a file with an identity no later file shares.

## Where the code and its own words differ

The model follows the code. Each of these is a theorem here:

- `author_key` is called idempotent (`backend/authorship.py:498-500`); it is not on U+1D400
  (`Spelling.AuthorKeyIsNotIdempotent`), and it is on a name exactly where what its characters fold to
  folds to itself (`Spelling.AuthorKeyIsIdempotentIff`).
- What is on screen is said to be what a batch would apply (`backend/authorship.py:314-316`). It is so of a
  preview if and only if its submission is within a request's bounds and what each group of it asks for
  is its own names (`Review.AnyPreviewIsKeptIff`), as it is where keys are their own keys
  (`Review.OwnKeysAskForThemselves`). Three shelves fail, each worse than the one before: the submission is
  malformed (`Unsettled.BoldPreviewIsRefused`), or it is refused (`Mistaken.UnknownPreview`), or it is accepted
  and folds somebody who was never on screen (`Mistaken.MistakenPreview`).
- A cycle is said to resolve to where it was entered (`backend/authors.py:309`); it does exactly where the
  row count, less the steps that lead to the cycle, is a multiple of its length
  (`Aliases.CycleResolvesToItsEntryIff`).
- No matcher is said to propose what the default does not (`backend/authors.py:496-500`). That is so of a
  choice of rules on every shelf exactly where it leaves the fragment rule out or keeps the initials rule
  (`Starved.NeverFindsMoreIff`), as the two registered matchers do, and on one shelf also where the initials
  rule loses it nothing (`Suggest.NarrowerFindsLessIff`).
- Removing a row is said to restore the state before it was written (`backend/authorship.py:673-678`); it
  does exactly where that row was new and all its merge wrote (`Repoint.UnmergeRestoresIff`).
- Of a code as typed only case and separators are said to be forgiven (`backend/accounts.py:121-141`); every
  character that is no ASCII letter or digit is dropped, whatever it is (`Resets.OtherCharactersDoNotCount`).

Three results a reader of the code may not expect, though nothing there says otherwise:

- The purpose strings stay unambiguous whatever an origin looks like: the proof needs only that a source
  and a member id carry no slash (`backend/credentials.py:965-973`, `Envelopes.AssociatedIsInjective`).
- A reset request past its seven days, which the queue no longer shows, can still be approved by its
  account's id and then redeemed (`backend/accounts.py:378-399`, `Resets.ApprovalRevivesALapsedRequest`).
- A library's first account is made an admin whatever its directory says, and its second sign in takes
  that back where an admin group is set (`backend/auth_backends.py:330-427`, `Directory.RepeatIsNoOpIff`).

## Model

| member | source | states |
|---|---|---|
| `Spelling.AuthorKeyIsIdempotentIff` | backend/authorship.py:498-500 | for a name whose key's characters fold to something and to no space, as they do in Unicode's tables: the key of its key is its key if and only if what its own characters fold to folds to itself |
| `Spelling.KeyIsItsOwnIff` | backend/authors.py:266-286 | the same told of a key alone: it is its own key if and only if each of its characters folds to itself |
| `Spelling.AuthorKeyIsNotIdempotent` | backend/authorship.py:498-500 | and not on all of them: in any tables in which U+1D400 folds to `A`, that to `a` and lower case to itself, the key of U+1D400 is `A`, whose own key is `a` |
| `Spelling.AuthorKeyIsTold` | backend/authors.py:266-286 | the key of a name is the longest stretches of what the name folds to without white space or punctuation, in order, with one space between |
| `Strings.RunsAreUnique` | backend/authors.py:266-286 | and a text has one list of such stretches |
| `Spelling.SplitAuthors` | backend/authors.py:196-220 | the loop over the parts, with its `seen` set, gives the names the recursive reading gives |
| `Spelling.SplitNamesEverybodyOnce` | backend/authors.py:196-220 | nobody twice by key, nobody without a key, nobody of the line lost, every name tidy and free of the separator |
| `Spelling.SplitIsTold` | backend/authors.py:196-220 | the names of a line are, in order, the first to be written of everybody named between its commas, tidied |
| `Spelling.CreditedName` | backend/authors.py:223-245 | the two scans from the ends keep the name from its first to its last character that is neither space nor separator, as it stands, and nothing where there is none |
| `Spelling.JoinIsTold` | backend/authors.py:248-263 | the line of some names is those of which something is left, each as credited, in order, with a comma and a space between, and no line where there are none |
| `Spelling.SplitOfJoin` | backend/authors.py:248-263 | names that are clean and distinct come back out of the line they are joined into |
| `Spelling.SplitJoinSplit` | backend/authors.py:196-263 | `split(join(split(c))) == split(c)` for every credit line, none included |
| `Spelling.WithinTheColumn` | backend/csv_import.py:866-883 | what is kept is the longest prefix of the non-blank names whose joined line fits the column; the running width is that line's length at every step |
| `Spelling.FirstThatDoesNotFitEndsIt` | backend/csv_import.py:866-883 | no longer prefix fits either, so stopping at the first name that does not fit loses nothing that could have been kept |
| `Spelling.KeptIsStored` | backend/csv_import.py:866-883 | the line the join stores for what was kept is the line the width was counted for |
| `Aliases.Follow` | backend/authors.py:312-321 | the inner loop follows one chain to its end or for as many steps as the table has rows |
| `Aliases.ChaseIsAWalk` | backend/authors.py:312-321 | following a chain is walking from name to name, each the one its predecessor's row names, for at most that many steps and no fewer unless the chain ends |
| `Aliases.MeansThroughTheMap` | backend/authors.py:299-321 | whom a spelling means, told as such a walk, is whom the resolved map says it means |
| `Aliases.ResolveAliasMap` | backend/authors.py:299-321 | the map returned is the resolution of every row |
| `Aliases.TableManyStepsAreEnough` | backend/authors.py:309-316 | where any number of steps ends a chain, as many as there are rows do |
| `Aliases.ResolutionIsTerminalIffAcyclic` | backend/authors.py:299-321 | every row resolves to the end of its chain if and only if the table is acyclic apart from self rows |
| `Aliases.EveryChainEnters` | backend/authors.py:299-321 | every chain of rows comes to a first key it returns to, a chain that ends being one that stays at its end |
| `Aliases.CycleResolvesToItsEntryIff` | backend/authors.py:309-316 | a row resolves to the name its chain enters a cycle at if and only if the row count, less the steps that lead there, is a multiple of the cycle's length |
| `Aliases.CycleEntryIsNotAlwaysTheAnswer` | backend/authors.py:309-316 | a three row table on which it is not |
| `Aliases.FlatIsResolved` | backend/authors.py:299-321 | a flat table is its own resolution, to the letter |
| `Aliases.PersonIsSettled` | backend/authors.py:299-321 | on a table acyclic apart from self rows nobody a key means stands for anybody else |
| `Index.MostUsed` | backend/authors.py:411-420 | the spelling most used, the first in code point order among equals |
| `Index.Tally` | backend/authors.py:385-409 | the first pass counts every occurrence on every book under the person it means |
| `Index.BuildIndex` | backend/authors.py:348-422 | the two passes build exactly the index the occurrences have |
| `Index.EntryFor` | backend/authorship.py:417-426 | the entry of whom a link's key means, or none |
| `Index.IndexIsUnique` | backend/authors.py:348-422 | the naive definition of an index determines it: keys distinct, counts, books, folded keys and heading name |
| `Index.IndexIsTold` | backend/authors.py:348-422 | the index told from the credit lines and the rows alone: who is in it, and every entry's books, spellings, counts and folded keys |
| `Index.HeadingIsTold` | backend/authors.py:385-421 | and its heading: the name of the last row to name that person, else the spelling printed most, the first of equals |
| `Index.ChosenIsLastChoice` | backend/authors.py:385-390 | a chosen name is filed under its own key and the last row to name a person decides it |
| `Index.NameCarriesKey` | backend/authors.py:388-421 | every entry is addressed by the key of the name that heads it, resolved |
| `Index.EachOccurrenceLandsOnce` | backend/authors.py:391-409 | conservation: each spelling on a book is in exactly one entry, with the book, counted as often as printed |
| `Index.NothingElseIsIndexed` | backend/authors.py:391-421 | a book is in an entry only for a spelling printed on it |
| `Index.SpellingFindsItsBook` | backend/authorship.py:394-415 | a spelling printed on a book finds that book, whatever the alias table holds |
| `Index.KeyFindsItsEntry` | backend/authorship.py:394-426 | on a table acyclic apart from self rows, an entry's key finds exactly that entry's books, for keys that are their own keys |
| `Index.RowOrderDoesNotMatter` | backend/authors.py:385-421 | any permutation of the books gives the same map of entries |
| `Listings.ListEntries` | backend/authors.py:422 | the list answered is that map's entries, each once, by heading name, case folded, and then by key |
| `Listings.SortedIsUnique` | backend/authors.py:422 | there is one such list of a map |
| `Listings.RowOrderDoesNotShow` | backend/authors.py:385-422 | so any permutation of the books gives the same list |
| `Repoint.MergeKeepsFlat` | backend/authorship.py:501-546 | one merge keeps every target without a row or with a self row |
| `Repoint.MergeMovesExactly` | backend/authorship.py:514-546 | after a merge a key means the person kept if it, or whom it meant, was asked for, and otherwise whom it meant: the person named where they were asked for themselves, whatever row they have, and otherwise whom that name meant |
| `Repoint.MergeStores` | backend/authorship.py:514-576 | every key asked for then carries the name as given where that names one of them or nobody with a row, and otherwise the name of that row |
| `Repoint.MergeIsReversed` | backend/authorship.py:548-576 | merging the same people again under another of them turns the merge round |
| `Repoint.IndexAliases` | backend/authorship.py:1089-1097 | the index built in one pass is the alias map's, from both ends |
| `Repoint.DecidedIsBothEnds` | backend/authorship.py:1099-1124 | the decided keys are both ends of every row and nothing else |
| `Repoint.WouldRepointIsExact` | backend/authorship.py:1127-1159 | true if and only if the two passes of a merge would change whom some existing row means |
| `Repoint.AddingIsMerging` | backend/authorship.py:601-654 | where a group repoints nothing, adding its missing rows is the whole of what merging it does |
| `Repoint.UnrepointedReadsKeys` | backend/authorship.py:1127-1159 | whether a group repoints depends on the table only through whom its keys mean |
| `Repoint.GroupsDoNotInteract` | backend/authorship.py:601-654 | adding one group's rows changes nothing for a group that shares no key with it |
| `Repoint.AddingKeepsFlat` | backend/authorship.py:637-654 | a group that repoints nothing keeps the table flat |
| `Repoint.RemovingKeepsFlat` | backend/authorship.py:692-700 | taking a row away keeps the table flat |
| `Repoint.UnmergeRestoresIff` | backend/authorship.py:673-700 | deleting the row a merge left at a requested key restores the map if and only if there was none there before, every other requested key already read so, and no row came along |
| `Repoint.UnmergeDoesNotAlwaysRestore` | backend/authorship.py:673-678 | a merge whose undoing does not restore |
| `Table.MergedRowsMap` | backend/authorship.py:514-533 | the rows after the two passes read off as the merged map |
| `Table.WithoutMap` | backend/authorship.py:692-700 | deleting a row takes its key out of the map and leaves the rest |
| `Batches.BatchRefusesIff` | backend/authorship.py:614-636 | a batch is refused if and only if one of its groups names nobody visible or would repoint a decision |
| `Batches.BatchOnlyAdds` | backend/authorship.py:637-654 | every row there was stands untouched at the front of the table |
| `Batches.BatchIsUndoneByDeleting` | backend/authorship.py:637-654 | deleting the rows it added restores the table row for row |
| `Batches.BatchMapIsItsGroups` | backend/authorship.py:637-654 | the map afterwards told from the groups without their order |
| `Batches.BatchOrderDoesNotMatter` | backend/authorship.py:601-654 | any permutation of the groups leaves the same map |
| `BatchOrder.BatchOrderDoesNotShow` | backend/authorship.py:637-671 | and, where the batch is accepted, the same index, headings included, though a heading is whatever the last row to name a person says |
| `Batches.RestStaysUnrepointed` | backend/authorship.py:601-636 | validating every group against the table the batch started from is sound |
| `Batches.BatchKeepsFlat` | backend/authorship.py:614-654 | an accepted batch keeps the table flat |
| `Batches.BatchMeansItsMerges` | backend/authorship.py:578-654 | at the level of whom each key means, one batch is its groups merged one after another |
| `Batches.BatchFoldsItsGroups` | backend/authorship.py:614-654 | afterwards a group's keys, and whoever meant one of them, mean its kept person |
| `Decisions.Authorship.Merge` | backend/authorship.py:479-546 | refused, with nothing written, exactly where some key asked for names nobody visible; otherwise every key asked for carries the name `Repoint.MergeStores` tells of, everybody means whom `Repoint.MergeMovesExactly` says, and the answer is the entry of the person kept: the one named, where they were asked for |
| `Decisions.MergeIsAnswered` | backend/authorship.py:479-576 | those same answers, told of the credit lines, the rows before and the rows after |
| `Decisions.Authorship.FollowRows` | backend/authorship.py:514-523 | the first pass edits exactly the rows at a name being folded away |
| `Decisions.Authorship.PlaceRows` | backend/authorship.py:524-533 | the second pass leaves one row for each requested key, at the kept name |
| `Decisions.Authorship.Validate` | backend/authorship.py:614-636 | the groups are checked in order against the table as it stands and the first refusal is the answer |
| `Decisions.Authorship.MergeBatch` | backend/authorship.py:578-671 | all or nothing: refused, for the first group that cannot be, with nothing written; accepted, every row there was stands, every key asked for that had none carries its group's name, nothing else is written, and every group is answered |
| `Decisions.FirstRefusedDecides` | backend/authorship.py:614-636 | a batch passes exactly where each group does, and else is refused for the first that does not: as unknown where it names nobody visible, and otherwise with the group's keys in order |
| `Decisions.BatchAdds` | backend/authorship.py:637-654 | what an accepted batch adds, group by group |
| `Decisions.Authorship.Unmerge` | backend/authorship.py:673-700 | deletes the row with that id exactly where some visible book prints a spelling whose key the row is for, and nothing else |
| `Decisions.ReachableIsEvidenced` | backend/authorship.py:1209-1256 | every key a request may name is evidenced by a visible book |
| `Decisions.ReachableIff` | backend/authorship.py:1209-1256 | and on a flat table every evidenced key may be named |
| `Decisions.FoldedInIff` | backend/authorship.py:692-697 | a row's key is folded in sight exactly where a visible book prints a spelling of it |
| `Decisions.MergeFindsItsAuthor` | backend/authorship.py:537-546 | without a race the refusal after the commit is unreachable |
| `Decisions.BatchFindsItsAuthors` | backend/authorship.py:656-671 | and for every group of an accepted batch |
| `Decisions.EveryRunStaysFlat` | backend/authorship.py:479-700 | over every run of merges, batches and undoings from a flat table, every table reached is flat and so its own resolution |
| `Buckets.Fill` | backend/authors.py:649-660 | filling a dictionary of lists gives each label its items in order |
| `Buckets.TagsAreInOrder` | backend/authors.py:649-660 | the labels stand in the order each was first met |
| `Buckets.PairComesAt` | backend/authors.py:745-769 | and the pairs of a list in the order two nested loops meet them: where in it each pair comes |
| `Buckets.Budget.Spend` | backend/authors.py:152-173 | one comparison less while there is one, and a refusal after |
| `Buckets.ComparePairs` | backend/authors.py:745-769 | the loops find what the test accepts of the first pairs the budget allows and pay for exactly those |
| `Buckets.SmallerBudgetFindsAPrefix` | backend/authors.py:152-173 | with one bucket order, a smaller budget finds a prefix of what a larger one finds |
| `Buckets.BucketingIsAllPairs` | backend/authors.py:745-820 | no pair is compared that shares no tag, and with no bucket oversized none that shares one is missed |
| `Rules.StarsJoinBuckets` | backend/authors.py:690-718 | a star joins two keys of one bucket, and joins every key of a bucket to its first |
| `Rules.WordsAreTheRuns` | backend/authors.py:721-820 | the words of a key are its longest stretches without a space, in order, however many |
| `Rules.WordsOfJoin` | backend/authors.py:721-820 | and the words of words joined by spaces are those words |
| `Rules.EdgesOnIdentity` | backend/authors.py:647-701 | the edges of names that carry the same one authority spine |
| `Rules.EdgesOnSquashedKey` | backend/authors.py:704-718 | the edges of names equal but for spaces |
| `Rules.EdgesOnInitials` | backend/authors.py:721-769 | the edges of the initials rule under what is left of the budget, and what it leaves |
| `Rules.EdgesOnFragments` | backend/authors.py:772-820 | the edges of the fragment rule under what is left of the budget, and what it leaves |
| `AllPairs.InitialsEdgeIsTested` | backend/authors.py:721-769 | sound: an initials edge joins two names whose words, told as the stretches of their keys, end in one surname and begin with one letter, with an initial in one of them |
| `AllPairs.TestedIsAnInitialsEdge` | backend/authors.py:721-769 | complete with no surname oversized and the budget unspent |
| `AllPairs.FragmentEdgeIsTested` | backend/authors.py:772-820 | sound: a fragment edge joins a name of two words or more to one that holds all of them and more |
| `AllPairs.TestedIsAFragmentEdge` | backend/authors.py:772-820 | complete with no word oversized and the budget unspent |
| `AllPairs.StarsAreSameTag` | backend/authors.py:647-718 | grouping on an equal value joins nothing else, and everything that shares one through one hub |
| `AllPairs.SpellingIsSameSquashed` | backend/authors.py:704-718 | sharing a tag is having the same words run together |
| `AllPairs.IdentityIsSharedSpine` | backend/authors.py:647-701 | sharing a tag is sharing the one spine both carry |
| `Forest.Parents.Find` | backend/authors.py:586-591 | path halving ends, returns the root, and moves nobody to another root |
| `Forest.Parents.Join` | backend/authors.py:592-597 | after an edge the two trees are one and no other changed |
| `Forest.JoinAll` | backend/authors.py:584-597 | after all edges two keys have one root exactly where the edges connect them |
| `Forest.SameRootIffConnected` | backend/authors.py:584-597 | what standing for a graph means, read at two keys |
| `Suggest.RunRules` | backend/authors.py:569-582 | the rules in order under one shared budget, which has left what it had less every pair the chosen rules offer, and nothing where they offer more: never more comparisons than MAX_COMPARISONS, whatever the shelf |
| `Suggest.ExactRulesFindTheSame` | backend/authors.py:857-889 | a rule that spends nothing finds the same edges whatever the others are and whatever the budget is |
| `Suggest.ExactEdgesAreDefaultEdges` | backend/authors.py:875-889 | so every edge of the exact matcher is one of the default's |
| `Suggest.NarrowerIsNoWeaker` | backend/authors.py:571-573 | a rule kept by a narrower choice finds every edge it found under the wider one |
| `Suggest.NarrowerFindsLessIff` | backend/authors.py:496-500 | on one list a choice of rules finds only what the default finds if and only if it leaves the fragment rule out, or keeps the initials rule, or the pairs that rule leaves no budget for draw no edge not drawn before them |
| `Suggest.NarrowerFindsLessWithinBudget` | backend/authors.py:496-500 | which is so of every choice where the budget covers every comparison |
| `Suggest.SurnamesCanStarveFragments` | backend/authors.py:566-573 | where surnames spend the budget, an edge the fragment rule alone draws is not among the default's |
| `Starved.StarvedShelf` | backend/authors.py:496-500 | a shelf of one book by each of 2,202 names, whose sorted list is those names in order, on which the fragment rule alone draws an edge the default does not, at MAX_COMPARISONS |
| `Starved.NeverFindsMoreIff` | backend/authors.py:496-500 | so a choice of rules finds only what the default finds on every shelf and every table, at MAX_COMPARISONS, if and only if it leaves the fragment rule out or keeps the initials rule |
| `Suggest.Groups` | backend/authors.py:599-616 | one group for each component of more than one name, disjoint, each with exactly the reasons of the edges inside it |
| `Suggest.SuggestMerges` | backend/authors.py:518-621 | what is offered is the first hundred of those in rank order, and nothing held back ranks before anything offered |
| `Suggest.AheadIs` | backend/authors.py:617-621 | the rank: more names first, and of as many the one whose names come first, compared name by name and character by character |
| `Tested.ConnectedIffChained` | backend/authors.py:518-616 | whatever the budget nobody is connected whom no chain of accepted pairwise tests leads to; with no bucket oversized and the budget sufficing, everybody one leads to is |
| `Tested.OfferedIffChained` | backend/authors.py:518-621 | end to end, without edges, buckets or forest: within those bounds, with fewer than a hundred groups, two people are offered together exactly where such a chain leads from one to the other |
| `Suggest.ExactGroupsLieInsideDefault` | backend/authors.py:875-889 | before the cut every group of the exact matcher lies inside one group of the default's |
| `Preview.CandidateIsOneOfThem` | backend/authorship.py:1162-1206 | the name a batch would keep is one of the group's own: that of the first decided one, else of the one with most books, of equals the first by name, case folded, and then by key |
| `Preview.HeldBackIffTwoDecided` | backend/authorship.py:1187-1206 | no name is offered if and only if two of the group's names are decided, and then none in it could be kept |
| `Preview.FlatTableHoldsBackIffTwoDecided` | backend/authorship.py:1187-1206 | and so of every group of names out of the index of a flat table |
| `Preview.UnrepointedIffAloneDecided` | backend/authorship.py:1127-1206 | for people nobody stands for, repointing nothing is having nobody else decided in the group |
| `Preview.FlatTableRepointsNothingIffAloneDecided` | backend/authorship.py:1127-1159 | and so of any people in the index of a flat table |
| `Preview.Suggestions` | backend/authorship.py:301-342 | every proposed group with the name a batch would keep, or none |
| `Preview.OfferedIsProposed` | backend/authors.py:599-621 | what the pass offers is what the preview needs of a proposal: indexed keys, disjoint groups of two or more |
| `Preview.UnsettledKeyIsRefused` | backend/authorship.py:614-623 | a batch naming a key whose own key nobody visible carries is refused |
| `Review.KeysAreTheirOwnIff` | backend/authors.py:385-421 | the keys an index holds are their own keys if and only if what the characters of its heading names fold to folds to itself |
| `Requests.CheckBatch` | backend/schemas/author.py:416-508 | the loop over groups and keys passes exactly the batches within the bounds in which every group keeps one of its own names and no two spellings have one key |
| `Requests.PassesIs` | backend/schemas/author.py:416-508 | the request model whole, in numbers, with no two of all the spellings under one key |
| `Requests.PassesIsWellFormed` | backend/schemas/author.py:416-508 | what passes is what the writing relies on |
| `Review.ReadPreview` | backend/authorship.py:301-355 | what is answered is a line for each group the pass offers of the shelf's own index |
| `Review.AnyPreviewIsKeptIff` | backend/authorship.py:301-342 | for every flat table and every shelf: submitting what a preview shows gets past the request model, is refused for nothing, leaves everybody shown meaning the name shown beside them and everybody else meaning whom they meant, if and only if the submission is within a request's bounds and what each group of it asks for is its own names |
| `Promise.PromiseIsKeptIff` | backend/authorship.py:301-342 | the same equivalence for any disjoint groups of indexed names, however they were proposed |
| `Review.FoldingIsKeeping` | backend/authorship.py:314-316 | folding the names shown into the names shown already is the whole of it: nobody off screen can then have been touched |
| `Review.OwnKeysAskForThemselves` | backend/authorship.py:498-512 | on a shelf whose keys are their own keys every group asks for its own names |
| `Review.Submit` | backend/schemas/author.py:458-508 | a batch that does not pass is malformed and changes nothing, one that passes is answered and written as the batch is |
| `Review.SubmitThePreview` | backend/authorship.py:301-342 | end to end, from any flat table: the lines read, what sending them is answered and the rows afterwards, which do what the lines say under exactly that condition |
| `Review.EveryPreviewHoldsBackIffTwoDecided` | backend/authorship.py:1187-1206 | after any run of merges, batches and undoings from no rows, a preview holds back exactly the groups two of whose names stand at an end of some row |
| `Unsettled.BoldAuthorsAreUnknownByKey` | backend/authorship.py:498-512 | two names in U+1D400, with and without a space, are listed under keys no request can name them by |
| `Unsettled.BoldPreviewIsRefused` | backend/authorship.py:301-342 | every preview of that shelf that runs the spelling rule offers a group, and the batch of what it offers keeps a name it does not ask for and asks for nobody |
| `Unsettled.MalformedPreview` | backend/schemas/author.py:444-455 | reading the suggestions of that shelf and submitting them is turned away by the request model |
| `Mistaken.TheLine` | backend/authorship.py:301-342 | two people with one ISNI, listed under `A y` and `b z`: every preview of either shelf that runs the identity rule is one line, those two, kept as `b z` |
| `Mistaken.UnknownPreview` | backend/authorship.py:614-623 | with nobody listed as `a y`, submitting it gets past the request model and is answered `AuthorNotFound` |
| `Mistaken.MistakenPreview` | backend/authorship.py:614-654 | with somebody listed as `a y`, it is accepted, `a y`, who was never on screen, is folded into `b z`, and `A y`, who was, is not |
| `Utf8.ScalarIsWellFormed` | backend/csv_import.py:444-448 | a scalar value is read exactly where a row of Table 3-7 of the Unicode Standard stands |
| `Utf8.RunIsMaximal` | backend/csv_import.py:361-381 | a reported run is the maximal subpart: one byte, or the longest start of a scalar value's bytes |
| `Utf8.PiecesPartition` | backend/csv_import.py:361-381 | scalar values and runs partition the bytes: none lost, none read twice |
| `Utf8.RunCountIsExact` | backend/csv_import.py:450-460 | for every byte string the count taken by subtraction is the number of runs the handler is called on |
| `Utf8.ValidIffEncoded` | backend/csv_import.py:444-448 | strict decoding succeeds exactly on the bytes of some text and answers that text |
| `Utf8.EncodeDecode` | backend/csv_import.py:409-418 | each row of the table spells one scalar value, whose bytes it is |
| `Utf8.SpellsReplacement` | backend/csv_import.py:409-418 | only EF BF BD spells the replacement character |
| `Utf8.DecodeIsBudgeted` | backend/csv_import.py:421-463 | with 50,000 runs or fewer a file is read by a reader that takes a character where one is spelled and any other byte by itself; with more, the text has the file's length and each byte is its own character, in place |
| `Utf8.DecodeIsReading` | backend/csv_import.py:361-381 | the decoder with its maximal subparts and its handler is that reader |
| `Utf8.StrayBytesCostThemselves` | backend/csv_import.py:428-435 | stray bytes in the middle of valid text, up to the budget, each become their own character, in order, and the text around them is read as written |
| `Utf8.EncodedFileIsRead` | backend/csv_import.py:421-448 | text written as UTF-8, with or without a mark in front, is read back |
| `Utf8.StrayByteCostsItself` | backend/csv_import.py:428-435 | a stray byte amid valid text becomes its one character and the text around it is read as written |
| `Base64.B64IsPlain` | backend/credentials.py:914-915 | what is written has no padding and no dot |
| `Base64.RoundTrip` | backend/credentials.py:914-919 | what is written is read back, whatever the bytes, through the lenient decoder |
| `Base64.FourAreDigits` | backend/credentials.py:914-915 | three bytes, as one number, are written as its four digits to the base of 64, in the URL-safe alphabet |
| `Envelopes.EnvelopeParses` | backend/credentials.py:1023-1025 | the envelope's text splits back into its four parts |
| `Envelopes.PurposeReads` | backend/credentials.py:929-932 | the purpose strings, part by part, as the code writes them, those of members too |
| `Envelopes.AssociatedIsInjective` | backend/credentials.py:929-1003 | what is sealed over determines the key's tag, the scheme, the kind, the subject and the origin |
| `Envelopes.OpensOnlyWhereSealed` | backend/credentials.py:1070-1110 | whatever text is on a row, what opens was sealed under this key for this source and origin, or by the old scheme for this source at its published origin |
| `Envelopes.SealedOpensExactlyThere` | backend/credentials.py:1006-1110 | a fresh envelope opens if and only if key, source and origin are its own, or the old scheme's condition holds, and gives its secret |
| `Envelopes.MemberOpensOnlyWhereSealed` | backend/credentials.py:1123-1163 | a member's login opens only under its own service, member and origin |
| `Envelopes.MemberSealedOpensExactlyThere` | backend/credentials.py:1131-1163 | and does open there; a catalogue's envelope never opens as a member's |
| `Envelopes.OpenableIffSomeAddressGetsPast` | backend/credentials.py:1043-1067 | answered no exactly where every address is refused for the format, the scheme or the key |
| `Envelopes.RefusalSays` | backend/credentials.py:1043-1110 | which refusal an opening that fails is answered: the first that applies |
| `Envelopes.MemberRefusalSays` | backend/credentials.py:1144-1163 | and for a member's login, where only the current scheme is read |
| `Credentials.Vault.Put` | backend/credentials.py:1431-1468 | accepted exactly where both halves are there, the username has no colon, the source is safe and the base has an origin, whatever is in the password; which refusal otherwise, with nothing changed; and a read at that address then answers the login put |
| `Credentials.Vault.Stored` | backend/credentials.py:1481-1503 | the login opened, and a superseded row carried forward |
| `Credentials.Vault.ResealIfSuperseded` | backend/credentials.py:1506-1549 | the row sealed again at the address it just opened for, where it is superseded and can be written |
| `Credentials.ForgottenUntilPut` | backend/credentials.py:1471-1478 | a source forgotten answers that nothing is stored, under every key and address and through whatever reads follow, until the next put; every other source answers as before |
| `Credentials.PutThenStored` | backend/credentials.py:1454-1503 | for every such login, with whatever password, what is put is answered at that origin and at no other |
| `Credentials.ReadKeepsEveryAnswer` | backend/credentials.py:1506-1549 | carrying a row forward changes no later answer under any key, for any source, at any address |
| `Credentials.StepNeverGoesBack` | backend/credentials.py:1454-1549 | no step puts a row back to the superseded scheme; a read that opened one and can write leaves it current |
| `Credentials.RunNeverGoesBack` | backend/credentials.py:1454-1549 | over every run |
| `Credentials.EveryRunStandsFor` | backend/credentials.py:1431-1549 | over every run the sealed store refines a plain map from source to origin and login |
| `Credentials.EveryRunFromNothing` | backend/credentials.py:1431-1549 | so from an empty store a login is answered if and only if it is the last one put for that source and not forgotten since, at the address it was put for |
| `Credentials.LoginStaysWithItsAddress` | backend/credentials.py:1617-1670 | a login the deployment did not pin goes only where it was sealed for or where this build publishes the default |
| `Credentials.ResolvesTo` | backend/credentials.py:1617-1670 | which level answers and what: a pin above what is stored, readable or not, what is stored above what is shipped, openable or not, and what is shipped only at its published address |
| `Credentials.PinnedIs` | backend/credentials.py:1314-1348 | a pin is read as exactly the login it spells, both halves there, split at the first colon |
| `Headings.HeadingsToAdd` | backend/classifications.py:198-219 | the first new keys in payload order, as many as there is room for, each with its first heading |
| `Headings.Book.AddHeadings` | backend/classifications.py:222-330 | stored rows keep their place, completed by the first caption and kind of the payload, and after them the first new keys in payload order as far as eight rows go; the numbers reported are exactly those of rows that changed |
| `Headings.HeadedByOneMore` | backend/classifications.py:302-330 | what one more payload heading changes: the one row that has its key, or a new row while there is room |
| `Headings.SecondCallChangesNothing` | backend/classifications.py:238-243 | a second identical call changes nothing |
| `Headings.EveryInterleavingKeepsTheCeiling` | backend/classifications.py:268-300 | in any interleaving of transactions that check unlocked, lock, re-read and insert: never past the ceiling, no key twice, no committed key lost |
| `Headings.SecondSeesTheFirst` | backend/classifications.py:268-300 | of two transactions that read before either wrote, the second waits and then adds to what the first committed |
| `Headings.OneTransaction` | backend/classifications.py:268-300 | and a transaction by itself adds what there is to add when it commits, and nothing when it does not |
| `Folds.Gather` | backend/catalogue.py:1195-1253 | the dict loop the three folds share gives one element a key, in first occurrence order, filled in |
| `Folds.GatheredKeys` | backend/catalogue.py:1195-1253 | the keys come out each once, in first occurrence order |
| `Folds.GatheredTwice` | backend/catalogue.py:1195-1253 | folding twice is folding once |
| `Records.FoldSubjects` | backend/catalogue.py:1130-1192 | the three passes give the folded subjects |
| `Records.DoesRestate` | backend/catalogue.py:1086-1127 | an undeclared subject restates a declared one of its label that it adds no identifier to |
| `Records.FoldedShape` | backend/catalogue.py:1130-1192 | one subject a label and vocabulary, label by label in first occurrence order, no label lost, no restatement left |
| `Records.FoldedIsTold` | backend/catalogue.py:1086-1192 | which subjects a fold leaves, told of those folded: with the first identifier of their label and vocabulary, and undeclared ones only where they add something |
| `Records.FoldedTwice` | backend/catalogue.py:1130-1192 | folding the subjects twice is folding them once |
| `Records.UnionKeepsTheFirst` | backend/catalogue.py:1216-1253 | the caption and the kind of each heading are the first any occurrence had |
| `Records.FillingIsTold` | backend/catalogue.py:800-834 | filling takes nothing away: the leading record's wherever it has any, else the other's, of the scalars those that may fill; the source names both |
| `Records.MergingIsTold` | backend/catalogue.py:836-853 | merging folds the collections of both, the leading one's first, and fills the rest |
| `Records.RewritingIsTold` | backend/catalogue.py:888-908 | rewriting writes and clears just the scalars given, and leaves the collections of a folded record |
| `Records.ParsingIsTold` | backend/catalogue.py:674-757 | and a parsed record keeps every scalar that may stand and no other |
| `Records.FlagIsUnobservable` | backend/catalogue.py:674-757 | every record any chain of parsing, filling, merging and rewriting makes is the one always folding would make, with fold fixed points and storable scalars |
| `Records.FillingIsAssociative` | backend/catalogue.py:800-834 | three records fill to the same whichever two were folded first, the joined source included |
| `Resets.Accounts.RequestPasswordReset` | backend/accounts.py:311-356 | no account or no local one, or a live request still good: nothing changes; otherwise one new request, good for a week, after the others, in the place of the lapsed one |
| `Resets.Accounts.ApproveReset` | backend/accounts.py:378-401 | the live request carries a new code, good for an hour from now |
| `Resets.Accounts.DismissReset` | backend/accounts.py:404-417 | the live request goes, and no other row |
| `Resets.Accounts.RedeemReset` | backend/accounts.py:440-486 | succeeds exactly for a local account whose live request is approved, unexpired and carries the code; password, cutoff, sync password and request change together |
| `Resets.LiveAfter` | backend/accounts.py:301-486 | what each call does to its account's live request, and nothing to any other account's |
| `Resets.EveryRunHasOneLive` | backend/accounts.py:324-329 | over every run at most one unredeemed request an account |
| `Resets.EveryRedemptionHasItsApproval` | backend/accounts.py:378-486 | over every run from no requests each redemption has an approval of its own, of that very row, untouched since, whose code it gave within the code's time |
| `Resets.OnlyTheCodeRedeems` | backend/accounts.py:121-141 | of codes of capitals and digits, as all that are drawn are, the one approved redeems, within its hour, and no other |
| `Resets.OtherCharactersDoNotCount` | backend/accounts.py:121-141 | a character that is no ASCII letter or digit counts for nothing, wherever it stands, given or typed |
| `Resets.CaseDoesNotCount` | backend/accounts.py:121-141 | nor does case |
| `Resets.LapsedOrRedeemable` | backend/accounts.py:336-375 | an approved request answers its code or may be replaced and never both |
| `Resets.EveryApprovalLapsesOrRedeems` | backend/accounts.py:336-375 | and so at every instant of every run from no requests: the code an approval in the run gave works for its hour, exactly as long as asking again changes nothing |
| `Resets.ApprovalRevivesALapsedRequest` | backend/accounts.py:378-399 | a request past its own time is approved all the same |
| `Resets.SessionsEndAtRedemption` | backend/accounts.py:603-630 | under a clock that does not go back, the tokens an account may act with are exactly those it could act with before and that are no older than any of its redemptions since |
| `Resets.PasswordIsTheLastRedeemed` | backend/accounts.py:440-486 | only the account's own redemptions set its password, and the last one stands |
| `Directory.CandidateIsInjective` | backend/auth_backends.py:62-79 | no two suffixes give one name, however much of the base is cut |
| `Directory.SomeSuffixIsFree` | backend/auth_backends.py:65-68 | a free suffix is found within one more try than there are names |
| `Directory.FreeUsername` | backend/auth_backends.py:62-79 | the loop ends at the lowest free suffix, and the name fits its column |
| `Directory.Accounts.UpsertDirectoryUser` | backend/auth_backends.py:188-427 | exactly the names of at most 50 characters without a NUL are signed in; the row then has the identity's name and directory, is no test account, and has the rights and the address the identity, the directory and the row before decide; names stay unique |
| `Directory.ClearedIsUnique` | backend/auth_backends.py:82-115 | moving a test account aside frees the name and changes nothing but that account's name |
| `Directory.UpsertTouchesOneAccount` | backend/auth_backends.py:188-427 | what one sign in does to every account there was |
| `Directory.EveryRunKeepsAccounts` | backend/auth_backends.py:82-115 | over every run names stay unique, no account is lost and a test account keeps all but perhaps its name |
| `Directory.RepeatIsNoOpIff` | backend/auth_backends.py:330-427 | signing in again changes nothing except after the first account was made an admin its directory denies |
| `Categories.SplitOfJoin` | backend/categories.py:126-181 | what is read back is what was kept, for every list and cap |
| `Categories.SplitIsTold` | backend/categories.py:114-123 | a stored string is read as its parts that have something in them, trimmed, in order |
| `Categories.KeptIsTold` | backend/categories.py:126-170 | what is kept of a list: what carries no separator, of that up to the cap, of that what has something in it, trimmed |
| `Categories.ReboundKeepsTheSubjects` | backend/categories.py:200-249 | re-bounding keeps every subject, is idempotent and answers within both bounds |
| `Categories.ReboundRefusesIff` | backend/categories.py:232-249 | the answers exactly: more than 32 subjects, refused by their number, more than 3,902 characters rejoined, refused by theirs, and otherwise the subjects rejoined |
| `Categories.AStatedListFits` | backend/categories.py:107-109 | any list of at most 32 bare subjects of at most 120 characters fits and comes back |
| `Categories.BoundIsAttained` | backend/categories.py:107-109 | such a list meets the bound exactly |
| `Categories.ArrivingWithinIsNotEnough` | backend/categories.py:219-226 | a string of exactly the bound that rejoins to 3,933 characters and is refused |
| `Covers.Shelf.Upload` | backend/cover_store.py:228-303 | from a directory holding only the row's file: committed, only the new file; rolled back, the same names with the row's file there |
| `Covers.RolledBackWriteIsUndone` | backend/cover_store.py:257-303 | written, settled and rolled back: the directory as it was where the name was new, and else only that name's file replaced |
| `Covers.CommittedWriteStandsAlone` | backend/cover_store.py:257-303 | written, settled and committed: the book's one file, whatever formats there were |
| `Covers.Shelf.Sweep` | backend/cover_store.py:243-245 | every format but one goes |
| `Covers.Shelf.FirstOnDisk` | backend/cover_store.py:112-140 | the first format on disk in a fixed order, none before it there, which is the row's where row and directory agree |
| `Covers.LaterFilesSurviveARollback` | backend/cover_store.py:278-328 | in any interleaving a rollback removes exactly the file that stood under its name when it settled, where that name was new to it |

## Left out

- Input and output: HTTP, LDAP, SMTP, downloads, the keychain and key files, and the log lines.
- `backend/backup.py`: the archive and its restore; the foreign keys its order rests on are declared in models not modelled here.
- The other readers of `backend/csv_import.py`: column guesses, dates, years, `_int`, `_build_mapping` and the dialect sniffing.
- Author identifiers and the authority lookups (`backend/authorship.py:710-1044`); the spines the identity rule reads are a parameter.
- Rendering of an answer (`AuthorOut`), its alias ids and identifiers, and the user a row was created by.
- The request model of a single merge (`backend/schemas/author.py:378-413`), which tidies the name to keep; that of a batch tidies nothing.
- `SuggestionReason` texts and the second passes of `display_name`; name cleaning in `backend/bibliographic.py`.
- Races: two members deciding at once, a book trashed between two reads of the index, captions filled by two transactions at once, two cover writers in two formats, and a process killed between a write and its commit.
- `bounded_headings`' validation and ordering, and SCHEME_ORDER: a stable sort over a finite table.
- Key configuration: no key, two stores holding different keys, the recovery phrase, and `generate_key`, whose refusal rests on `Envelopes.OpenableIffSomeAddressGetsPast`.
- The UTF-8 encoding of a secret and of what is sealed over, which is one to one by `Utf8.DecodeText`; a lone surrogate in a password, which cannot be encoded, is not modelled.
- Verification codes and mail (`backend/accounts.py:152-296`), and the equalising of timing.
- `copy`, `move`, `restore`, `remove` and the login background of `backend/cover_store.py`, and names outside the directory.
- `_drop_unstorable`'s rewrites and truncation on upload: what a column holds is one predicate.
- Aliasing between rows of one session: the alias table, a shelf's rows and the accounts are sequences a class reassigns, not objects.
- Records.FoldSubjects: `_union` and `_distinct` share `Folds.Gather` with it and have no loop of their own here.
- Index.KeyFindsItsEntry: holds for keys that are their own keys, because `author_key` is not idempotent on every table.
- Resets.EveryRedemptionHasItsApproval: starts from no requests; rows an archive brings in have no approval in the run.
- Covers.Shelf.Upload: starts from a directory holding only the row's file; a restored library may hold two formats of one book.
