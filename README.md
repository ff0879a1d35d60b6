# UserSphere users directory, modelled in Dafny

UserSphere is a Next.js front end over a public users API. It shows the users
in a table that can be searched by name, narrowed to one company, sorted by
email and paged ten rows at a time. Users are added, edited and deleted
through react-query mutations that change the cached list optimistically and
roll it back when the request fails. A small zustand store keeps the dark-mode
flag, the signed-in user and an activity log of at most 50 entries.

This project models that core:

- `wrappers.dfy`: `Option` and `Outcome`. `Outcome` stands for the result of an HTTP request, `Ok(reply)` or `Err`.
- `seqs.dfy`: `Map`, `Filter`, subsequences and the slicing rules of JavaScript's `slice`.
- `text.dfy`: the JavaScript whitespace set (`\s`, `trim`) and ASCII case mapping. It also has `trim`, `includes` and the lexicographic order on strings, with its order laws.
- `types.dfy`: the user record with its address, geo and company parts.
- `user_utils.dfy` (`src/utils/userUtils.ts`): initials and the three validators. The failure that `validateUser` raises with `alert` is returned as a `Verdict` value here.
- `users_hooks.dfy` (`src/hooks/useUsers.ts`):
  - the temporary user, the reply merges and the cache producers;
  - class `UsersCache`, which holds the cached list (`None` while nothing is fetched);
  - one method per mutation callback, plus a whole add, update and delete for a given request outcome.
- `pagination.dfy` (`src/components/PaginationControls.tsx`): the shown range, the previous and next targets and the disabled conditions.
- `users_view.dfy` (`src/components/UsersContainer.tsx`):
  - the company list, the filter, the stable email sort, the page slice and the page count;
  - the two page effects and the submit dispatch;
  - class `UsersScreen`, which holds the component state and has one method per handler.
- `app_store.dfy` (`src/stores/useAppStore.ts`): the log update and class `Store`, which holds the store's state.

## Model

| member | source | states |
|---|---|---|
| UserUtils.JoinSplit | src/utils/userUtils.ts:3 | splitting on a separator and joining back gives the string back |
| UserUtils.Split | src/utils/userUtils.ts:3 | there is always at least one piece, and no piece contains the separator |
| UserUtils.HeadsOfSplit | src/utils/userUtils.ts:3-5 | the first characters of the pieces after `split(' ')` are exactly the characters that start a word (string start, or after a space); empty pieces contribute nothing |
| UserUtils.Initials | src/utils/userUtils.ts:1-8 | at most two characters: the first two word-start characters of the name, upper-cased |
| UserUtils.ValidateEmail | src/utils/userUtils.ts:10-13 | the regex matches exactly when the address has one `@` and no whitespace, the `@` is not first, and the domain has a dot with at least one character on each side |
| UserUtils.ValidateName | src/utils/userUtils.ts:15-17 | true exactly when the name has a non-whitespace character |
| UserUtils.ValidatePhone | src/utils/userUtils.ts:19-21 | true exactly when the phone is a non-empty run of ASCII digits with only whitespace around it |
| UserUtils.ValidateUser | src/utils/userUtils.ts:23-37 | accepted exactly when all three validators pass; otherwise the first failing check, in the order name, email, phone, says which message is raised |
| Text.Trim | src/utils/userUtils.ts:16 | the result is empty exactly when the input is all whitespace; otherwise it is the contiguous middle part that starts and ends with non-whitespace and has only whitespace around it |
| Text.TrimAround | src/utils/userUtils.ts:20 | any middle part with whitespace around it and non-whitespace at both ends is what `trim` returns |
| Text.IncludesAt | src/components/UsersContainer.tsx:53-55 | `includes` holds exactly when the term occurs at some position |
| Text.LessTotal | src/components/UsersContainer.tsx:65-67 | of two distinct strings, one is ordered before the other |
| Text.LessTransitive | src/components/UsersContainer.tsx:65-67 | the string order is transitive |
| UsersHooks.Username | src/hooks/useUsers.ts:58 | the username is the lower-cased name with every whitespace character removed: it contains no whitespace, it is a subsequence of the lower-cased name, and each other character occurs as often as there |
| Text.RemoveSpaces | src/hooks/useUsers.ts:58 | `replace(/\s+/g, '')` keeps the characters in order: the result is a subsequence with no whitespace, and it holds every non-whitespace character as often as the input does |
| UsersHooks.TempUser | src/hooks/useUsers.ts:54-77 | the optimistic record has id `-now` (negative whenever the clock is positive) and the form's name, email, phone and company name; the username is `Username` of the name; website, address, catch phrase and bs are blank |
| UsersHooks.MergeAdd | src/hooks/useUsers.ts:86-103 | the merged record keeps the reply's id, name and email and the form's phone and company name; address, website and username come from the reply when present, otherwise from the optimistic record |
| UsersHooks.ReplaceById | src/hooks/useUsers.ts:111 | same length; every row with the id becomes the merged record; every other row is unchanged |
| UsersHooks.ReconcileAdd | src/hooks/useUsers.ts:106-114 | with a non-zero temporary id, same length, with every row carrying that id replaced by the merged record and all others unchanged; with id 0, the merged record prepended to the unchanged list |
| UsersHooks.AddSucceedsInPlace | src/hooks/useUsers.ts:106-113 | when the temporary id is unique and non-zero, success puts the merged record exactly where the optimistic one was |
| UsersHooks.AddSuccessOverwritesSharedId | src/hooks/useUsers.ts:110-111 | an existing row that happens to share the temporary id is overwritten as well |
| UsersHooks.AddSuccessAtTimeZero | src/hooks/useUsers.ts:106-114 | with a clock reading of 0 the temporary id is falsy; success then prepends the merged record and leaves the optimistic one behind |
| UsersHooks.Patch | src/hooks/useUsers.ts:143-153 | the optimistic edit takes the form's name, email, phone and company name; it keeps the id, username, website, address, catch phrase and bs |
| UsersHooks.PatchById | src/hooks/useUsers.ts:141-156 | same length; rows with the edited id are patched; all others are unchanged |
| UsersHooks.MergeUpdate | src/hooks/useUsers.ts:164-182 | the reply's id, name and email; the form's phone and company name; the row's catch phrase and bs; address, website and username from the reply when present, otherwise from the row |
| UsersHooks.ReconcileUpdate | src/hooks/useUsers.ts:162-186 | same length; rows matching the reply's id are merged; all others are unchanged |
| UsersHooks.UpdateKeepsFormFields | src/hooks/useUsers.ts:141-186 | after the optimistic edit and a successful reply for the same id, the row has the form's phone and company name and its old catch phrase and bs |
| UsersHooks.RemoveById | src/hooks/useUsers.ts:212 | no row with the id remains; every other row keeps its multiplicity; the result is a subsequence of the list, so order is kept |
| UsersHooks.Rollback | src/hooks/useUsers.ts:116-121 | a defined snapshot is restored, even an empty list; without one the current list stays |
| UsersHooks.UsersCache.AddMutate | src/hooks/useUsers.ts:48-83 | returns the snapshot and the optimistic record; the cache becomes the optimistic record followed by the old rows |
| UsersHooks.UsersCache.AddSuccess | src/hooks/useUsers.ts:84-115 | the cache becomes the reconciled list of the merged record |
| UsersHooks.UsersCache.UpdateMutate | src/hooks/useUsers.ts:134-159 | returns the snapshot; the cache becomes the patched list |
| UsersHooks.UsersCache.UpdateSuccess | src/hooks/useUsers.ts:160-187 | the cache becomes the reconciled list |
| UsersHooks.UsersCache.DeleteMutate | src/hooks/useUsers.ts:205-215 | returns the snapshot; the cache becomes the list without the id |
| UsersHooks.UsersCache.Restore | src/hooks/useUsers.ts:116-121 | the cache becomes the rollback of the snapshot |
| UsersHooks.UsersCache.AddUser | src/hooks/useUsers.ts:48-121 | a failed add restores the snapshot; if there was none, the optimistic record stays; a successful add ends with the reconciled list |
| UsersHooks.UsersCache.UpdateUser | src/hooks/useUsers.ts:134-193 | a failed edit restores the snapshot (an empty list if there was none); a successful edit ends with the patched, then reconciled list |
| UsersHooks.UsersCache.DeleteUser | src/hooks/useUsers.ts:205-222 | a failed delete restores the snapshot (an empty list if there was none); a successful delete keeps the optimistic removal, with no refetch |
| UsersHooks.InterleavedAddsLoseTheSecond | src/hooks/useUsers.ts:52-121 | if a first add fails while a second is pending, its rollback also drops the second's optimistic record, and the second's success then leaves the list without it |
| UsersHooks.RollbackOwnAdd | src/hooks/useUsers.ts:116-121 | the corrected rollback drops only the failed add's own record: the kept rows are a subsequence with no row carrying that id, and every other row keeps its multiplicity |
| UsersHooks.InterleavedAddsKeepTheSecond | src/hooks/useUsers.ts:52-121 | with the corrected rollback, the second add's merged record is in the list after the first add fails and the second succeeds, and no other row carries the failed add's id |
| Pagination.Renders | src/components/PaginationControls.tsx:16-18 | with no pages the bar is never drawn; when there is at least one page, it is drawn exactly when there are items |
| Pagination.CeilDiv | src/components/UsersContainer.tsx:81 | the ceiling of the quotient: `(q-1)·d < n ≤ q·d`, or 0 for no items |
| Pagination.PageInRange | src/components/UsersContainer.tsx:81 | a page is at most the page count exactly when its first row index is below the row count |
| Pagination.StartItem | src/components/PaginationControls.tsx:20 | never beyond the item count |
| Pagination.EndItem | src/components/PaginationControls.tsx:21 | never beyond the item count |
| Pagination.ShownRange | src/components/PaginationControls.tsx:20-21 | on an existing page, "Showing a to b" has `a = (page-1)·perPage + 1` and `1 ≤ a ≤ b ≤ total`, with at most `perPage` items |
| Pagination.PreviousTarget | src/components/PaginationControls.tsx:32 | from any page ≥ 1 the target is a page between 1 and the current one; above page 1 it is the page before |
| Pagination.NextTarget | src/components/PaginationControls.tsx:46 | never past the last page; before the last page it is the next page |
| Pagination.PreviousDisabled | src/components/PaginationControls.tsx:33 | Previous is disabled whenever there are no pages; on an existing page, exactly when its target is the current page |
| Pagination.NextDisabled | src/components/PaginationControls.tsx:47 | Next is disabled whenever there are no pages; on an existing page, exactly when its target is the current page |
| UsersView.InsertName | src/components/UsersContainer.tsx:43-44 | inserting into a strictly ascending list keeps it strictly ascending and adds exactly the name |
| UsersView.SortedDistinct | src/components/UsersContainer.tsx:43-44 | strictly ascending and holding exactly the given names |
| UsersView.Companies | src/components/UsersContainer.tsx:41-45 | the company filter options are strictly ascending and distinct; they are exactly the company names of the rows; the list is empty exactly when there are no rows |
| UsersView.Filtered | src/components/UsersContainer.tsx:47-60 | never longer than the rows; a record is in the result exactly when it is among the rows and matches both the search and the company |
| UsersView.FilteredIsOneFilter | src/components/UsersContainer.tsx:47-60 | the guards and the two filter stages equal one filter by the combined test |
| UsersView.FilteredProperties | src/components/UsersContainer.tsx:47-60 | the filtered rows keep their order, all match; every matching row keeps its multiplicity |
| UsersView.SortByEmail | src/components/UsersContainer.tsx:62-70 | the email sort is a permutation of its input and is ordered by email, up or down |
| UsersView.SortStable | src/components/UsersContainer.tsx:62-70 | rows with equal emails keep their relative order, as `Array.prototype.sort` guarantees |
| UsersView.FilteredAndSortedProperties | src/components/UsersContainer.tsx:47-73 | the visible list is a permutation of the filtered rows; it is that list itself when unsorted; otherwise it is ordered by email and stable |
| UsersView.FilteredAndSorted | src/components/UsersContainer.tsx:47-73 | the visible list has the same rows, with the same multiplicities, as the filtered list; when unsorted it is the filtered list itself |
| UsersView.PageOf | src/components/UsersContainer.tsx:75-79 | at most ten rows; for page ≥ 1, the clamped slice starting at `(page-1)·10`, row k being list row `(page-1)·10 + k`; as many rows as remain, up to ten; never empty on an existing page of a non-empty list |
| UsersView.TotalPages | src/components/UsersContainer.tsx:81 | at least one page; one page for no rows; otherwise the ceiling of rows / 10 |
| UsersView.RowOnPage | src/components/UsersContainer.tsx:75-81 | every visible row appears on the page its index falls in, at its offset in that page, and that page exists |
| UsersView.PageMatchesShownRange | src/components/UsersContainer.tsx:75-79 | the rows on a page are exactly the items the pagination bar says are shown |
| UsersView.NextSortOrder | src/components/UsersContainer.tsx:158-166 | every click moves to a different order (the exact transitions are stated by `UsersView.SortToggleCycle`) |
| UsersView.SortToggleCycle | src/components/UsersContainer.tsx:158-166 | the clicks go unsorted, ascending, descending, unsorted: every click changes the order and three clicks return to it |
| UsersView.CommitAsWritten | src/components/UsersContainer.tsx:83-91 | the page after both effects as written: always an existing page; page 1 after a filter change when the old page still exists; the old page when nothing changed and it exists; the last page whenever the old page lies past it |
| UsersView.ClampOverridesReset | src/components/UsersContainer.tsx:83-91 | with both effects firing in one commit on a page beyond a new page count above 1, the page ends on the last page, not on 1; for example page 5 of a list that now has 3 pages shows page 3 |
| UsersView.Commit | src/components/UsersContainer.tsx:83-91 | a filter change lands on page 1; otherwise a valid page is kept; the result is always an existing page |
| UsersView.CommitAgreesOtherwise | src/components/UsersContainer.tsx:83-91 | the corrected commit differs from the written one only in the case above |
| UsersView.SubmitAction | src/components/UsersContainer.tsx:93-122 | an invalid form only raises the validator's message. A valid form sends an update under the edited record's id when a record is being edited, and an add of the form otherwise |
| UsersView.UsersScreen.constructor | src/components/UsersContainer.tsx:24-32 | empty search, company `all`, unsorted, page 1, both dialogs closed |
| UsersView.UsersScreen.Shown | src/components/UsersContainer.tsx:75-79 | all of the page's records: as many as the page holds (ten, or the rest of the list on the last page), each the consecutive visible record after those of the earlier pages; never empty on an existing page while anything is visible |
| UsersView.UsersScreen.CompanyOptions | src/components/UsersContainer.tsx:41-45 | the options are strictly ascending and are exactly the company names of the rows |
| UsersView.UsersScreen.ReceiveRows | src/components/UsersContainer.tsx:87-91 | the page is clamped to the new page count, so the shown page is non-empty whenever anything is visible; the company options are exactly the new rows' company names; nothing else changes |
| UsersView.UsersScreen.SetSearchTerm | src/components/UsersContainer.tsx:83-91 | the page follows both effects as written: a changed term lands on page 1 when the old page still exists, and on the new last page when it does not; the page always exists |
| UsersView.UsersScreen.SetSelectedCompany | src/components/UsersContainer.tsx:83-91 | the page follows both effects as written: a changed company lands on page 1 when the old page still exists, and on the new last page when it does not; the page always exists |
| UsersView.UsersScreen.ToggleEmailSort | src/components/UsersContainer.tsx:158-166 | the order advances and the page returns to 1, since sorting keeps the page count and the clamp cannot fire |
| UsersView.UsersScreen.PreviousPage | src/components/PaginationControls.tsx:16-33 | moves to the previous target unless the bar is hidden or the button disabled; the page always exists and is non-empty whenever anything is visible |
| UsersView.UsersScreen.NextPage | src/components/PaginationControls.tsx:16-47 | moves to the next target unless the bar is hidden or the button disabled; the page always exists and is non-empty whenever anything is visible |
| UsersView.UsersScreen.HandleEdit | src/components/UsersContainer.tsx:125-128 | the dialog opens on the given record |
| UsersView.UsersScreen.HandleAdd | src/components/UsersContainer.tsx:130-133 | the dialog opens on an empty form |
| UsersView.UsersScreen.HandleSubmit | src/components/UsersContainer.tsx:93-122 | returns the dispatch for the current editing state |
| UsersView.UsersScreen.SubmitSucceeded | src/components/UsersContainer.tsx:102-117 | logs "Edited user …" or "Added user …" and closes the dialog; an edit also clears the edited record |
| UsersView.UsersScreen.HandleDeleteClick | src/components/UsersContainer.tsx:135-138 | the confirmation opens on the record |
| UsersView.UsersScreen.HandleDeleteConfirm | src/components/UsersContainer.tsx:140-143 | a delete of the pending record's id, or nothing when no record is pending |
| UsersView.UsersScreen.DeleteSettled | src/components/UsersContainer.tsx:144-153 | logs "Deleted user …" only on success; either way the confirmation closes and forgets the record |
| AppStore.PushLog | src/stores/useAppStore.ts:28-34 | the new entry first, then the old entries in order, up to 50 in all |
| AppStore.PushAllKeepsNewest | src/stores/useAppStore.ts:28-34 | after any number of entries, the log holds the 50 most recent ones, newest first |
| AppStore.LogMessage | src/components/UsersContainer.tsx:103-145 | the log message is the verb of its kind ("Added", "Edited", "Deleted"), then " user ", then the user's name: prefix, middle and suffix are each stated, and the length leaves nothing else |
| AppStore.Store.Partialize | src/stores/useAppStore.ts:38-42 | the persisted slice holds the dark-mode flag, the log and the current user as they are |
| AppStore.Store.constructor | src/stores/useAppStore.ts:23-25 | no user, light mode, an empty log |
| AppStore.Store.SetCurrentUser | src/stores/useAppStore.ts:26 | sets the user only |
| AppStore.Store.ToggleDarkMode | src/stores/useAppStore.ts:27 | flips the flag only |
| AppStore.Store.AddLog | src/stores/useAppStore.ts:28-34 | pushes an entry stamped with the given time onto a log of any length, a restored one included; afterwards the log is within its cap |
| AppStore.Store.Rehydrate | src/stores/useAppStore.ts:38-42 | the persisted slice is exactly the three data fields: restoring one and reading it back gives it unchanged |
| AppStore.ToggleTwice | src/stores/useAppStore.ts:27 | toggling twice leaves the persisted state unchanged |

## Left out

- HTTP: the requests (`fetchUsers`, `fetchUserById`, the POST, PUT and DELETE calls) are not modelled. A request's result is a parameter: an `Outcome`, and for add and update a `Reply` record.
- A `Reply` field that is missing or `undefined` is the empty string, and a missing address is `None`. Either way `||` treats it as falsy, as the source does. If the reply lacks `name` or `email`, the merged record has the empty string where the source would have `undefined`.
- react-query machinery is not modelled: `cancelQueries`, stale times, the server-side prefetch and the loading and error screens. A mutation's callbacks run in the order onMutate, then onSuccess or onError. By default no other mutation runs in between. `UsersHooks.InterleavedAddsLoseTheSecond` shows one case where another does (see Findings). `UsersCache` keeps the source's whole-snapshot rollback.
- `UsersHooks.UsersCache.AddUser`: a throw inside `onMutate` is not modelled; `onError` then runs with no context, so no rollback happens.
- `Date.now()` is the parameter `now`, both for the temporary id and for log timestamps.
- `localeCompare` (email sort) is the plain lexicographic order on characters. `Array.prototype.sort()` (company options) compares UTF-16 code units, and the model compares code points. The two differ only for characters outside the Basic Multilingual Plane.
- `UserUtils.Initials`: strings are sequences of code points, while `getInitials`' `n[0]` and `slice(0, 2)` count UTF-16 code units. For a word starting with a character outside the Basic Multilingual Plane the source takes a lone surrogate, and the model takes the whole character.
- `toLowerCase` and `toUpperCase` map only ASCII letters. Unicode case mapping is not modelled.
- The 300 ms debounce of the search term is not modelled. `UsersScreen.SetSearchTerm` receives the term once the debounce has settled.
- Each handler method also applies the page effects, as React does in the commit that follows it. The clamp effect runs in every commit. That is equivalent to the source's dependency list because in range the clamp changes nothing.
- Persistence to `localStorage` under the key `usersphere-ui` is not modelled. Only `partialize` and the restored slice are.
- `alert` is not modelled. `validateUser`'s alert is the `Problem` of a rejected `Verdict`. The "Failed to … Please try again." alerts in the error callbacks are not modelled.
- The loading flag `isMutating`, the JSX rendering, row navigation with `router`, the dialogs' form state and the second `getInitials` in `Layout.tsx` are left out.
- `src/types` is not part of this model. The user record's shape is taken from the optimistic record literal in `src/hooks/useUsers.ts:55-77`.
- JavaScript numbers are unbounded integers here. Ids and timestamps never come near 2^53, and pages and counts are whole numbers.

## Findings

The model's classes follow the code as written. The corrected members state the evidently intended behaviour and prove it.

| source | as written | input that shows it | evidently intended | confidence | as-written member | corrected member |
|---|---|---|---|---|---|---|
| src/components/UsersContainer.tsx:83-91 | A change of search term or company queues `setCurrentPage(1)`. In the same commit the clamp effect sees the stale page beyond the new page count and queues `setCurrentPage(totalPages)`. The later update wins. | On page 5 of 50 rows, type a search that leaves 25 rows: the page becomes 3, not 1. A sort change keeps the page count, so it cannot trip the clamp. | A search or company change resets to page 1. | not executed | UsersView.CommitAsWritten, UsersView.ClampOverridesReset | UsersView.Commit, UsersView.CommitAgreesOtherwise |
| src/hooks/useUsers.ts:116-121 | A failed add restores the whole snapshot taken in its `onMutate`. That snapshot predates any add started after it. | Start add A, then add B before A settles; A's request fails, B's succeeds. A's rollback removes B's optimistic record, and B's `onSuccess` then finds no row with its temporary id, so B never appears although the server created it. | A failed add removes only its own optimistic record. | not executed | UsersHooks.InterleavedAddsLoseTheSecond | UsersHooks.RollbackOwnAdd, UsersHooks.InterleavedAddsKeepTheSecond |
