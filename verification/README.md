# The URL list app's core, modelled in Dafny

The application lets a user create a named, shareable *list* and fill it with
URL bookmarks. This project models three pieces of its logic and proves
properties about them.

- **URL and slug utilities** (`url_utils.dfy`, module `UrlUtils`):
  - `normalizeUrl` and `isValidUrl`, which add `https://` when the input does not start with `http`. `normalizeUrl` returns the empty string unchanged; `isValidUrl` prefixes it too and parses `"https://"`.
  - The stub `extractUrlMetadata`.
  - `generateSlug`, a pipeline of five steps: lower-case, trim, whitespace runs to `-`, delete characters outside `[\w-]`, collapse hyphen runs. Each step is a function of its own.
  - The WHATWG URL parser behind `new URL(...)` is not re-implemented. It is a function parameter `parse` that returns `ParseFailure` (the constructor throws) or the parsed `protocol` and `hostname`.
- **List handlers** (`lists_api.dfy`, module `ListsApi`):
  - `POST /lists` and `GET /lists` over an in-memory list table. A `Table` is the rows in insertion order plus the next identifier to assign.
  - POST is a method on the class `ListTable`. It is tied to the pure function `PostSpec`.
  - GET is the pure query `GetLists`.
  - The clock that stamps `createdAt` and a single flag `storageOk` per request, standing for the success of its storage calls, are parameters. A request body that is not JSON is `None`.
- **Client store** (`list_store.dfy`, module `ListStore`):
  - The six containers become the fields of the class `Store`.
  - `resetForm` and `resetStores` are methods that assign to those fields.
  - Each method is tied to a function on a `StoreState` snapshot.

`records.dfy` holds the List and Url record types. `wrappers.dfy` holds `Option`, which stands for JavaScript's `null`/`undefined`.

Three consequences of how the code is written:

- `isValidUrl("ftp://x.com")` is true whenever the parser reads `"https://ftp://x.com"` as an `https:` URL. The code prefixes `https://` to every input that does not start with `http`, so the input's own scheme is never checked. The WHATWG parser reads that string as an `https:` URL with host `ftp` and an empty port. `ForeignSchemeAccepted` proves acceptance from that single parser answer.
- `extractUrlMetadata` computes `new URL(normalizeUrl(url)).hostname`, which throws when the normalised string does not parse (the empty string, for one). The model returns `None` in that case.
- `normalizeUrl` is idempotent on every input, the empty string included, and the model proves that.

## Model

| member | source | states |
|---|---|---|
| `UrlUtils.WithScheme` | src/utils/urlUtils.ts:9 | The prefixed string always starts with `http` and ends with the input. It equals the input exactly when the input already starts with `http`; otherwise it is exactly `"https://" + input`. |
| `UrlUtils.NormalizeUrl` | src/utils/urlUtils.ts:22-25 | Empty input gives `""`. For non-empty input the result starts with `http`, is at least as long as the input and ends with it. The result equals the input iff the input is empty or starts with `http`; otherwise it is `"https://" + input`. |
| `UrlUtils.NormalizeUrlIdempotent` | src/utils/urlUtils.ts:22-25 | Normalising twice gives the same string as normalising once, for every input. |
| `UrlUtils.NormalizeKeepsHttpLookalike` | src/utils/urlUtils.ts:24 | The test is a plain prefix test: `"httpfoo"` is returned unchanged, and `"example.com"` becomes `"https://example.com"`. |
| `UrlUtils.IsValidUrl` | src/utils/urlUtils.ts:6-15 | True only when the parse of the prefixed string succeeds. True iff the parsed protocol is `http:` or `https:`. A parse failure gives false. |
| `UrlUtils.IsValidUrlEmpty` | src/utils/urlUtils.ts:6-15 | The empty string is prefixed as well: `isValidUrl("")` is the verdict on the parse of `"https://"`. |
| `UrlUtils.IsValidUrlTestsNormalized` | src/utils/urlUtils.ts:6-15 | For non-empty input, `isValidUrl` judges exactly the string `normalizeUrl` returns. |
| `UrlUtils.ForeignSchemeAccepted` | src/utils/urlUtils.ts:9-11 | `"ftp://x.com"` is accepted whenever the parser reads `"https://ftp://x.com"` as an `https:` URL, so a foreign scheme is never what gets checked. |
| `UrlUtils.ExtractUrlMetadata` | src/utils/urlUtils.ts:34-42 | A result exists iff the normalised URL parses. The result's title is that URL's hostname, its description is null and its image is the fixed placeholder. |
| `UrlUtils.LowerChar` | src/utils/urlUtils.ts:52 | The result is never an ASCII capital. A non-capital is unchanged. A capital becomes the lower-case letter at the same place in the alphabet. Lower-casing keeps word characters as word characters. |
| `UrlUtils.Lower` | src/utils/urlUtils.ts:52 | Lower-casing keeps the length, lower-cases each character and leaves no capital. |
| `UrlUtils.LowerIdentity` | src/utils/urlUtils.ts:52 | A string without capitals is unchanged by lower-casing. |
| `UrlUtils.TrimStart` | src/utils/urlUtils.ts:53 | The result is a suffix of the input. Everything cut off is whitespace. The result does not start with whitespace. |
| `UrlUtils.TrimStartRun` | src/utils/urlUtils.ts:53 | A run of whitespace in front of a string that does not start with whitespace is cut off exactly. |
| `UrlUtils.TrimStartConcat` | src/utils/urlUtils.ts:53 | Cutting leading whitespace from `a + b`, where `a` ends with non-whitespace, cuts only inside `a`. |
| `UrlUtils.TrimEnd` | src/utils/urlUtils.ts:53 | The result is a prefix of the input. Everything cut off is whitespace. The result does not end with whitespace. |
| `UrlUtils.Trim` | src/utils/urlUtils.ts:53 | The result neither starts nor ends with whitespace. It adds no capital. |
| `UrlUtils.TrimSlice` | src/utils/urlUtils.ts:53 | The trimmed string is a slice `s[a..a + n]` of the input, and every character before and after that slice is whitespace. |
| `UrlUtils.TrimIdentity` | src/utils/urlUtils.ts:53 | A string that neither starts nor ends with whitespace is unchanged by trimming. |
| `UrlUtils.HyphenateSpaces` | src/utils/urlUtils.ts:54 | No whitespace is left after whitespace runs become hyphens. The characters other than whitespace and hyphens are kept, in order. The result is empty iff the input is. |
| `UrlUtils.HyphenateSpacesConcat` | src/utils/urlUtils.ts:54 | Hyphenating `a + x`, where `a` is empty or ends with non-whitespace, is hyphenating `a` and `x` separately and concatenating. |
| `UrlUtils.HyphenateSpacesSplit` | src/utils/urlUtils.ts:54 | A maximal, non-empty run of whitespace between `a` and `b` becomes exactly one hyphen: the result is `HyphenateSpaces(a) + "-" + HyphenateSpaces(b)`. |
| `UrlUtils.HyphenateSpacesIdentity` | src/utils/urlUtils.ts:54 | A string without whitespace is unchanged by the step. |
| `UrlUtils.HyphenateSpacesNoUpper` | src/utils/urlUtils.ts:54 | The step introduces no capital letter. |
| `UrlUtils.HyphenateSingleSpaces` | src/utils/urlUtils.ts:54 | Where whitespace never comes in runs, each whitespace character becomes exactly one hyphen in place. |
| `UrlUtils.RemoveNonWord` | src/utils/urlUtils.ts:55 | Only `[A-Za-z0-9_-]` characters remain. The result is no longer than the input. No capital is introduced. That every `[A-Za-z0-9_-]` character is kept, in order, is stated by `RemoveNonWordConcat`, `RemoveNonWordIdentity` and `RemovedSymbols`. |
| `UrlUtils.RemoveNonWordIdentity` | src/utils/urlUtils.ts:55 | A string already made of `[A-Za-z0-9_-]` characters is unchanged by removal. |
| `UrlUtils.RemoveNonWordConcat` | src/utils/urlUtils.ts:55 | Removal works character by character: removing from `a + b` gives the removal from `a` followed by the removal from `b`. |
| `UrlUtils.RemovedSymbols` | src/utils/urlUtils.ts:55 | A string with no word character and no hyphen is removed entirely. |
| `UrlUtils.DropHyphens` | src/utils/urlUtils.ts:56 | Leading hyphens are removed: the result is a suffix of the input that does not start with `-`, and every character cut off is `-`. |
| `UrlUtils.DropHyphensRun` | src/utils/urlUtils.ts:56 | A run of hyphens in front of a string that does not start with `-` is cut off exactly. |
| `UrlUtils.DropHyphensConcat` | src/utils/urlUtils.ts:56 | Cutting leading hyphens from `a + b`, where `a` ends with a character other than `-`, cuts only inside `a`. |
| `UrlUtils.CollapseHyphens` | src/utils/urlUtils.ts:56 | The result has no two adjacent hyphens and keeps the first character. The characters other than `-` are kept, in order. It keeps the slug character class. |
| `UrlUtils.CollapseHyphensConcat` | src/utils/urlUtils.ts:56 | Collapsing `a + x`, where `a` is empty or ends with a character other than `-`, is collapsing `a` and `x` separately and concatenating. |
| `UrlUtils.CollapseHyphensSplit` | src/utils/urlUtils.ts:56 | A maximal, non-empty run of hyphens between `a` and `b` becomes exactly one hyphen: the result is `CollapseHyphens(a) + "-" + CollapseHyphens(b)`. |
| `UrlUtils.CollapseHyphensIdentity` | src/utils/urlUtils.ts:56 | A string without `--` is unchanged by collapsing. |
| `UrlUtils.GenerateSlug` | src/utils/urlUtils.ts:49-57 | Every character of a slug is in `[a-z0-9_-]`, so it has no whitespace and no capital. No slug contains `--`. |
| `UrlUtils.SlugIsFixpoint` | src/utils/urlUtils.ts:49-57 | A string of slug characters without `--` is its own slug. |
| `UrlUtils.GenerateSlugIdempotent` | src/utils/urlUtils.ts:49-57 | Re-slugging a slug gives the same slug. |
| `UrlUtils.GenerateSlugTitleExample` | src/utils/urlUtils.ts:49-57 | `"My Awesome List!"` gives `"my-awesome-list"`. |
| `UrlUtils.GenerateSlugSpacesExample` | src/utils/urlUtils.ts:53-54 | `"  a   b  "` gives `"a-b"`. |
| `UrlUtils.GenerateSlugEmptyExample` | src/utils/urlUtils.ts:55 | `"!!!"` gives the empty slug. |
| `UrlUtils.GenerateSlugTrailingHyphenExample` | src/utils/urlUtils.ts:53-55 | `"a !"` gives `"a-"`: trimming runs before hyphenation, so a slug can end with a hyphen. |
| `ListsApi.FinalSlug` | src/pages/api/lists/index.ts:8-17 | A non-empty caller slug is used verbatim. An absent or empty slug gives `generateSlug(title)`, which is made of slug characters and has no `--`. |
| `ListsApi.PostSpec` | src/pages/api/lists/index.ts:5-51 | The status is 201, 400 or 500. Every failure leaves the table unchanged and returns an error body. A non-JSON body or a storage failure gives 500 `Failed to create list`. A missing or empty title gives 400 `Title is required`. A taken final slug gives 400 `Slug already exists`. 201 happens iff the title is present, storage works and the final slug is free. Then exactly one record is appended (next id, given title and description, final slug, the clock's time) and it is the response body. |
| `ListsApi.PostKeepsInvariant` | src/pages/api/lists/index.ts:20-38 | A POST keeps slugs pairwise distinct and ids increasing. |
| `ListsApi.PostOnlyAppends` | src/pages/api/lists/index.ts:32-38 | A POST never modifies or removes existing rows. The old rows are a prefix of the new ones, and at most one row is added. |
| `ListsApi.RunPostsKeepsInvariant` | src/pages/api/lists/index.ts:20-38 | Any sequence of POSTs handled one at a time keeps slugs unique. |
| `ListsApi.RepeatedPostConflicts` | src/pages/api/lists/index.ts:17-29 | Collisions are rejected, not renamed. After a successful POST, the same body posted again returns 400 `Slug already exists` and adds nothing. |
| `ListsApi.SymbolTitleGetsEmptySlug` | src/pages/api/lists/index.ts:10-38 | The title `"!!!"` passes the title check. It gets the empty slug, and the list is created with it when no list has that slug. |
| `ListsApi.InsertNewestFirst` | src/pages/api/lists/index.ts:56-60 | Inserting into a newest-first sequence keeps it newest first and adds exactly the new record. |
| `ListsApi.SortNewestFirst` | src/pages/api/lists/index.ts:56-60 | The result is a permutation of the rows, ordered by `createdAt` non-increasing. |
| `ListsApi.GetLists` | src/pages/api/lists/index.ts:54-73 | On success: status 200 and a permutation of all stored lists, newest first. On a storage failure: 500 `Failed to fetch lists`. It is a function of the table, so the table is unchanged. |
| `ListsApi.PostThenGet` | src/pages/api/lists/index.ts:32-65 | A list created by a POST is in the next GET's answer, together with exactly the lists stored before it. |
| `ListsApi.ListTable.Post` | src/pages/api/lists/index.ts:5-51 | The check-then-append handler keeps the table invariant. Its response and new table are the ones `PostSpec` gives for the old table. |
| `ListStore.AfterResetForm` | src/stores/listStore.ts:35-43 | All four draft fields become `''` and the error message null. `currentList`, `listUrls`, `customSlug` and `isLoading` are unchanged. |
| `ListStore.AfterResetStores` | src/stores/listStore.ts:45-52 | From any state, resetting the stores gives exactly the initial state. |
| `ListStore.ResetFormIdempotent` | src/stores/listStore.ts:35-43 | Resetting the form twice is resetting it once. |
| `ListStore.ResetStoresIdempotent` | src/stores/listStore.ts:45-52 | Resetting the stores twice is resetting them once. |
| `ListStore.InitialFormIsReset` | src/stores/listStore.ts:18-43 | The initial draft is the reset draft, so resetting the form on the initial state changes nothing. |
| `ListStore.Store.constructor` | src/stores/listStore.ts:5-32 | The initial state: no current list, no URLs, an all-`''` draft, an empty custom slug, not loading, no error message. |
| `ListStore.Store.ResetForm` | src/stores/listStore.ts:35-43 | Assigns the empty draft and clears the error message. The other four containers keep their values. |
| `ListStore.Store.ResetStores` | src/stores/listStore.ts:45-52 | Afterwards every container holds its initial value. |

## Left out

- The URL parser and `.hostname`: the WHATWG basic URL parser is the parameter `parse`, so no property depends on how it treats a given string.
- Unicode in `generateSlug`: lower-casing, `trim` and `\s` are modelled on ASCII only. Non-ASCII characters count as non-whitespace and are not lower-cased. JavaScript's `toLowerCase` can turn some of them into ASCII letters (the Kelvin sign gives `k`), and `\s` matches Unicode spaces such as U+00A0. The character-class property is claimed for ASCII input.
- JSON values of the wrong type: a title, description or slug that is a number, boolean or object is not modelled. The body fields are optional strings. A present `null` slug and an absent one are both `None`, and both lead to a generated slug, as in the code.
- The persistence engine: Prisma's `findUnique`, `create` and `findMany` are replaced by the in-memory `Table`. The schema file is not part of this model. Ids come from an auto-increment counter starting at 1. Any storage failure is the single flag `storageOk`, and any failure leaves the table unchanged.
- `GetLists`: the database's order among lists with equal `createdAt` is unspecified. The model fixes one order (insertion sort: among lists of equal `createdAt`, the one stored earlier comes first), and the contract only promises the non-increasing order.
- Trim: its own contract states only that neither end of the result is whitespace. That the result is the slice between the leading and the trailing whitespace is the lemma `TrimSlice`, kept out of the function's contract because evaluating `Trim` on literals becomes too costly with it.
- RemoveNonWord: its own contract states only that what remains is made of `[A-Za-z0-9_-]` characters. That every such character is kept, in order, and every other one deleted is the lemmas `RemoveNonWordConcat` (removal works part by part), `RemoveNonWordIdentity` (kept characters stay) and `RemovedSymbols` (other characters go), which together determine the result for every input.
- HyphenateSpaces: its own contract states no whitespace left and the other characters kept in order. That each maximal whitespace run becomes exactly one hyphen is the lemmas `HyphenateSpacesSplit` and `HyphenateSpacesConcat`, because a run is a statement about a split of the input.
- CollapseHyphens: its own contract states no `--` left and the characters other than `-` kept in order. That each maximal hyphen run becomes exactly one hyphen is the lemmas `CollapseHyphensSplit` and `CollapseHyphensConcat`, for the same reason.
- Concurrency: the race between the slug check and the create in two concurrent requests is not modelled. Requests are handled one at a time.
- `async`/`await`, `console.error` logging, response headers and JSON serialisation are left out. A response is a status and a body.
- Store subscriptions: re-rendering of subscribed views, and the writes the view components make to the containers, are left out. Only the initial values and the two reset actions are modelled.
- The other endpoints (`/lists/{id}`, `/lists/{id}/urls`, `/lists/{id}/urls/{urlId}`), the view components and the build configuration are not part of this model.
