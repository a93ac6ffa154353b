# AI journal: a Dafny model of entry categorisation and the journal tree

The journal app lets a signed-in user write entries. A hosted language model files
each entry under a category name. The home page draws the user's entries as a tree:
the user at the root, one node per category, and one leaf per entry. This project
models the logic behind that and proves what it promises.

- **Text** (`text.dfy`): the JavaScript string operations the code relies on.
  - `String.prototype.trim`, over JavaScript's full whitespace set.
  - `join("\n")` and its inverse `split`.
  - The first-occurrence search behind `split("@")[0]`.
- **Ai** (`ai.dfy`): `categorizeEntry` (`lib/ai.ts`).
  - It builds the instruction, with the existing names as a bullet list or the placeholder text.
  - It builds the `Title: …\n\nContent: …` prompt.
  - It returns the trimmed reply, or the fallback `"Uncategorized"` when the call fails.
  - The model itself is a function parameter.
- **CategorizeRoute** (`route.ts`): `POST /api/categorize`.
  - The checks run in order: decoding (500), JavaScript truthiness of both fields (400), the signed-in user (401), then 200 with the suggestion.
  - A non-string field is passed to the prompt the way a template literal prints it: integers in plain decimal (see Left out), objects and arrays as their given string conversion. A field whose conversion throws makes `categorizeEntry` fall back to "Uncategorized" without asking the model.
- **Types** and **Database** (`types.dfy`, `database.dfy`): the category and entry rows.
  - The constraints the database enforces: primary keys and the category foreign key.
  - The constraints the application expects: one category per owner and name, and an entry's category owned by the entry's owner.
  - The statements the forms issue: the category lookup with `.single()` semantics, the two inserts and the scoped update.
  - `Store` is a class whose two table fields these statements change. Its invariant `Valid()` is the database's own constraints, which each statement keeps. The ownership rule is the separate `Owned()`, which the two form handlers keep.
- **EntryForm** (`entry_form.dfy`): the create form's `handleSubmit`.
  - `Submit` is the whole submission, as a function of the tables before it and of the answers the handler receives.
  - `HandleSubmit` is the same handler, step by step over a `Store`. It is proved equal to `Submit` and keeps both `Valid()` and `Owned()`.
- **EditEntryForm** (`edit_entry_form.dfy`): the edit form's `handleSubmit`.
  - The update is scoped to the entry id and the caller.
  - After a successful update, the `onUpdate` and then the `onClose` callbacks run.
  - `Edit` is the specification and `HandleEdit` the imperative handler.
- **JournalTree** and **JournalTreeProps** (`tree.dfy`, `tree_props.dfy`): the node and link building of the tree component.
  - `BuildGraph` fills the grouping dictionary and pushes nodes and links the way the component does, including the entry preview exactly as line 52 writes it (`PreviewAsWritten`).
  - It is proved equal to the declarative `Nodes` and `Links`.
  - The lemmas cover positions, counts, the uncategorised bucket, closure of the link set, dangling category ids and unique incoming links.
- **HomePage** (`page.dfy`): what the home page derives from the rows.
  - The display name.
  - The null-safe counts.
  - Whether the tree or the empty-state card is shown.
  - The tree drawn from a valid store has no dangling link.

Inputs from outside are parameters of the model:
- the signed-in user;
- the endpoint's response;
- the ids and timestamps the database assigns;
- whether a statement fails;
- the model's reply.

## Model

| member | source | states |
|---|---|---|
| Text.Trim | lib/ai.ts:29 | The result has no whitespace at either end and is no longer than the input. It is empty exactly when the input is whitespace only. |
| Text.TrimIsSlice | lib/ai.ts:29 | `trim` removes only whitespace, and only at the two ends. The result is a slice of the input, with whitespace on both sides of it. |
| Text.TrimmedIsFixed | lib/ai.ts:29 | A string that is already trimmed is returned unchanged. |
| Text.TrimIdempotent | lib/ai.ts:29 | Trimming twice gives the same result as trimming once. |
| Text.Join | lib/ai.ts:13 | `join("\n")`: no parts give the empty text; otherwise the text starts with the first part and ends with the last. |
| Text.JoinSeparators | lib/ai.ts:13 | When no part contains the separator, the joined text holds exactly one separator fewer than there are parts. |
| Text.Split | lib/ai.ts:13 | The source has no `split` here: this is the helper that states `CategoryList`'s contract. It yields at least one piece, and no piece contains the separator. |
| Text.JoinSplit | lib/ai.ts:13 | Joining the pieces of any text with the same separator gives the text back, so `Split` loses nothing. |
| Text.SplitJoin | lib/ai.ts:13 | Splitting lines joined with `"\n"` gives the lines back, provided no line contains the separator. |
| Ai.CategoryList | lib/ai.ts:13 | No names gives "No existing categories". Otherwise the text starts with `- ` and the first name and ends with the last name, with no newline after it. When no name holds a newline, splitting the text at newlines gives exactly the `- name` lines, in order. |
| Ai.SystemPrompt | lib/ai.ts:10-25 | The instruction is the fixed opening text, then exactly the list section, then the fixed closing text. |
| Ai.UserPrompt | lib/ai.ts:26 | For any title and content, the prompt is `Title: `, then the title, then a blank line and `Content: `, then the content, each at its fixed position. Whenever the title has no newline, the prompt can also be read back into the title and the content. |
| Ai.CategorizeEntry | lib/ai.ts:6-34 | A failed model call gives exactly "Uncategorized". A reply gives its trimmed text, so a whitespace-only reply gives "". The result is always already trimmed. |
| CategorizeRoute.Post | app/api/categorize/route.ts:5-35 | The status is 200, 400, 401 or 500. 500 comes exactly when the body cannot be decoded or destructured. 400 comes exactly when a field is falsy. 401 comes exactly when both fields are truthy and nobody is signed in. Each of these has its own error body. A 200 carries `categorizeEntry` applied to the fields as given, with the user's names, or `[]` when the query returned no data. A field whose string conversion throws gives exactly "Uncategorized". |
| CategorizeRoute.FalsyValues | app/api/categorize/route.ts:9 | `Truthy` is false exactly for `undefined`, `null`, `false`, `0` and `""`, JavaScript's falsy values among those modelled. |
| CategorizeRoute.DigitsOf | app/api/categorize/route.ts:28 | The numeral of a natural number is digits only, has no leading zero and reads back as the number. |
| CategorizeRoute.TemplateText | app/api/categorize/route.ts:28 | What reaches the prompt for each kind of value: a string as is, `true`/`false`, `null`, `undefined`, an integer as its decimal numeral (with `-` when negative) that reads back as the integer, and an object or array as its given string form. Nothing is printed exactly for an object or array whose conversion throws. |
| CategorizeRoute.Suggest | lib/ai.ts:7-32 | With both fields printable, the suggestion is `categorizeEntry` of their texts. When either field's conversion throws, the `catch` returns exactly "Uncategorized". |
| CategorizeRoute.UnprintableFallsBack | lib/ai.ts:26-32 | A signed-in request whose title or content is an object without a usable `toString` gets 200 with "Uncategorized", whatever the model would answer. |
| CategorizeRoute.MissingFieldBeatsAuth | app/api/categorize/route.ts:9-20 | A missing field gives 400 whoever is signed in: validation runs before authentication. |
| CategorizeRoute.WhitespacePasses | app/api/categorize/route.ts:9-11 | The endpoint does not trim, so whitespace-only fields pass validation and reach the model. |
| Database.Matching | components/journal/entry-form.tsx:64-68 | The rows the lookup's filters select: exactly the rows with that name and owner. |
| Database.LookupCategory | components/journal/entry-form.tsx:64-71 | `.single()`: data comes back exactly when one row matches, and it is that row's id. Zero or several matching rows give an error, whose data is null. |
| Database.MatchingAtMostOne | components/journal/entry-form.tsx:64-69 | With one category per owner and name, at most one row matches. |
| Database.LookupUnique | components/journal/entry-form.tsx:64-71 | With one category per owner and name, the lookup returns no data exactly when no row matches. |
| Database.LookupSeveral | components/journal/entry-form.tsx:64-71 | Two categories of the same name and owner make the lookup return no data, so the form takes the insert path. |
| Database.InsertCategoryRow | components/journal/entry-form.tsx:75-88 | The insert fails exactly on a database error or a duplicate id, and then the table is unchanged. Otherwise exactly one `{name, user_id}` row is appended and its id is returned. |
| Database.InsertEntryRow | components/journal/entry-form.tsx:94-105 | The insert fails exactly on a database error, a duplicate id, or a category id that names no category. Otherwise exactly the one row is appended. |
| Database.UpdateRows | components/journal/edit-entry-form.tsx:46-53 | Rows matching both the id and the owner get the new title and content. Every other field of every row, and every other row, is unchanged. |
| Database.TablesValidIsDatabaseValid | components/journal/entry-form.tsx:94-105 | Tables whose entries' categories belong to the entries' owners also satisfy the database's foreign key. |
| Database.InsertCategoryKeepsKeys | components/journal/entry-form.tsx:75-88 | Whatever the reply, a category insert keeps both primary keys and the foreign key. |
| Database.InsertEntryKeepsKeys | components/journal/entry-form.tsx:94-105 | Whatever the reply, an entry insert keeps both primary keys and the foreign key. |
| Database.UpdateKeepsKeys | components/journal/edit-entry-form.tsx:46-53 | The scoped update keeps both primary keys and the foreign key. |
| Database.UpdateKeepsValid | components/journal/edit-entry-form.tsx:46-53 | The scoped update keeps every table constraint. |
| Database.Store.InsertCategory | components/journal/entry-form.tsx:75-88 | The returned id and the new category table are those `InsertCategoryRow` gives. The entries are untouched. The database's constraints are kept. |
| Database.Store.InsertEntry | components/journal/entry-form.tsx:94-105 | The insert succeeds exactly when `InsertEntryRow` does, and the entries then become its result. The categories are untouched. The database's constraints are kept. |
| Database.Store.UpdateEntry | components/journal/edit-entry-form.tsx:46-59 | If the statement fails, nothing changes. Otherwise the entries table becomes `UpdateRows` of the old one, and the categories are untouched. The database's constraints are kept. |
| EntryForm.FormRequestAccepted | components/journal/entry-form.tsx:25-56 | Fields that pass the form's trimmed check also pass the endpoint's untrimmed check, so a signed-in caller gets a 200. |
| EntryForm.Found | components/journal/entry-form.tsx:64-71 | The lookup's data as the form sees it: none when the query reports an error, which the form ignores, else `LookupCategory`. |
| EntryForm.ResolveCategory | components/journal/entry-form.tsx:62-91 | Data from the lookup is reused and the table is unchanged. No data, including a failed lookup, leads to the category insert, whose result is used. A resolved id always names a category with the suggested name and the caller as owner. The table is only ever appended to. |
| EntryForm.ResolveKeepsValid | components/journal/entry-form.tsx:62-91 | Resolving a category keeps keys and ownership valid and only ever appends to the category table. |
| EntryForm.ResolveKeepsNames | components/journal/entry-form.tsx:62-91 | While the lookup does not fail, a store with one category per owner and name keeps that property. |
| EntryForm.LookupErrorDuplicates | components/journal/entry-form.tsx:64-88 | When the lookup fails although the owner already has the category, the form inserts a second category with the same name and owner. |
| EntryForm.RecordEntry | components/journal/entry-form.tsx:93-116 | No category id aborts with the category error. Otherwise the entry is created exactly when the insert is assigned a fresh id, and then exactly that entry is appended. The entry insert fails exactly in the remaining cases, and then nothing changes. Validity is preserved. |
| EntryForm.AppendEntryKeepsValid | components/journal/entry-form.tsx:94-99 | Appending an entry with a fresh id, whose category belongs to the entry's owner, keeps the tables valid. |
| EntryForm.Submit | components/journal/entry-form.tsx:23-116 | Each early return leaves both tables unchanged: empty trimmed fields, no user, a response that is not OK, and a thrown request. A category is added only when the lookup gives no data, and then exactly one. Creation happens exactly when the fields are present, a user is signed in, the response is OK, a category is resolved and the entry insert gets a fresh id. The category failure and the entry failure each happen exactly in their own remaining case. A failed entry insert keeps a category just added. Success adds exactly one entry, with the trimmed fields, the caller as owner and a non-null category of the suggested name. Keys and ownership stay valid in every case. One category per owner and name is kept whenever the lookup does not fail. |
| EntryForm.HandleSubmit | components/journal/entry-form.tsx:23-116 | The step-by-step handler over the store gives exactly the outcome and tables of `Submit`. It keeps the database's constraints and the ownership rule. |
| EditEntryForm.Edit | components/journal/edit-entry-form.tsx:26-70 | Empty trimmed fields or no user: nothing changes and no callback runs. Success happens exactly when the fields are present, a user is signed in and the update does not fail. "Failed to update entry" happens exactly when the fields are present, a user is signed in and the update fails. On success the entries become the scoped update with the trimmed fields, and the callbacks are `onUpdate` then `onClose`. |
| EditEntryForm.ForeignRowsUntouched | components/journal/edit-entry-form.tsx:46-53 | Whatever the answers, a row owned by someone other than the caller is never changed. |
| EditEntryForm.NoMatchStillSucceeds | components/journal/edit-entry-form.tsx:46-63 | An update that matches no row still reports success and runs both callbacks, and changes nothing. |
| EditEntryForm.EditKeepsValid | components/journal/edit-entry-form.tsx:46-53 | Whatever the answers, an edit keeps every table constraint. |
| EditEntryForm.HandleEdit | components/journal/edit-entry-form.tsx:26-70 | The imperative handler gives exactly the outcome, entries and callbacks of `Edit`. It keeps the database's constraints and the ownership rule, and leaves the categories alone. |
| JournalTree.WithKey | components/journal/tree-visualization.tsx:27-32 | An entry is in the group for `k` exactly when its key (`category_id ?? "uncategorized"`) is `k`. The group is never longer than the entry list. |
| JournalTree.GroupAt | components/journal/tree-visualization.tsx:27-32 | The dictionary holds a key exactly when some entry has it, and maps that key to its group. |
| JournalTree.GroupStep | components/journal/tree-visualization.tsx:28-32 | Pushing one entry under its key, creating the list when absent, turns a correct grouping of a prefix into a correct grouping of the longer prefix. |
| JournalTree.GroupEntries | components/journal/tree-visualization.tsx:27-32 | The loop builds exactly the grouping dictionary `Group(entries)`. |
| JournalTree.PushCategories | components/journal/tree-visualization.tsx:34-37 | One node per category, in input order, counting its group (0 when absent), and one root link per category. |
| JournalTree.BucketNodeId | components/journal/tree-visualization.tsx:40-54 | The bucket id the component writes out is the id its entries' links name. |
| JournalTree.PushBucket | components/journal/tree-visualization.tsx:39-48 | The bucket node and its link are pushed exactly when the dictionary holds the bucket key. |
| JournalTree.PushEntries | components/journal/tree-visualization.tsx:50-57 | One leaf and one link per entry, in input order, each leaf carrying `PreviewAsWritten` of its content as line 52 builds it. |
| JournalTree.BuildGraph | components/journal/tree-visualization.tsx:19-57 | The imperative build produces exactly `Nodes` and `Links`, leaf previews as written included. |
| JournalTree.Nodes | components/journal/tree-visualization.tsx:19-57 | The root comes first. There are 1 + categories + bucket + entries nodes. The leaves carry the preview as line 52 writes it. |
| JournalTree.Links | components/journal/tree-visualization.tsx:19-57 | There is exactly one link fewer than there are nodes. |
| JournalTree.PreviewAsWritten | components/journal/tree-visualization.tsx:52 | The preview as the line builds it: up to 40 characters of the content, then the three-character suffix the file holds. |
| JournalTree.Preview | components/journal/tree-visualization.tsx:52 | The intended preview: the first min(40, length) characters of the content, then one ellipsis character. |
| JournalTree.PreviewSuffixDiffers | components/journal/tree-visualization.tsx:52 | Every preview as written differs from the intended one, and is two characters longer. |
| JournalTreeProps.CountPositive | components/journal/tree-visualization.tsx:27-32 | The count of entries with a given `category_id` is positive exactly when some entry has it. |
| JournalTreeProps.WithKeyCount | components/journal/tree-visualization.tsx:27-35 | A category's count is the number of entries with that `category_id`. The bucket key also counts the null ones. |
| JournalTreeProps.CategoryAt | components/journal/tree-visualization.tsx:34-37 | The i-th category's node is at position 1 + i, and its root link at position i. |
| JournalTreeProps.CategoryNodeAt | components/journal/tree-visualization.tsx:34-37 | The node for the i-th category is `cat-<id>`, with its name and the number of its entries. It is linked from the root. |
| JournalTreeProps.BucketIff | components/journal/tree-visualization.tsx:29-40 | The bucket exists exactly when some entry has a null `category_id` or one equal to "uncategorized". Its group holds exactly those entries. |
| JournalTreeProps.BucketAt | components/journal/tree-visualization.tsx:39-48 | When present, the bucket's node comes right after the categories, followed by its root link. |
| JournalTreeProps.UncategorizedBucket | components/journal/tree-visualization.tsx:39-48 | The bucket exists exactly when some entry is null-categorised or has the id "uncategorized". It then counts both kinds and is linked from the root. |
| JournalTreeProps.UncategorizedBucketPlain | components/journal/tree-visualization.tsx:39-48 | When no id is "uncategorized", the bucket exists exactly when some entry is uncategorised, and it counts exactly those entries. |
| JournalTreeProps.EntryAt | components/journal/tree-visualization.tsx:50-57 | Entry j's leaf and link sit after the root, the categories and the bucket. |
| JournalTreeProps.EntryNodeAt | components/journal/tree-visualization.tsx:50-57 | Entry j's leaf is `entry-<id>` with its title and the preview as written. Its link comes from `cat-<category_id>` as written, or from the bucket when the id is null. |
| JournalTreeProps.LeafPreview | components/journal/tree-visualization.tsx:52 | Every drawn leaf shows the first min(40, length) characters of its content followed by the three-character suffix, never the intended ellipsis. |
| JournalTreeProps.EmptyTree | components/journal/tree-visualization.tsx:19-57 | No entries and no categories give the root alone, with no links. |
| JournalTreeProps.LinkClosed | components/journal/tree-visualization.tsx:36-55 | When every non-null category id names a category, each link joins two emitted nodes. |
| JournalTreeProps.AllLinksClosed | components/journal/tree-visualization.tsx:36-55 | When every non-null category id names a category, the whole link set is closed over the nodes. |
| JournalTreeProps.PrefixesDiffer | components/journal/tree-visualization.tsx:24-51 | Root, category and entry node ids never collide. |
| JournalTreeProps.CatIdInjective | components/journal/tree-visualization.tsx:35 | Distinct category ids give distinct node ids. |
| JournalTreeProps.NotACategoryNode | components/journal/tree-visualization.tsx:24-52 | No node carries the id of a category that is neither listed nor the bucket. |
| JournalTreeProps.DanglingSource | components/journal/tree-visualization.tsx:53-55 | An entry whose category id names no category, and is not "uncategorized", gets a link whose source is no node. It is not rerouted to the bucket. |
| JournalTreeProps.OneIncomingLink | components/journal/tree-visualization.tsx:50-57 | With distinct entry ids, each leaf has exactly one incoming link: its own. |
| HomePage.LocalPart | app/page.tsx:39 | `split("@")[0]` contains no "@". It is either the whole address or the text before the first "@". |
| HomePage.DisplayName | app/page.tsx:39 | The display name is never empty. It is the non-empty full name, else the non-empty local part of the email, else "User". |
| HomePage.CountOrZero | app/page.tsx:68-78 | A query with no data shows 0, otherwise its row count. |
| HomePage.Section | app/page.tsx:99-132 | The tree is shown exactly when the entries query returned a non-empty list. The tree gets those entries, the categories or `[]`, and the display name. |
| HomePage.StoreTreeClosed | app/page.tsx:23-110 | The page fetches the viewer's own entries and all of the viewer's categories. For a valid store, every link of the drawn tree then joins two nodes. |

## Left out

- Rendering is not modelled: the canvas drawing, force layout, zoom and click handling of the tree component (`tree-visualization.tsx` after line 57), and the rest of the page markup.
- The language-model call (`generateText`, the model name and the provider) is a function parameter. The log line printing the API key is not modelled.
- Supabase's authentication, its query builder, its row-level security policies and `order("created_at", …)` are not modelled. The rows arrive in whatever order the caller gives.
- EntryForm.Submit: the query for the user's category names at `entry-form.tsx:43-45` is computed and never used, so it is not modelled.
- EntryForm.Submit: the categorize endpoint's answer is an input: thrown, not OK, or OK with a name. The endpoint itself is modelled separately in `CategorizeRoute.Post`. A JSON body without `category` (`undefined`) is not distinguished from a string.
- Other thrown errors, such as `getUser` or a query builder throwing, are not modelled. Only the thrown categorize request maps to the "unexpected error" outcome. Errors a statement reports are modelled: the `Rejected` insert reply, the lookup's error flag and the update's failure flag.
- Toasts, router navigation, `isLoading`, and console output are not modelled. The outcome datatypes record which message is shown.
- Concurrency is not modelled: two submissions interleaving between the lookup and the insert are out of scope.
- The landing, navbar, list, create and auth pages are not modelled. Neither is the `TreeNode` type, nor the joined `category` field of the page's entry query.
- JavaScript strings are UTF-16 code units, while Dafny's `char` is a Unicode scalar value. `slice(0, 40)` is modelled on characters, so it never splits a surrogate pair.
- The grouping dictionary is a map from strings. Keys that collide with `Object.prototype` properties (such as `__proto__`) are not modelled.
- CategorizeRoute.Post: JSON numbers are integers only. Fractional numbers, `-0` and NaN are not modelled, and objects and arrays carry their string conversion as given text. Which objects have a conversion that throws is not derived from their members: such a value is `Unprintable`.
- CategorizeRoute.TemplateText: every integer is printed in full decimal. JavaScript prints a number of magnitude 10^21 or more in exponent form, and `JSON.parse` rounds integers above 2^53 to the nearest double, so for such bodies the model's prompt text differs from the source's.
- Ai.CategoryList: the split characterisation of the list section holds only when no name contains a newline. For other names only the start and the end of the section are pinned down.
- Database.UniqueNames: one category per owner and name is not a schema constraint. The model shows the create form keeps it while the lookup succeeds, and that a failed lookup can break it (`EntryForm.LookupErrorDuplicates`).
- HomePage.DisplayName: `full_name` is taken to be a string or absent. Other JSON types in the user metadata are not modelled.
- Ai.CategorizeEntry: what the model replies is not constrained. Nothing checks that the answer is short or is one of the existing names, and neither does the source.

## Findings

| source | as written | input that shows it | evidently intended | confidence | as-written member | corrected member |
|---|---|---|---|---|---|---|
| components/journal/tree-visualization.tsx:52 | The preview suffix literal holds the three characters U+00E2 U+20AC U+00A6 ("â€¦"). These are the UTF-8 bytes of "…" decoded as Windows-1252. | Any entry, e.g. content "" gives the preview "â€¦" instead of "…". | A single ellipsis character U+2026 after the first 40 characters. | high; not executed | JournalTree.PreviewAsWritten, JournalTree.PreviewSuffixDiffers, JournalTreeProps.LeafPreview | JournalTree.Preview |

The tree itself (`BuildGraph`, `Nodes`) keeps the preview as written, so that it shows what the component draws; `Preview` is the corrected definition with its intended property proved.
