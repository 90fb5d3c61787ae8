# rsvpulse broadcast console — a Dafny model

rsvpulse is a WhatsApp-style broadcast console. An operator keeps contact
lists, imports contacts from CSV files, writes personalised messages with
`{{Name}}` / `{{Email}}` merge tags and `*bold*` / `_italic_` / `~strike~`
markup, and sends a broadcast to a list. The console simulates a delivery
status for every recipient, and a reports page summarises the latest
broadcast.

This project models the logic behind those screens:

- the six in-memory stores: contacts, lists, templates, broadcasts, reports
  and settings;
- the page rules that sit on top of the stores:
  - CSV import, list creation, the selection after a list delete, and upload;
  - the editor's tag insertion, formatting and preview;
  - the broadcast send and its weighted status draw;
  - the report counts and percentages;
  - the report table join, filter and badge;
  - the column-sort state and the contact table sort;
  - the template search, HTML excerpt, submit and colours;
  - the deleted-contacts search and its local list.

Each service call is one atomic state transition on immutable values. A
thrown `Error` becomes `Err`. The random numbers and clock readings the
code consumes are parameters.

Modules, in dependency order:

| file | module | concern |
|---|---|---|
| base.dfy | Base | `Option`, `Result`, the error messages, `Time` |
| text.dfy | Text | `trim`, ASCII `toLowerCase`, `includes`, `split`/`join`, literal global `replace` |
| store.dfy | Store | record stores keyed by id: find-first, max+1, splice, filter, subsequence |
| contacts.dfy | ContactService | contact store, soft-delete lifecycle |
| lists.dfy | ListService | list store |
| templates.dfy | TemplateService | template store |
| broadcasts.dfy | BroadcastService | broadcast store, `getLatest` |
| reports.dfy | ReportService | append-only report store |
| settings.dfy | SettingsService | settings store with an id counter, connection test |
| csv.dfy | Csv | `parseCsvData` |
| markup.dfy | Markup | merge-tag substitution and the three markup passes |
| editor.dfy | Editor | `insertMergeTag`, `formatText` |
| delivery.dfy | Delivery | weighted status draw, `readAt` |
| broadcast_page.dfy | BroadcastPage | `handleSendBroadcast` |
| lists_page.dfy | ListsPage | create / delete / upload rules of the lists page |
| reports_page.dfy | ReportsPage | status counts, rates, `loadLatestReport` |
| sorting.dfy | TableSort | `handleSort` state machine, stable sort by a string key |
| contact_table.dfy | ContactTable | the contact table's sorted copy |
| report_table.dfy | ReportTable | join, status filter, tab counts, badges |
| templates_page.dfy | TemplatesPage | search/category filter, `stripHtml`, submit, colours |
| deleted_contacts.dfy | DeletedContacts | search and local removal |

Where the code and its own messages disagree, the model follows the code:

- Deleting a list removes only the list record. The confirmation text at
  `src/components/pages/Lists.jsx:93` promises that the list's contacts go
  too, but `listService.delete` never touches the contact store.
  `ListsPage.DeleteList` states that the contacts are unchanged.
- `permanentDelete` removes a contact whether or not it was soft-deleted.
  `ContactService.PermanentDelete` succeeds on any stored id.
- A CSV cell is trimmed first, and only then are its quotes removed. So a
  quoted cell keeps the spaces inside its quotes and is not trimmed
  (`Csv.QuotedSpacesSurvive`).

## Model

| member | source | states |
|---|---|---|
| Text.Trim | src/components/pages/Lists.jsx:75 | the trimmed string has no whitespace at either end, and it is empty exactly when the input is all whitespace |
| Text.TrimSlice | src/components/pages/Lists.jsx:81 | what `trim` keeps is a contiguous slice of the input, surrounded only by whitespace |
| Text.JoinSplit | src/components/pages/Lists.jsx:114 | joining the pieces of a `split` on one character gives back the input |
| Text.SplitJoin | src/components/pages/Lists.jsx:119 | splitting a join of separator-free pieces gives back the pieces |
| Text.SplitCount | src/components/pages/Lists.jsx:114-115 | `split` yields one more piece than there are separators, so fewer than two lines means no newline in the trimmed text |
| Text.Remove | src/components/pages/Lists.jsx:130 | `replace(/"/g, '')` leaves no quote and shortens the text by exactly the number of quotes |
| Text.RemoveAbsent | src/components/pages/Lists.jsx:130 | removing a character that does not occur changes nothing |
| Text.RemoveAppend | src/components/pages/Lists.jsx:130 | removing a character distributes over concatenation |
| Text.TrimmedUnchanged | src/components/pages/Lists.jsx:130 | text that neither starts nor ends with whitespace is its own trim |
| Text.ReplaceAll | src/components/pages/Broadcast.jsx:66-67 | a global literal replace brings in only characters of the input or the replacement, and keeps the length when replacement and pattern are equally long; `ReplaceAllAbsent`, `ReplaceAllSelf` and `ReplaceAllPlainPrefix` fix its value |
| Text.ReplaceAllAbsent | src/components/organisms/MessageEditor.jsx:83-84 | a global replace of a pattern that does not occur is the identity |
| Text.ReplaceAllSelf | src/components/pages/Broadcast.jsx:66 | replacing a pattern by itself is the identity |
| Text.ReplaceAllPlainPrefix | src/components/pages/Broadcast.jsx:65-67 | a prefix in which no occurrence starts is copied verbatim and the scan continues after it |
| Store.FilterMembers | src/services/api/contactService.js:10 | `filter` keeps exactly the elements satisfying the predicate: every kept element comes from the input and satisfies it, and every satisfying element is kept |
| Store.FilterPartition | src/services/api/contactService.js:10 | filtering by a predicate and by its negation splits the store into two parts that together hold every record once |
| Store.FilterAppend | src/services/api/contactService.js:56 | filtering distributes over appending a batch |
| Store.RemoveAtKeepsUnique | src/services/api/listService.js:62 | splicing one record out keeps ids unique and leaves no record with the removed id |
| Store.AppendFreshKeepsUnique | src/services/api/listService.js:24-32 | appending records whose ids exceed every stored id, and are distinct among themselves, keeps ids unique |
| Store.ReplaceKeepsUnique | src/services/api/listService.js:43-50 | overwriting a record with one of the same id keeps ids unique |
| Store.FilterReplaceDrops | src/components/pages/DeletedContacts.jsx:65 | when one record with a unique id is overwritten by one failing the predicate, the filtered view loses exactly that id |
| Store.FilterRemoveDrops | src/components/pages/DeletedContacts.jsx:79 | when one record with a unique id is spliced out, the filtered view loses exactly that id |
| ContactService.GetAll | src/services/api/contactService.js:8-11 | exactly the contacts not soft-deleted, in store order |
| ContactService.GetAllDeleted | src/services/api/contactService.js:96-99 | exactly the soft-deleted contacts, in store order |
| ContactService.ListingsPartition | src/services/api/contactService.js:10 | the active and the deleted listings together hold every stored contact exactly once |
| ContactService.GetByListId | src/services/api/contactService.js:13-18 | exactly the active contacts of the list, in store order |
| ContactService.GetById | src/services/api/contactService.js:20-27 | the first stored contact with the id, deleted or not; `Contact not found` exactly when no record has the id |
| ContactService.Create | src/services/api/contactService.js:29-42 | appends one active contact whose id is above every stored id, deleted ones included (1 for an empty store), with the caller's fields |
| ContactService.CreateBatch | src/services/api/contactService.js:44-58 | appends one contact per input, in input order, with consecutive ids from max+1, all above every stored id |
| ContactService.Update | src/services/api/contactService.js:60-75 | overwrites the first record with the id and nothing else; each field, the lifecycle fields `isDeleted` and `deletedAt` included, takes the patch's value when given and keeps its old value otherwise; the id never changes; `Contact not found` on an unknown id |
| ContactService.UpdateNoChange | src/services/api/contactService.js:60-75 | an empty patch on a stored id leaves the store as it was |
| ContactService.Delete | src/services/api/contactService.js:77-94 | soft delete: same store length, only the first record with the id changed, flagged deleted and stamped; error on an unknown id |
| ContactService.Restore | src/services/api/contactService.js:101-121 | succeeds exactly when the first record with the id is soft-deleted, and clears its flag and stamp; `Contact not found` or `Contact is not deleted` otherwise |
| ContactService.PermanentDelete | src/services/api/contactService.js:123-133 | removes exactly the first record with the id, keeping the others in order, whatever its deleted flag; error on an unknown id |
| ContactService.CreateKeepsWellFormed | src/services/api/contactService.js:31-40 | create keeps ids unique and stamps consistent, and the new id was not in use |
| ContactService.CreateBatchKeepsWellFormed | src/services/api/contactService.js:46-56 | a batch create keeps the store well formed |
| ContactService.DeleteKeepsWellFormed | src/services/api/contactService.js:79-92 | a soft delete keeps the store well formed |
| ContactService.RestoreKeepsWellFormed | src/services/api/contactService.js:103-119 | a restore keeps the store well formed |
| ContactService.PermanentDeleteKeepsWellFormed | src/services/api/contactService.js:125-131 | a permanent delete keeps the store well formed and leaves no contact with that id |
| ContactService.UpdateKeepsWellFormed | src/services/api/contactService.js:62-73 | an update that leaves the lifecycle fields alone keeps the store well formed |
| ContactService.DeleteThenRestore | src/services/api/contactService.js:77-121 | soft-deleting an active contact and restoring it gives back the original store |
| ContactService.RestoreMovesListing | src/services/api/contactService.js:108-119 | after a restore the contact is in the active listing and no longer in the deleted one |
| ListService.GetById | src/services/api/listService.js:13-20 | the first list with the id; `List not found` exactly when there is none |
| ListService.Create | src/services/api/listService.js:22-34 | appends one empty list (count 0) whose id is above every stored id |
| ListService.Update | src/services/api/listService.js:36-52 | overwrites the first list with the id with the patched record, keeping the id and stamping `updatedAt`; error on an unknown id |
| ListService.Delete | src/services/api/listService.js:54-64 | removes exactly the first list with the id and returns it; error on an unknown id |
| ListService.OperationsKeepUnique | src/services/api/listService.js:22-64 | create, update and delete keep list ids unique; after a delete no list has that id |
| TemplateService.GetById | src/services/api/templateService.js:13-20 | the first template with the id; `Template not found` exactly when there is none |
| TemplateService.Create | src/services/api/templateService.js:22-36 | appends a template with a fresh max+1 id holding exactly the four form fields |
| TemplateService.Update | src/services/api/templateService.js:38-55 | overwrites the four form fields and `updatedAt` of the first template with the id; id and `createdAt` kept |
| TemplateService.Delete | src/services/api/templateService.js:57-66 | removes exactly the first template with the id; error on an unknown id |
| TemplateService.UpdateThenGet | src/services/api/templateService.js:38-55 | reading an edited template back by id returns the edited record |
| TemplateService.DeleteRemovesId | src/services/api/templateService.js:57-66 | after a delete the id is no longer found, and ids stay unique |
| BroadcastService.GetById | src/services/api/broadcastService.js:13-20 | the first broadcast with the id; `Broadcast not found` exactly when there is none |
| BroadcastService.Create | src/services/api/broadcastService.js:22-34 | appends one broadcast with a fresh max+1 id, the draft's fields and the send time |
| BroadcastService.GetLatest | src/services/api/broadcastService.js:36-41 | `null` exactly for an empty store; otherwise a stored broadcast whose `sentAt` is at least every other, and the first such in store order, as a stable descending sort leaves it |
| BroadcastService.LatestUnique | src/services/api/broadcastService.js:36-41 | only one broadcast is the latest in that sense |
| BroadcastService.CreateKeepsUnique | src/services/api/broadcastService.js:24-32 | creating a broadcast keeps ids unique |
| ReportService.GetByBroadcastId | src/services/api/reportService.js:13-16 | exactly the stored reports of that broadcast, in stored order |
| ReportService.StatusOf | src/services/api/reportService.js:23 | the status a stored status string stands for is canonical and gives back that string; it is `Other` exactly for a string none of the four known names |
| ReportService.StatusOfNameOf | src/services/api/reportService.js:23 | a canonical status is recovered from its string, so two canonical statuses with one string are equal |
| ReportService.StampOrNull | src/services/api/reportService.js:24 | `readAt \|\| null`: any falsy stamp is stored as `null`, a real one as given |
| ReportService.Create | src/services/api/reportService.js:18-28 | appends exactly one report with the input's ids, status and read time, leaving the stored ones untouched |
| ReportService.CreateBatch | src/services/api/reportService.js:30-41 | appends one report per input, in input order, and never changes a stored report (the store only grows) |
| ReportService.BatchReadBack | src/services/api/reportService.js:13-41 | a batch for a broadcast no stored report mentions reads back as exactly that batch |
| SettingsService.InitialState | src/services/api/settingsService.js:3-4 | the counter starts one above the largest seed id; no integer counter for an empty seed |
| SettingsService.GetById | src/services/api/settingsService.js:13-26 | `Invalid ID format` for a non-numeric id, `Setting not found` for an unknown one, otherwise the first stored setting with the id |
| SettingsService.Create | src/services/api/settingsService.js:28-41 | the id comes from the counter, which advances; category, name, active flag, URL, key, phone number id and business account id are the caller's; the status is forced to not-tested and `lastTested` to null whatever the caller passed |
| SettingsService.Update | src/services/api/settingsService.js:43-64 | both error cases; otherwise only the first record with the id changes: every field the patch gives, `createdAt` included, takes the patch's value, every other keeps its old value, the id is kept and `updatedAt` is stamped |
| SettingsService.UpdateNoChange | src/services/api/settingsService.js:43-64 | an empty patch on a stored setting only stamps its `updatedAt` |
| SettingsService.Delete | src/services/api/settingsService.js:66-80 | both error cases; otherwise exactly the first record with the id is spliced out and the counter stays |
| SettingsService.TestConnection | src/services/api/settingsService.js:82-112 | success exactly when the URL, key and phone number id are all non-empty; the status and message follow the outcome; the status and test time are written back to the first record with the id only |
| SettingsService.TestIgnoresBusinessAccount | src/services/api/settingsService.js:95 | the business account id has no influence on the connection test |
| SettingsService.NoIdReuse | src/services/api/settingsService.js:28-41 | a setting created after a delete never gets the deleted id back |
| Csv.Headers | src/components/pages/Lists.jsx:119 | one trimmed, lower-cased title per comma-separated header cell |
| Csv.ColumnIndex | src/components/pages/Lists.jsx:120-122 | the least header index the column accepts, or -1 exactly when no header matches |
| Csv.ResolveColumns | src/components/pages/Lists.jsx:124-126 | no columns exactly when any of the three indices is -1 |
| Csv.Cell | src/components/pages/Lists.jsx:130 | a cell holds no `"` |
| Csv.ParseRows | src/components/pages/Lists.jsx:128-140 | the loop yields the reference reading: one row per line with enough cells, in line order, shorter lines skipped |
| Csv.ParseCsv | src/components/pages/Lists.jsx:113-141 | too-short error exactly when the trimmed text has fewer than two lines; missing-columns error exactly when a column is unresolved; otherwise the rows of the data lines, at most one per data line |
| Csv.ExpectedAppend | src/components/pages/Lists.jsx:129-138 | the import of two runs of lines is the import of each, concatenated |
| Csv.AllSufficient | src/components/pages/Lists.jsx:131-137 | when every data line has enough cells there is one row per line, in order |
| Csv.ShortLineSkipped | src/components/pages/Lists.jsx:131 | a line with too few cells contributes nothing, wherever it is |
| Csv.QuotedSpacesSurvive | src/components/pages/Lists.jsx:130 | a quoted quote-free cell `"x"` yields exactly `x`, spaces at its ends included: quotes are removed after trimming |
| Csv.LineRows | src/components/pages/Lists.jsx:131-137 | a line contributes one row exactly when it has enough cells, and no cell of it holds a quote |
| Markup.Personalize | src/components/pages/Broadcast.jsx:64-68 | the personalised text holds only characters of the template, the name and the email; `PersonalizeNoTags`, `NameBeforeEmail` and `PersonalizeNameOnce` fix its value |
| Markup.Emphasis | src/components/organisms/MessageEditor.jsx:85-87 | one markup pass brings in only characters of the input and of the two HTML tags, and never shortens the text; `EmphasisPlain`, `EmphasisPlainPrefix`, `EmphasisPair`, `EmphasisEmptyPair` and `EmphasisUnclosed` fix its value on every input |
| Markup.Bold | src/components/organisms/MessageEditor.jsx:85 | text without `*` is unchanged, and the pass never shortens text |
| Markup.Italic | src/components/organisms/MessageEditor.jsx:86 | text without `_` is unchanged, and the pass never shortens text |
| Markup.Strike | src/components/organisms/MessageEditor.jsx:87 | text without `~` is unchanged, and the pass never shortens text |
| Markup.Render | src/components/organisms/MessageEditor.jsx:81-88 | personalisation comes first; a message without merge tags renders alike for every recipient |
| Markup.Preview | src/components/organisms/MessageEditor.jsx:81-88 | a message with no merge tag and none of `*`, `_`, `~` previews as itself |
| Markup.FirstIndex | src/components/organisms/MessageEditor.jsx:85 | the first occurrence of the closing delimiter |
| Markup.EmphasisPlain | src/components/organisms/MessageEditor.jsx:85-87 | text without the delimiter passes through a markup pass unchanged |
| Markup.EmphasisPlainPrefix | src/components/organisms/MessageEditor.jsx:85-87 | a delimiter-free prefix is copied and the pass continues after it |
| Markup.EmphasisPair | src/components/organisms/MessageEditor.jsx:85-87 | `d x d` with `x` non-empty and delimiter-free becomes `open x close`, and the pass resumes after it |
| Markup.FirstAfterPlain | src/components/organisms/MessageEditor.jsx:85 | the closing delimiter found is the first one after a delimiter-free run |
| Markup.EmphasisEmptyPair | src/components/organisms/MessageEditor.jsx:85-87 | an empty pair such as `**` is not a pair: its first delimiter is copied and the pass resumes at the second |
| Markup.EmphasisUnclosed | src/components/organisms/MessageEditor.jsx:85-87 | a delimiter that is never closed is left as it is |
| Markup.PersonalizeNoTags | src/components/pages/Broadcast.jsx:64-68 | a message with no merge tag is not changed by personalisation |
| Markup.NameBeforeEmail | src/components/organisms/MessageEditor.jsx:83-84 | names are substituted before emails: an `{{Email}}` that a name brings in is substituted too |
| Markup.GreetingExample | src/components/pages/Broadcast.jsx:64-68 | `Hi {{Name}}` personalised for Ann is `Hi Ann`, whatever the email |
| Markup.ReplaceNameOnce | src/components/pages/Broadcast.jsx:66 | in text with no other `{`, the one `{{Name}}` becomes the name |
| Markup.PersonalizeNameOnce | src/components/pages/Broadcast.jsx:64-68 | personalising `a {{Name}} b` gives `a name b` |
| Markup.MarkupStarred | src/components/organisms/MessageEditor.jsx:85-87 | a starred plain run renders bold and is untouched by the italic and strike passes |
| Markup.RenderBoldName | src/components/organisms/MessageEditor.jsx:82-87 | markup runs after substitution, so `*{{Name}}*` renders as the bold name |
| Editor.TagText | src/components/organisms/MessageEditor.jsx:34 | the inserted tag is four characters longer than its name |
| Editor.InsertMergeTag | src/components/organisms/MessageEditor.jsx:28-44 | nothing without a textarea; otherwise prefix and suffix are kept, the selection is replaced by `{{tag}}`, and the cursor lands at start+\|tag\|+4, just past it |
| Editor.InsertMergeTagUndo | src/components/organisms/MessageEditor.jsx:34 | putting the selected text back in place of the tag restores the message |
| Editor.InsertNameThenPersonalize | src/components/organisms/MessageEditor.jsx:34 | inserting `{{Name}}` and then personalising puts the recipient's name where the selection was |
| Editor.FormatText | src/components/organisms/MessageEditor.jsx:46-79 | an empty selection changes nothing; an unknown format keeps the message; otherwise the selection is wrapped in one delimiter pair, two characters longer, prefix and suffix kept, cursor just past the pair |
| Editor.FormatTextUndo | src/components/organisms/MessageEditor.jsx:70 | dropping the two inserted delimiters restores the message |
| Editor.BoldWholeThenRender | src/components/organisms/MessageEditor.jsx:46-88 | bolding a whole plain message makes the preview render it as one bold run |
| Delivery.CumulativeValues | src/components/pages/Broadcast.jsx:103-110 | the running sums of the weights are 0.05, 0.20, 0.95 and 1.00 |
| Delivery.DrawStatus | src/components/pages/Broadcast.jsx:105-115 | the draw loop picks the first status whose cumulative weight reaches `r`, and `read` when none does |
| Delivery.BandSlices | src/components/pages/Broadcast.jsx:102-115 | on [0, 1) each status is drawn exactly on a slice as wide as its weight |
| Delivery.ReadAt | src/components/pages/Broadcast.jsx:121 | a read time exactly for `read`, within the hour after `now` |
| BroadcastPage.PersonalizeFor | src/components/pages/Broadcast.jsx:64-68 | a recipient's text holds only characters of the template and of that recipient's name and email |
| BroadcastPage.ReportFor | src/components/pages/Broadcast.jsx:117-122 | a report carries the broadcast's and the contact's ids, the drawn status, and a read time exactly for reads |
| BroadcastPage.Send | src/components/pages/Broadcast.jsx:80-125 | refused exactly without a list, with a blank message or with no contacts; otherwise one broadcast with the trimmed message and one recipient per contact, and one report per contact in contact order |
| BroadcastPage.SendReadBack | src/components/pages/Broadcast.jsx:94-125 | after a send, the reports page's query for the new broadcast returns exactly one report per contact, in contact order, as many as `totalRecipients` |
| BroadcastPage.SendKeepsReferences | src/components/pages/Broadcast.jsx:94-125 | if every stored report refers to a stored broadcast before a send, the same holds after it |
| BroadcastPage.BatchRecorded | src/components/pages/Broadcast.jsx:101-125 | storing the batch appends one report per contact, in contact order, each for the new broadcast, with its drawn status and a read time exactly for reads |
| ListsPage.CreateList | src/components/pages/Lists.jsx:74-90 | refused exactly for a whitespace-only name; otherwise the trimmed name is stored in a new empty list, shown and selected, and the contacts are untouched |
| ListsPage.FirstOf | src/components/pages/Lists.jsx:103 | the first remaining list, or none exactly when none remain |
| ListsPage.DeleteList | src/components/pages/Lists.jsx:92-111 | fails exactly when no stored list has the id; otherwise the stored list with that id is spliced out and the contact store is untouched; the page drops the list; a deleted selection moves to the first remaining list and clears the contacts, any other selection stays |
| ListsPage.DeleteListSelection | src/components/pages/Lists.jsx:101-104 | the new selection is a remaining list, never the deleted one, and is empty exactly when no other list was shown |
| ListsPage.Attach | src/components/pages/Lists.jsx:175-178 | every row is given the selected list's id and keeps its fields |
| ListsPage.UploadContacts | src/components/pages/Lists.jsx:162-200 | refused without a selected list or without rows; otherwise one active contact per row in that list, and the selected list, and no other, rewritten with `contactCount` set to loaded contacts plus rows |
| ListsPage.UploadCountMatchesStore | src/components/pages/Lists.jsx:183-185 | when the loaded contacts are the list's active contacts, the written count is the list's active contact count after the upload |
| ReportsPage.Having | src/components/pages/Reports.jsx:70-73 | exactly the reports with one status, every one of them, in store order |
| ReportsPage.HavingCount | src/components/pages/Reports.jsx:70-73 | the filtered length is the number of times the status occurs in the multiset of statuses |
| ReportsPage.StatusCounts | src/components/pages/Reports.jsx:67-77 | the total, and for each of the four statuses its multiplicity among the reports' statuses |
| ReportsPage.KnownCount | src/components/pages/Reports.jsx:67-77 | among any statuses the four known ones number at most all, and exactly all when no other occurs |
| ReportsPage.CountsAddUp | src/components/pages/Reports.jsx:67-77 | the four counts sum to at most the total, and to exactly the total when every status is one of the four |
| ReportsPage.RoundPercent | src/components/pages/Reports.jsx:82 | the integer nearest to 100·part/total, halves rounded up, never above 100 |
| ReportsPage.RoundPercentMonotone | src/components/pages/Reports.jsx:79-90 | a larger part never rounds to a smaller percentage |
| ReportsPage.EngagementRate | src/components/pages/Reports.jsx:79-83 | 0 without reports, otherwise the rounded share read |
| ReportsPage.DeliveryRate | src/components/pages/Reports.jsx:85-90 | 0 without reports, otherwise the rounded share delivered or read |
| ReportsPage.RatesOrdered | src/components/pages/Reports.jsx:79-90 | engagement never exceeds delivery, and delivery never exceeds 100 |
| ReportsPage.LoadLatest | src/components/pages/Reports.jsx:30-65 | nothing to show exactly without broadcasts; `List not found` exactly when the latest broadcast's list is gone; otherwise the latest broadcast (the first with the greatest `sentAt`), its reports, its list's active contacts and the list |
| TableSort.Flip | src/components/organisms/ReportTable.jsx:20 | the direction always changes |
| TableSort.HandleSort | src/components/organisms/ReportTable.jsx:18-25 | clicking the sorted column reverses the direction; another column is selected ascending |
| TableSort.HandleSortTwice | src/components/organisms/ContactTable.jsx:17-24 | two clicks on the sorted column restore the state; a new column is descending after its second click |
| TableSort.FirstClick | src/components/organisms/ContactTable.jsx:14-24 | from the initial state (`name`, ascending) a click on `name` sorts descending and any other column ascending |
| TableSort.LexLeTotal | src/components/organisms/ContactTable.jsx:31 | any two keys are comparable |
| TableSort.LexLeAntisymmetric | src/components/organisms/ContactTable.jsx:31-33 | keys ordered both ways are equal |
| TableSort.Insert | src/components/organisms/ContactTable.jsx:26-35 | inserting into an ordered sequence keeps it ordered and adds exactly that element |
| TableSort.SortBy | src/components/organisms/ContactTable.jsx:26-35 | the result is ordered in the direction and is a permutation of the input |
| TableSort.SortByStable | src/components/organisms/ContactTable.jsx:26-35 | the sort is stable: for every key, the elements carrying it keep their input order |
| TableSort.InsertWithKey | src/components/organisms/ContactTable.jsx:26-35 | insertion places the new element ahead of every element with the same key |
| TableSort.SortByOrdered | src/components/organisms/ContactTable.jsx:26-35 | an already ordered input comes back unchanged |
| ContactTable.SortKey | src/components/organisms/ContactTable.jsx:27-28 | the lower-cased column text; a field the record lacks gives the empty key |
| ContactTable.SortedContacts | src/components/organisms/ContactTable.jsx:26-35 | a permutation of the contacts whose keys ascend (or descend) |
| ContactTable.SortByMissingField | src/components/organisms/ContactTable.jsx:27-28 | sorting by a column no contact has keeps the contacts in order |
| ReportTable.RowFor | src/components/organisms/ReportTable.jsx:29-33 | the report with the first loaded contact of that id, or the `Unknown` placeholder exactly when none matches |
| ReportTable.Join | src/components/organisms/ReportTable.jsx:28-34 | one row per report, in report order |
| ReportTable.JoinShowsContact | src/components/organisms/ReportTable.jsx:28-34 | with unique contact ids, a report whose contact is loaded shows that contact |
| ReportTable.Apply | src/components/organisms/ReportTable.jsx:37-39 | the `all` tab is the joined data unchanged; a status tab is exactly the rows with that status, in order |
| ReportTable.Tabs | src/components/organisms/ReportTable.jsx:94-100 | each tab count is the length of that tab's filter |
| ReportTable.TabMatchesReports | src/components/organisms/ReportTable.jsx:96-99 | a status tab of the joined rows is as long as the reports with that status |
| ReportTable.TabsMatchPageCounts | src/components/organisms/ReportTable.jsx:94-100 | the table's tab counts equal the reports page's status counts |
| ReportTable.BadgeFor | src/components/organisms/ReportTable.jsx:66-80 | the `sent` badge exactly for `sent` and for any status with no entry of its own |
| ReportTable.BadgeForName | src/components/organisms/ReportTable.jsx:74 | on status strings: the `sent` badge exactly for `sent` and for a string none of the four known names |
| ReportTable.BadgesDistinct | src/components/organisms/ReportTable.jsx:67-72 | the four known statuses have four different badges |
| TemplatesPage.FilterTemplates | src/components/pages/Templates.jsx:62-77 | an order-preserving subsequence holding exactly the templates that match the search (case-insensitive, name or description) and the category |
| TemplatesPage.ShowAll | src/components/pages/Templates.jsx:62-77 | with no term and the `all` category every template is shown, in order |
| TemplatesPage.CategoryNarrows | src/components/pages/Templates.jsx:72-74 | choosing a category only hides templates, never adds one |
| TemplatesPage.StripTags | src/components/pages/Templates.jsx:164 | no `<` is followed by a `>` in the result, which uses only characters of the input and is no longer |
| TemplatesPage.StripTagsFixed | src/components/pages/Templates.jsx:164 | stripping leaves text unchanged exactly when no `<` in it has a `>` after it, so an unclosed `<` is kept |
| TemplatesPage.StripTagsPlainPrefix | src/components/pages/Templates.jsx:164 | a prefix without `<` is copied and stripping continues after it |
| TemplatesPage.StripTagsFront | src/components/pages/Templates.jsx:164 | a tag in front is dropped and the rest stripped |
| TemplatesPage.StripHtml | src/components/pages/Templates.jsx:163-165 | a prefix of the stripped text, at most 100 characters and exactly 100 when the stripped text is longer, with no tag span |
| TemplatesPage.Submit | src/components/pages/Templates.jsx:113-135 | refused exactly when the trimmed name or content is empty; create appends the form as typed; edit fails exactly on an unknown template, and otherwise rewrites that template's name, description, content and category from the form, stamps `updatedAt` and changes nothing else |
| TemplatesPage.CreatedIsListed | src/components/pages/Templates.jsx:113-130 | a created template is listed under its own category when no search term is typed |
| TemplatesPage.CategoryColor | src/components/pages/Templates.jsx:151-161 | the general colour exactly for `general` and for a category without a colour of its own |
| DeletedContacts.FilterDeleted | src/components/pages/DeletedContacts.jsx:43-56 | a blank query shows everything; otherwise an order-preserving subsequence holding exactly the contacts whose lower-cased name or email, or raw phone number, contains the lower-cased query |
| DeletedContacts.PaddedQueryMissesUnspaced | src/components/pages/DeletedContacts.jsx:49 | the query is not trimmed, so a leading space finds nothing in fields with no space |
| DeletedContacts.RestoreFromPage | src/components/pages/DeletedContacts.jsx:58-70 | fails exactly when the restore fails; otherwise exactly that contact leaves the page's list, and the others stay in order |
| DeletedContacts.PermanentDeleteFromPage | src/components/pages/DeletedContacts.jsx:72-84 | fails exactly on an unknown id; otherwise exactly that contact leaves the page's list, and the others stay in order |
| DeletedContacts.RestoreKeepsPageInStep | src/components/pages/DeletedContacts.jsx:65 | a page showing the store's deleted contacts still shows exactly them after a restore |
| DeletedContacts.PermanentDeleteKeepsPageInStep | src/components/pages/DeletedContacts.jsx:79 | a page showing the store's deleted contacts still shows exactly them after a permanent delete |

## Left out

- Timers and pacing are not modelled: the `delay` promise in every service, the progress loop at `src/components/pages/Broadcast.jsx:70-78`, and the search debounce. Every service call is one atomic step.
- Browser input and output are not modelled: `FileReader`, drag and drop, `confirm`, toasts and `window.location`. A declined `confirm` simply means the operation is not called.
- Rendering is not modelled: layout, animation, modals, routing, skeletons, empty and error states.
- `Math.random` and `Date.now` are parameters. An ISO timestamp is represented by the millisecond instant it encodes.
- Clock readings within one service call are taken as one instant `now`. The source calls `new Date()` afresh for each field, and two calls can fall on different milliseconds. The members below state an equality that rests on this single reading.
- ListService.Create, TemplateService.Create and SettingsService.Create: state `createdAt == updatedAt`; the source reads the clock once for each of the two fields.
- ContactService.CreateBatch: stamps every contact of a batch with the same `now`; the source reads the clock once per contact.
- ListsPage.UploadContacts: uses one `now` for the contacts it creates and for the list's `updatedAt`; in the browser these are two service calls, with a delay between them.
- SettingsService.TestConnection: `success` is a bool. The source returns `apiUrl && apiKey && phoneNumberId` itself, which is the phone number id string when all three are set and the first empty string otherwise; only its truthiness is modelled.
- SettingsService.TestConnection: writes the same `now` to `lastTested` and `updatedAt`; the source reads the clock twice.
- Delivery.ReadAt: the bound `now <= t < now + 3600000` holds for exact arithmetic, where `new Date` truncates the exact sum to whole milliseconds. JavaScript forms `Date.now() + Math.random() * 3600000` in floating point. Near today's instants, about 1.7e12 ms, doubles are spaced about 2.4e-4 ms apart, so for `u` within about 3e-11 of 1 the sum rounds up to exactly `now + 3600000`, one past the bound.
- TemplatesPage.StripHtml: lengths count Unicode code points, while JavaScript's `length` and `substring(0, 100)` count UTF-16 code units. Text containing characters outside the Basic Multilingual Plane, such as emoji, is cut later in the model than in the browser, and the browser can cut a surrogate pair in half.
- Editor.InsertMergeTag and Editor.FormatText: selection offsets and the new cursor position count code points; the browser's `selectionStart` and `selectionEnd` count UTF-16 code units, so they differ after any character outside the Basic Multilingual Plane.
- Ids are integers: `parseInt` coercion of ids from strings is not modelled. For settings, an id that `parseInt` turns into `NaN` is `None`.
- The mock JSON seed data is not modelled; every store starts from a caller-supplied sequence.
- `getAll` of lists, templates, broadcasts, reports and settings is not modelled separately: each returns the whole store, which is the sequence itself.
- Settings form validation in Settings.jsx is not part of this model: it is a set of react-hook-form rule objects. ListSelector.jsx is not part of it either: it is a per-list fetch loop. The ReactQuill rich-text editor is also out.
- ReportTable's sort (`src/components/organisms/ReportTable.jsx:42-64`) is left out: its comparator never returns 0 and is not a consistent order, so the order it produces depends on the JavaScript engine. The column-sort state machine it shares with ContactTable is modelled.
- ReportsPage.RoundPercent: rounds the exact rational 100·part/total, halves up. JavaScript computes the quotient in floating point first, so a few inputs round differently. For example, 29/200·100 evaluates to 14.499999999999998, which `Math.round` takes to 14, while the exact value 14.5 rounds to 15.
- Delivery.DrawStatus: the weights are exact reals. JavaScript's floating-point running sum of 0.05, 0.15, 0.75 and 0.05 differs from 0.20, 0.95 and 1.00 in the last bits, which can move a boundary draw to the next status.
- Text.Lower: only ASCII letters are lower-cased; JavaScript's `toLowerCase` also folds the rest of Unicode.
- TableSort.SortBy: `localeCompare` is replaced by lexicographic order on character codes, a total order. Locale collation is not visible in the code.
- Markup.Personalize: names and emails are taken as literal replacement text. `String.replace` would interpret a `$&` or `$1` inside them.
- ReportTable.BadgeFor and TemplatesPage.CategoryColor: a status or category that names an `Object.prototype` member (such as `constructor`) is treated like any other unknown key and falls back. JavaScript would look that member up.
- ContactTable.SortKey: only the three displayed columns have keys; any other field, such as `Id` or `createdAt`, sorts as the empty key.
- TemplatesPage.Submit: in edit mode it requires the template being edited. The page only opens edit mode from a template card, so `selectedTemplate` is never null there.
- SettingsService.InitialState: an empty seed makes `Math.max()` give `-Infinity`, and no integer counter models that, so the state is `None`.
- Csv.Cell: does not state that a cell is trimmed, because it need not be. Quotes are removed after trimming, so spaces inside quotes survive (`Csv.QuotedSpacesSurvive`).
