# File Permission sharing workflow, modelled in Dafny

This project models the File Permission doctype of the `file_sharing`
Frappe app. A File Permission record grants one user reference access to
the files attached to one document. The record carries a files table of
items, and each item has its own sharing terms: date-based, view-based or
unlimited. The model covers:

- the document hooks (`before_save`, `before_submit`, `before_cancel`) as
  methods of the class `FilePermissionDoc.FilePermission`;
- the status synchronisation `setStatusForFilesWithUrl`, with its early
  returns;
- the duplicate-share check and the submit validation;
- the text of the notification mail;
- the scheduled expiry sweeper and the view gate, as methods of the class
  `PermissionStore.Store`. The store holds the records and the File View
  Log;
- the de-duplication of attachments by file name;
- the tiling arithmetic and the page loop of the PDF watermark.

Conventions:

- A Python `None` or empty string is the empty string `""`.
- Dates are integer day numbers. An unset expiration date is `None`, and
  `None` never compares as earlier than today.
- Check-box fields stay integers, because the code compares them with `== 1`.
- `frappe.throw` becomes a `Fail(error)` outcome. The error carries the
  values the message names: the file URL, the row number or the user
  doctype.
- Everything read from the database is a parameter: the stored records,
  `item_name`, `email_id`, the Portal User table, the File table, the
  `allow_public_files` setting, today's date and the current user.

Modules: `Types`, `StatusSync`, `SharingChecks`, `Notification`,
`FilePermissionDoc`, `Expiry`, `ViewGate`, `PermissionStore`,
`Attachments` and `Watermark`.

Notes on the code's behaviour:

- The view gate only appends a log row. No view counter is decremented,
  and no item expires after N views.
- The duplicate check runs only on save, not on submit.
- Cancel uses the same synchronisation as the other hooks, with its early
  returns. It does not force every item to Cancelled.
- The sweeper's cascade considers every submitted Shared record, not only
  the records whose items it has just expired.

## Model

| member | source | states |
|---|---|---|
| `StatusSync.FirstAtStatus` | file_sharing/file_sharing/doctype/file_permission/file_permission.py:65-67 | the position where the sync stops: no earlier item is at the target, and the item there is |
| `StatusSync.SyncItems` | file_sharing/file_sharing/doctype/file_permission/file_permission.py:65-69 | the item sync keeps the number of items (its pointwise effect is `SyncItemsAt`) |
| `StatusSync.SyncItemsAt` | file_sharing/file_sharing/doctype/file_permission/file_permission.py:65-69 | item k is set to the target iff it lies before the first item already at the target and has a file URL; that item and all later ones are untouched; the length is kept |
| `StatusSync.SyncItemsOnlySetsTarget` | file_sharing/file_sharing/doctype/file_permission/file_permission.py:68-69 | each item after the sync is either unchanged, or the same item at the target status with a non-empty file URL |
| `StatusSync.SyncItemsIdempotent` | file_sharing/file_sharing/doctype/file_permission/file_permission.py:61-69 | a second item sync with the same target changes nothing |
| `FilePermissionDoc.FilePermission.SetStatusForFilesWithUrl` | file_sharing/file_sharing/doctype/file_permission/file_permission.py:61-69 | the record ends at the target; items are unchanged when the record already had the target, otherwise they become the item sync of the old items |
| `FilePermissionDoc.WalkItems` | file_sharing/file_sharing/doctype/file_permission/file_permission.py:65-69 | the loop over the items, stopping at the first item already at the target and setting each item with a file URL before it, produces exactly the item sync |
| `StatusSync.SyncItemsFromStop` | file_sharing/file_sharing/doctype/file_permission/file_permission.py:65-69 | a walk that set every item before its stop, left the rest alone and stopped at the end or at an item already at the target has produced the item sync |
| `Attachments.TracksStep` | file_sharing/file_sharing/doctype/file_permission/file_permission.py:221-226 | one pass of the dictionary loop keeps the names list equal to the names in insertion order and each entry equal to the kept copy for the files seen so far |
| `Attachments.AppendStep` | file_sharing/file_sharing/doctype/file_permission/file_permission.py:221-226 | one more file adds its name to the list when the name is new, and becomes the kept copy for its name when it is private or the first with that name; otherwise the kept copy stays |
| `FilePermissionDoc.SyncedFilesReachTarget` | file_sharing/file_sharing/doctype/file_permission/file_permission.py:64-69 | after a sync from another status, items before the stop with a URL are at the target, the others are untouched, and no field other than `child_status` changes |
| `FilePermissionDoc.FilePermission.GetFileRefName` | file_sharing/file_sharing/doctype/file_permission/file_permission.py:29-31 | the file reference's name is looked up (None when missing) only when the doctype and the reference are both set |
| `FilePermissionDoc.FilePermission.FetchEmailToSend` | file_sharing/file_sharing/doctype/file_permission/file_permission.py:71-74 | the address is looked up (None when missing) only when the user doctype and the reference are both set |
| `FilePermissionDoc.FilePermission.BeforeSave` | file_sharing/file_sharing/doctype/file_permission/file_permission.py:13-17 | the outcome is the duplicate check on the old items; on failure the status, the items and the address are unchanged (the name lookup has already happened); on success the record is synced to Draft and the address is fetched |
| `FilePermissionDoc.FilePermission.BeforeSubmit` | file_sharing/file_sharing/doctype/file_permission/file_permission.py:19-24 | the outcome is the validation; on failure nothing changes and no mail is built; on success the record is synced to Shared, and a mail is built iff the address is non-empty and `send_email` is 1 |
| `FilePermissionDoc.FilePermission.BeforeCancel` | file_sharing/file_sharing/doctype/file_permission/file_permission.py:26-27 | the record ends Cancelled and its items follow the Cancelled sync |
| `FilePermissionDoc.SubmitMailFailsAsWritten` | file_sharing/file_sharing/doctype/file_permission/file_permission.py:119-123 | as written, every submit that passes validation with mail enabled reaches the undefined `formatdate` and fails |
| `SharingChecks.SharedFileUrls` | file_sharing/file_sharing/doctype/file_permission/file_permission.py:34-56 | the first query's record names, then the second query's item URLs for those parents: every Shared, submitted item of an active share has its URL collected, and nothing is collected when there is no active share (the early return) |
| `SharingChecks.SharedFileUrlsByPrimaryKey` | file_sharing/file_sharing/doctype/file_permission/file_permission.py:34-56 | with unique record names, a URL is collected iff some Shared, submitted item of a Shared, submitted record with the same user and file reference has it |
| `SharingChecks.FirstSharedFile` | file_sharing/file_sharing/doctype/file_permission/file_permission.py:57-59 | finds nothing iff no item's URL is shared; otherwise it returns the first item, in table order, whose URL is shared |
| `SharingChecks.DuplicateCheck` | file_sharing/file_sharing/doctype/file_permission/file_permission.py:33-59 | passes iff no item's URL is already shared; otherwise it fails naming the first such item's URL |
| `SharingChecks.NoActiveShareNoDuplicate` | file_sharing/file_sharing/doctype/file_permission/file_permission.py:44-45 | with no submitted Shared record for the same user and file reference, the check passes |
| `SharingChecks.CheckRows` | file_sharing/file_sharing/doctype/file_permission/file_permission.py:103-108 | passes iff no row lacks its views or its expiration date; otherwise it reports the first bad row, with the views error taking precedence |
| `SharingChecks.ValidateBeforeSharing` | file_sharing/file_sharing/doctype/file_permission/file_permission.py:92-108 | passes iff the user is set, the user is a registered portal user, the table is non-empty and every row is complete; the errors come in the code's order; once the user is set and registered and the table is non-empty, the verdict is exactly the row check's (the first bad row's error, or a pass) |
| `Notification.NatToText` | file_sharing/file_sharing/doctype/file_permission/file_permission.py:125 | the decimal text of a count is non-empty, made of digits, and has no leading zero |
| `Notification.NatToTextRoundTrip` | file_sharing/file_sharing/doctype/file_permission/file_permission.py:125 | reading the decimal text of a count back gives the count; with no leading zero, this makes the text `str(n)` |
| `Notification.Terms` | file_sharing/file_sharing/doctype/file_permission/file_permission.py:124-131 | the terms of an item start with ", ", and read "available unlimited times" iff the item is neither date-based nor view-based |
| `Notification.ComposeMail` | file_sharing/file_sharing/doctype/file_permission/file_permission.py:119-145 | the corrected mail goes to the record's address only, names the file reference in its subject, opens with the greeting and ends with the closing; with no items the message is the greeting and the closing alone |
| `Notification.TermsCases` | file_sharing/file_sharing/doctype/file_permission/file_permission.py:124-131 | date-based terms end with the formatted date; view-only terms are "valid for N views"; with neither flag the terms are "available unlimited times" |
| `Notification.JoinContainsPart` | file_sharing/file_sharing/doctype/file_permission/file_permission.py:136 | every line joined by the separator occurs in the joined text at its offset |
| `Notification.ComposeMailMentionsEveryItem` | file_sharing/file_sharing/doctype/file_permission/file_permission.py:119-145 | the mail goes only to the record's address, its subject names the file reference, and its message contains every item's line (URL and terms) |
| `Notification.ComposeMailAsWritten` | file_sharing/file_sharing/doctype/file_permission/file_permission.py:119-145 | as written, the build fails with the undefined `formatdate` exactly when there is an item; with no items it builds the mail, which is then the corrected build's mail for every date formatter |
| `Expiry.Sweep` | file_sharing/file_sharing/doctype/file_permission/file_permission.py:148-195 | the sweep keeps every record, with its name, its docstatus and its number of items, in place |
| `Expiry.SweepItems` | file_sharing/file_sharing/doctype/file_permission/file_permission.py:148-168 | after a sweep, an item has been set to Expired iff it was date-based, Shared, submitted and past its date; every other item is unchanged, even when nothing qualified |
| `Expiry.SweepRecords` | file_sharing/file_sharing/doctype/file_permission/file_permission.py:170-195 | once something was expired, a record becomes Expired iff it was submitted and Shared and all its items are now Expired (true when it has no items); its other fields are unchanged |
| `Expiry.SweepNothingToExpire` | file_sharing/file_sharing/doctype/file_permission/file_permission.py:160-161 | when no item qualifies the sweep changes nothing, parents included |
| `Expiry.SweepLeavesNothingToExpire` | file_sharing/file_sharing/doctype/file_permission/file_permission.py:149-168 | after a sweep no item qualifies |
| `Expiry.SweepIdempotent` | file_sharing/file_sharing/doctype/file_permission/file_permission.py:148-195 | a second sweep on the same day is a no-op |
| `Expiry.PartlyExpiredRecordStaysShared` | file_sharing/file_sharing/doctype/file_permission/file_permission.py:181-195 | a submitted Shared record with one item past its date and one that does not qualify and is not Expired is still Shared after the sweep, with only the first item Expired |
| `PermissionStore.Store.AutoExpireDrawingsByDate` | file_sharing/file_sharing/doctype/file_permission/file_permission.py:148-195 | the stored records become the sweep of the old records for today, and the view log is untouched |
| `ViewGate.RowOf` | file_sharing/file_sharing/doctype/file_permission/file_permission.py:231 | finds the row with the given item name, or reports that no row has it |
| `ViewGate.FindItem` | file_sharing/file_sharing/doctype/file_permission/file_permission.py:231 | finds nothing iff no item has the name; otherwise it returns an item with that name and the name of its parent record |
| `ViewGate.LogAfterView` | file_sharing/file_sharing/doctype/file_permission/file_permission.py:230-240 | the log gains at most one entry, never loses or rewrites one, and gains one iff the item found is not Expired; the entry names a parent holding the item |
| `ViewGate.ViewLoggedUnlessExpired` | file_sharing/file_sharing/doctype/file_permission/file_permission.py:232-240 | with unique row names, a view appends exactly the entry (viewer, parent, item) iff the item is not Expired (Draft and Cancelled included); otherwise the log is unchanged |
| `PermissionStore.Store.LogViewIfNotExpired` | file_sharing/file_sharing/doctype/file_permission/file_permission.py:230-240 | the log becomes the gate's log; records are untouched; an unknown item name fails |
| `Attachments.FileName` | file_sharing/file_sharing/doctype/file_permission/file_permission.py:223 | the file name is no longer than the URL and contains no '/' |
| `Attachments.FileNameSpec` | file_sharing/file_sharing/doctype/file_permission/file_permission.py:223 | the file name is the URL's suffix after its last '/' (the whole URL when there is none) |
| `Attachments.Query` | file_sharing/file_sharing/doctype/file_permission/file_permission.py:200-218 | a row is kept iff it is private (or public files are allowed), is attached to the document and is a PDF or GLB file |
| `Attachments.QueryInOrder` | file_sharing/file_sharing/doctype/file_permission/file_permission.py:200-218 | the rows the query returns keep the table's order: they form a subsequence of the table |
| `Attachments.NamesInOrder` | file_sharing/file_sharing/doctype/file_permission/file_permission.py:221-226 | there are no more names than files |
| `Attachments.NamesInOrderSpec` | file_sharing/file_sharing/doctype/file_permission/file_permission.py:221-226 | a name is listed iff the search for it finds a file, and no name is listed twice |
| `Attachments.FirstNamedFinds` | file_sharing/file_sharing/doctype/file_permission/file_permission.py:221-224 | the search for a name finds a file whenever some file carries that name |
| `Attachments.EveryNameListed` | file_sharing/file_sharing/doctype/file_permission/file_permission.py:221-226 | the name of every file that passes the filters is listed, so every distinct name gets an entry |
| `Attachments.LastPrivateNamed` | file_sharing/file_sharing/doctype/file_permission/file_permission.py:224-225 | the private copy found for a name is an input file with that name and is private |
| `Attachments.Preferred` | file_sharing/file_sharing/doctype/file_permission/file_permission.py:222-225 | a public copy is kept for a name only when it is the first copy with that name |
| `Attachments.PreferredSpec` | file_sharing/file_sharing/doctype/file_permission/file_permission.py:222-225 | the copy kept for a name is an input file with that name, and it is private iff some copy with that name is private |
| `Attachments.GetUniqueFileUrlsForDocument` | file_sharing/file_sharing/doctype/file_permission/file_permission.py:199-226 | None iff no file passes the filters; otherwise one file per distinct name, in the order each name is first met in the rows the query returns: the last private copy with that name, or the first copy when none is private |
| `Attachments.ResultIsPrivateDrawnAndUnique` | file_sharing/file_sharing/doctype/file_permission/file_permission.py:200-226 | every returned file comes from the File table, no two share a name, and all are private when public files are not allowed |
| `Watermark.Grid` | file_sharing/file_sharing/doctype/file_permission/file_permission.py:264-272 | the first nx columns of ny tiles hold nx*ny tiles |
| `Watermark.TileCount` | file_sharing/file_sharing/doctype/file_permission/file_permission.py:260-262 | for a non-negative dimension the count c is at least two, and (c-2)*step <= dim < (c-1)*step |
| `Watermark.GridSpec` | file_sharing/file_sharing/doctype/file_permission/file_permission.py:264-272 | the grid has nx*ny tiles: exactly the origins ((x-1)*step, (y-1)*step) for x < nx and y < ny |
| `Watermark.DrawTiles` | file_sharing/file_sharing/doctype/file_permission/file_permission.py:260-273 | the nested loops draw the grid of int(dim/step)+2 tiles per axis, in x-major order |
| `Watermark.GetWatermarkedPdf` | file_sharing/file_sharing/doctype/file_permission/file_permission.py:253-280 | one output page per input page, in order, each page merged with its own overlay |
| `Watermark.WatermarkedPageKeepsPage` | file_sharing/file_sharing/doctype/file_permission/file_permission.py:276-280 | a watermarked page keeps its box and its content, and the page's tile grid is on top |
| `Watermark.TileRange` | file_sharing/file_sharing/doctype/file_permission/file_permission.py:260-262 | the step is 100; a non-negative dimension gets at least two tiles; the last origin, floor(dim/100)*100, lies past dim-100 |
| `Watermark.Coverage` | file_sharing/file_sharing/doctype/file_permission/file_permission.py:254-267 | every point from the origin to the upper-right corner lies in the 100-unit square of some tile origin |

## Left out

- Attachments.LastPrivateNamed: the contract does not state that the copy found is the last private copy with that name; only the definition, which scans from the end of the list, gives that order.
- Database and framework calls are parameters or values. This covers `frappe.db.get_value`, `get_all`, `set_value` and `get_single_value`, document insert and save, `frappe.session.user`, `nowdate` and `get_url`.
- The framework's own docstatus changes on submit and cancel are not modelled. They happen outside the hooks.
- Sending the mail is not modelled. `BeforeSubmit` returns the composed mail instead of calling `frappe.sendmail`.
- `formatdate` is a parameter of the corrected mail (see Findings).
- The wording of the error messages, including `frappe.bold`, is not modelled. The error value carries what each message names.
- PDF reading, writing and rendering are not modelled. This covers `PdfReader`, `PdfWriter`, the reportlab canvas, the font, the rotation, the colour and `BytesIO`. A page is its media box, opaque content and the overlays merged onto it.
- The file path built from `is_private` in `get_watermarked_pdf` is not modelled.
- Concurrency and transactions are not modelled. Each call runs alone.
- The commented-out code is dead and is not modelled: `fetch_and_append_files` and the duplicate-attachment warning.
- file_sharing/www/drawing_viewer.py and setup.py are not part of this model.
- Watermark.Coverage: covers points from 0 up to the upper-right corner only. The canvas size is taken from `mediabox[2]` and `mediabox[3]`, so a box with a negative lower-left corner is not covered below 0.
- Notification.TermsCases: for date-based items it states only that the terms end with the formatted date. It does not state the exact leading text or the view count in the combined case.
- SharingChecks.SharedFileUrlsByPrimaryKey: assumes record names are unique, as primary keys are. Without that, the second query also collects the items of any other record that has an active share's name.
- Notification.ItemDetail: an item with no file URL is rendered as "File: ". The Python f-string renders a `None` URL as "File: None", and the model does not tell `None` from the empty string.
- ViewGate.ViewLoggedUnlessExpired: assumes row names are unique, as primary keys are. Without that, `FindItem` takes the first matching row.

## Findings

| source | as written | input that shows it | evidently intended | confidence | as-written member | corrected member |
|---|---|---|---|---|---|---|
| file_sharing/file_sharing/doctype/file_permission/file_permission.py:123 | `formatdate` is called for every item but is never imported (imports at lines 4-10), so building the mail raises NameError and the submit fails | a record that passes validation, with one item, `email_id` set and `send_email` = 1 | import `formatdate` from `frappe.utils`, so the mail lists every item and the submit succeeds | high, not executed | `Notification.ComposeMailAsWritten`, `FilePermissionDoc.SubmitMailFailsAsWritten` | `Notification.ComposeMail` (proved by `Notification.ComposeMailMentionsEveryItem`), used by `FilePermissionDoc.FilePermission.BeforeSubmit` |
