# Class gallery and hall of fame: a Dafny model of the component rules

The application is a class website. Its gallery accepts uploads of images and videos.
Admins publish them at once; other members' uploads wait in a moderation queue. Its hall
of fame shows one card per member, with a photo, two social links, an edit dialog and an
admin lock. An admin panel grants and revokes the admin role. Every component talks to
the hosted database and storage service directly.

This model lifts out the deterministic rules inside those components and proves what
they guarantee. Backend results are inputs: rows, role lists, public URLs, success or
failure of each call, timestamps and random name parts. One module per component:

- `Upload` (`upload.dfy`): the upload dialog as a class with the dialog's state.
  - The selection loop that keeps media files of at most 25 MiB.
  - Preview object URLs, with a serial counter and the set of revoked URLs.
  - The crop replacement of one entry.
  - The per-file storage name and inserted row, and the reset after a full success.
- `ProfileEdit` (`profile_edit.dfy`): the profile editor as a class.
  - Link normalisation.
  - The save payload with null for empty values.
  - The avatar file name and upload.
- `AdminUsers` (`admin_users.dfy`): the admin panel as a class.
  - The join of auth users with the admin rows of the role table.
  - The role toggle with its in-flight marker.
- `Gallery` (`gallery.dfy`):
  - The query each viewer gets: status filter, newest first.
  - Tile controls, the moderation and delete writes, and the detail dialog.
- `GalleryCard` (`gallery_card.dfy`): the video test `/\.(mp4|webm|ogg)$/i` and the tile's rendering.
- `HallOfFameCard` (`hall_of_fame_card.dfy`):
  - Link shortening to thirty characters.
  - Which parts of a card render.
  - The lock toggle.
- `ModerationPage` (`moderation_page.dfy`): the redirect and render decision of the moderation route.
- Shared modules:
  - `Text` (`text.dfy`):
    - JavaScript's `trim`, with the ECMAScript whitespace set.
    - `startsWith` and `endsWith`.
    - ASCII case folding.
    - `split('.').pop()`.
  - `Schema` (`schema.dfy`): the database rows.
  - `Wrappers` (`wrappers.dfy`): `Option`.

## Model

| member | source | states |
|---|---|---|
| Text.TrimStart | src/components/EditProfileDialog.tsx:69 | the result is the suffix left after dropping a blank prefix, and it does not start with whitespace |
| Text.TrimEnd | src/components/EditProfileDialog.tsx:69 | the result is the prefix left after dropping a blank suffix, and it does not end with whitespace |
| Text.Trim | src/components/EditProfileDialog.tsx:69 | the result has no surrounding whitespace and is no longer than the input |
| Text.TrimEmptyIffBlank | src/components/EditProfileDialog.tsx:68 | `trim()` yields "" exactly when the input is empty or whitespace only |
| Text.TrimOfTrimmed | src/components/EditProfileDialog.tsx:69 | a string without surrounding whitespace is its own trim |
| Text.TrimIdempotent | src/components/EditProfileDialog.tsx:69 | trimming twice equals trimming once |
| Text.TrimStartBlankPrefix | src/components/EditProfileDialog.tsx:69 | `trimStart` removes exactly a blank prefix in front of text that does not start with whitespace |
| Text.TrimEndBlankSuffix | src/components/EditProfileDialog.tsx:69 | `trimEnd` removes exactly a blank suffix behind text that does not end with whitespace |
| Text.TrimPadded | src/components/EditProfileDialog.tsx:69 | `trim()` of a trimmed text with blank padding on both sides is that text |
| Text.AsciiLower | src/components/GalleryCard.tsx:10 | ASCII capitals map to their lower-case letters; every other character is kept |
| Text.LowerAscii | src/components/GalleryCard.tsx:10 | same length, each character folded by `AsciiLower` |
| Text.LastDot | src/components/UploadDialog.tsx:136 | the index found is a dot (or -1) and no dot follows it |
| Text.LastDotUnique | src/components/UploadDialog.tsx:136 | any index that is a dot (or -1) with no dot after it is the one `LastDot` finds |
| Text.LastDotAppend | src/components/UploadDialog.tsx:136 | appending dot-free text does not move the last dot |
| Text.AfterLastDot | src/components/UploadDialog.tsx:136 | the result is the longest dot-free suffix of the name: it has no dot and is either the whole name or preceded by a dot |
| Text.AfterLastDotAppend | src/components/UploadDialog.tsx:136 | appending dot-free text to a name extends its last-dot suffix by that text |
| Text.AfterLastDotOfJoin | src/components/UploadDialog.tsx:137 | for any stem, the text after the last dot of `stem + "." + ext` is `ext` when `ext` has no dot |
| Upload.CheckAccepts | src/components/UploadDialog.tsx:109-116 | a file passes the loop's two tests exactly when its type starts with image/ or video/ and its size is at most 25·1024·1024; "too large" is reported exactly for media files over the limit |
| Upload.Check | src/components/UploadDialog.tsx:109-116 | the loop's verdict on one file, type test first and size test second; `CheckAccepts` states when it accepts and when it reports "too large" |
| Upload.ValidFiles | src/components/UploadDialog.tsx:107-118 | the kept files of a selection, in order; `ValidFilesMembership`, `ValidFilesAppend` and `InvalidFileSkipped` state what it keeps, and `SelectValidFiles` is proved equal to it |
| Upload.Rejections | src/components/UploadDialog.tsx:107-118 | one error message per refused file, in order; `EveryFileAccountedFor` and `OversizedFileScenario` state its relation to `ValidFiles`, and `SelectValidFiles` is proved equal to it |
| Upload.ValidFilesAppend | src/components/UploadDialog.tsx:107-118 | the kept files of a concatenated selection are the kept files of each part, in order |
| Upload.ValidFilesMembership | src/components/UploadDialog.tsx:107-118 | a file is kept exactly when it was selected and is acceptable |
| Upload.InvalidFileSkipped | src/components/UploadDialog.tsx:108-117 | inserting an unacceptable file anywhere in a selection does not change which files are kept |
| Upload.EveryFileAccountedFor | src/components/UploadDialog.tsx:108-117 | the number of kept files plus the number of error messages equals the number of selected files |
| Upload.OversizedFileScenario | src/components/UploadDialog.tsx:113-116 | of three media files with a 30 MiB image in the middle, the outer two are kept and one "too large" message names the middle one |
| Upload.SelectValidFiles | src/components/UploadDialog.tsx:107-118 | the loop returns exactly the kept files and the error messages of the selection, in selection order |
| Upload.RowTitle | src/components/UploadDialog.tsx:150 | "none" for a blank title, otherwise the title exactly as typed; never blank |
| Upload.RowStatus | src/components/UploadDialog.tsx:158 | approved exactly for admins, pending otherwise, never rejected |
| Upload.StorageNameKeepsExtension | src/components/UploadDialog.tsx:136-137 | the storage path has the same last-dot suffix as the file name, and a dot precedes it |
| Upload.StorageName | src/components/UploadDialog.tsx:136-137 | the path `stamp-random.extension`; `StorageNameKeepsExtension` states that it keeps the file's extension |
| Upload.UploadOne | src/components/UploadDialog.tsx:140-161 | a file's row is inserted exactly when its storage upload and its insert both succeed; a storage failure ends the file's sequence |
| Upload.UploadOneFields | src/components/UploadDialog.tsx:135-159 | the path keeps the file's extension; every attempted row carries the row title, the description or null when it is empty, the public URL of the path and the uploader's status |
| Upload.UploadBatch | src/components/UploadDialog.tsx:135-164 | one outcome per file, each the file's own sequence whatever happens to the others |
| Upload.InsertedRowsWellFormed | src/components/UploadDialog.tsx:150-158 | every inserted row has a non-blank title and no empty description, and is approved for admins and pending otherwise |
| Upload.UploadDialog.constructor | src/components/UploadDialog.tsx:34-42 | the dialog opens with empty fields, no files or previews, not uploading and no crop |
| Upload.UploadDialog.HandleFileChange | src/components/UploadDialog.tsx:103-124 | every rejected file gets its message; with no valid file the batch is unchanged; otherwise the valid files replace the batch and each gets a fresh preview URL of its own file |
| Upload.UploadDialog.StartCrop | src/components/UploadDialog.tsx:243 | the crop view opens on the chosen non-video preview |
| Upload.UploadDialog.OnCropComplete | src/components/UploadDialog.tsx:44-46 | the reported pixel area is recorded |
| Upload.UploadDialog.CancelCrop | src/components/UploadDialog.tsx:219 | the crop view closes |
| Upload.UploadDialog.HandleCropSave | src/components/UploadDialog.tsx:78-101 | without a crop index, without an area, or when drawing fails nothing changes; otherwise only entry k of the files and previews is replaced, by a JPEG with the old name and its new URL; the old URL is revoked and the crop view closes |
| Upload.UploadDialog.ResetForm | src/components/UploadDialog.tsx:171-174 | title, description, files and previews become empty and the dialog stays consistent |
| Upload.UploadDialog.ClearAll | src/components/UploadDialog.tsx:256-259 | files and previews become empty |
| Upload.UploadDialog.HandleUpload | src/components/UploadDialog.tsx:126-181 | with no files nothing is called and nothing changes; otherwise the outcome is every file's sequence, success means every row was inserted, only success resets title, description, files and previews, and uploading ends false |
| ProfileEdit.NormalizeUrl | src/components/EditProfileDialog.tsx:67-74 | the result is "" exactly for blank input; any other result is an http(s) URL without surrounding whitespace |
| ProfileEdit.HttpsPrefixIsWebUrl | src/components/EditProfileDialog.tsx:73 | "https://" in front of a non-empty trimmed text is a web URL |
| ProfileEdit.NormalizeOfTrim | src/components/EditProfileDialog.tsx:68-73 | the result is decided by the trimmed input alone: "" when it is empty, itself when it names an http(s) scheme, else it behind "https://" |
| ProfileEdit.NormalizeKeepsScheme | src/components/EditProfileDialog.tsx:69-72 | a trimmed input starting with http:// or https:// is returned trimmed and otherwise unchanged |
| ProfileEdit.NormalizeAddsHttps | src/components/EditProfileDialog.tsx:73 | any other non-blank input becomes "https://" followed by the trimmed input |
| ProfileEdit.NormalizeFixesWebUrl | src/components/EditProfileDialog.tsx:67-74 | a stored-form link is its own normal form |
| ProfileEdit.NormalizeIdempotent | src/components/EditProfileDialog.tsx:67-74 | normalising twice equals normalising once |
| ProfileEdit.NormalizeOnlySeesTrim | src/components/EditProfileDialog.tsx:68-73 | two inputs with the same trim normalise alike |
| ProfileEdit.NormalizeExampleHost | src/components/EditProfileDialog.tsx:73 | "example.com" becomes "https://example.com" |
| ProfileEdit.PaddedHostTrims | src/components/EditProfileDialog.tsx:69 | "  example.com " and "example.com" have the same trim |
| ProfileEdit.NormalizeExamplePadded | src/components/EditProfileDialog.tsx:69-73 | "  example.com " becomes "https://example.com" |
| ProfileEdit.NormalizeExampleHttps | src/components/EditProfileDialog.tsx:70-71 | "https://x.com" is kept as it is |
| ProfileEdit.NormalizeExampleBlank | src/components/EditProfileDialog.tsx:68 | "" and a whitespace-only input become "" |
| Schema.NullIfEmpty | src/components/EditProfileDialog.tsx:86-88 | null exactly for "", otherwise the string itself; the upload row's description (src/components/UploadDialog.tsx line 156) is built the same way |
| ProfileEdit.SavePayload | src/components/EditProfileDialog.tsx:79-89 | the name is sent untrimmed; the image URL is null exactly when empty; each link is null exactly when blank and is otherwise its `NormalizeUrl` value, a web URL and never "" |
| ProfileEdit.FieldText | src/components/EditProfileDialog.tsx:31-35 | a field shows the stored value or "" for null; `SaveUnchangedRoundTrip` and `StoredLinkIsFixed` state that saving it back restores the stored value |
| ProfileEdit.SaveUnchangedRoundTrip | src/components/EditProfileDialog.tsx:84-89 | opening the editor on a profile in saved form and saving without edits writes back the stored values |
| ProfileEdit.StoredLinkIsFixed | src/components/EditProfileDialog.tsx:87-88 | a stored link survives its text field and the normaliser unchanged |
| ProfileEdit.AvatarFileNameKeepsExtension | src/components/EditProfileDialog.tsx:43-44 | the avatar path has the same last-dot suffix as the file name, and a dot precedes it |
| ProfileEdit.AvatarFileName | src/components/EditProfileDialog.tsx:43-44 | the path `id-stamp.extension`; `AvatarFileNameKeepsExtension` states that it keeps the file's extension |
| ProfileEdit.EditProfileDialog.constructor | src/components/EditProfileDialog.tsx:30-35 | the fields start from the profile, with null shown as "", not uploading and not saving |
| ProfileEdit.EditProfileDialog.HandleImageUpload | src/components/EditProfileDialog.tsx:37-65 | without a file nothing changes; otherwise the file goes to the avatar path, the image URL becomes its public URL only on success, and uploading ends false |
| ProfileEdit.EditProfileDialog.HandleSave | src/components/EditProfileDialog.tsx:76-102 | the update sent is the save payload of the current fields; the dialog closes exactly on success; saving ends false |
| AdminUsers.AdminRoleRows | src/components/AdminUserManagement.tsx:39-42 | the rows returned are exactly the table's rows with role "admin" |
| AdminUsers.AdminIds | src/components/AdminUserManagement.tsx:44-48 | the admin set is the user ids of the returned rows, and empty when the role query failed |
| AdminUsers.DisplayEmail | src/components/AdminUserManagement.tsx:52 | a missing or empty email shows as "No email", any other email as itself |
| AdminUsers.JoinUsers | src/components/AdminUserManagement.tsx:50-55 | one entry per auth user in listing order, id and creation time copied, flagged admin exactly when the id is in the admin set |
| AdminUsers.JoinReflectsRoleTable | src/components/AdminUserManagement.tsx:39-54 | a listed user shows as admin exactly when the role table holds an admin row for that user; with the role query failed, nobody does |
| AdminUsers.RemoveAdminRows | src/components/AdminUserManagement.tsx:70-74 | every (user, "admin") row goes and every other row stays |
| AdminUsers.ToggleRows | src/components/AdminUserManagement.tsx:68-93 | the role table after a successful toggle: the delete of the admin rows for an admin, otherwise the insert of one; `ToggleFlipsOnlyThatUser` and `ToggleTwiceRestores` state its effect |
| AdminUsers.ToggleFlipsOnlyThatUser | src/components/AdminUserManagement.tsx:68-93 | a toggle drawn from the current flag flips that user's membership and leaves every other user's unchanged |
| AdminUsers.ToggleTwiceRestores | src/components/AdminUserManagement.tsx:68-108 | two successive successful toggles give every user back their original membership |
| AdminUsers.AdminUserManagement.constructor | src/components/AdminUserManagement.tsx:16-18 | the panel starts with no users, loading, and nothing in flight |
| AdminUsers.AdminUserManagement.FetchUsers | src/components/AdminUserManagement.tsx:21-59 | a failed listing keeps the user list; otherwise the list becomes the join with the admin ids; loading ends false |
| AdminUsers.AdminUserManagement.BeginToggle | src/components/AdminUserManagement.tsx:65-66 | the toggled user's button is disabled and nobody else's |
| AdminUsers.ButtonDisabled | src/components/AdminUserManagement.tsx:143 | a button is disabled exactly while a toggle for its own user is in flight; `BeginToggle` and `CompleteToggle` state when that holds |
| AdminUsers.AdminUserManagement.CompleteToggle | src/components/AdminUserManagement.tsx:68-110 | on success the table is toggled and a refetch starts; on failure the table is unchanged; no button stays disabled |
| Gallery.InsertByDate | src/components/Gallery.tsx:30 | inserting into a newest-first list keeps it newest first |
| Gallery.InsertByDateKeepsRows | src/components/Gallery.tsx:30 | the insertion adds exactly the one row |
| Gallery.NewestFirst | src/components/Gallery.tsx:30 | the ordered rows are newest first and as many as the input |
| Gallery.NewestFirstKeepsRows | src/components/Gallery.tsx:30 | ordering keeps every row with its multiplicity |
| Gallery.VisibleRows | src/components/Gallery.tsx:32-36 | every row kept is visible to the viewer and came from the input |
| Gallery.VisibleRowsKeepOrder | src/components/Gallery.tsx:30-36 | filtering a newest-first list leaves it newest first |
| Gallery.VisibleRowsCount | src/components/Gallery.tsx:32-36 | each visible row is kept as often as it occurs, every other row is dropped |
| Gallery.GalleryQueryContents | src/components/Gallery.tsx:24-42 | the list is newest first; a viewer gets exactly the approved rows; an admin gets exactly the approved and pending rows; no rejected row is ever listed |
| Gallery.GalleryQuery | src/components/Gallery.tsx:24-42 | the viewer's filter applied to the table sorted newest first; `GalleryQueryContents` and `GalleryQueryMembership` state its order and contents |
| Gallery.OnTileClick | src/components/Gallery.tsx:116 | a click opens the detail view only for an approved row and otherwise leaves the selection alone |
| Gallery.Controls | src/components/Gallery.tsx:119-160 | the pending badge shows exactly on pending rows; approve and reject exactly on pending rows for admins; delete exactly on approved rows for admins |
| Gallery.ControlsExclusive | src/components/Gallery.tsx:119-160 | a non-admin sees no control, no tile offers both moderation and deletion, and a rejected row shows nothing |
| Gallery.ModerateRow | src/components/Gallery.tsx:58-63 | rows with that id get the chosen status and every other row is unchanged |
| Gallery.DeleteRow | src/components/Gallery.tsx:75-80 | exactly the rows with that id disappear |
| Gallery.GalleryQueryMembership | src/components/Gallery.tsx:24-42 | a row is listed exactly when it is in the table and its status is visible to the viewer |
| Gallery.ApprovalListsRow | src/components/Gallery.tsx:58-63 | after an approval the approved row is listed for every viewer |
| Gallery.RejectionUnlistsRow | src/components/Gallery.tsx:58-63 | after a rejection no row with that id is listed for anybody, admins included |
| Gallery.Body | src/components/Gallery.tsx:103-168 | a spinner while loading, the grid of the returned rows when there are any, otherwise the empty notice |
| Gallery.DetailView | src/components/Gallery.tsx:172-200 | the dialog shows the title, the description only when present, and a video exactly when the URL is a video URL, else an image with the title as alt text |
| Gallery.DetailAgreesWithTile | src/components/Gallery.tsx:183 | the dialog's media choice, heading and caption equal the tile's |
| GalleryCard.VideoExtensionHasNoDot | src/components/GalleryCard.tsx:10 | a text that folds to mp4, webm or ogg has no dot |
| GalleryCard.IsVideo | src/components/GalleryCard.tsx:10 | the anchored, case-insensitive pattern; `IsVideoByLastExtension` proves it equal to a test of the text after the last dot |
| GalleryCard.VideoHasVideoExtension | src/components/GalleryCard.tsx:10 | a video URL has a dot, and the text after its last dot folds to a listed extension |
| GalleryCard.IsVideoByLastExtension | src/components/GalleryCard.tsx:10 | a URL is a video exactly when it has a dot and the text after its last dot, ASCII-lower-cased, is mp4, webm or ogg |
| GalleryCard.SeparatorNotInExtension | src/components/GalleryCard.tsx:10 | a '?' or '#' cannot occur in a text that folds to a listed extension |
| GalleryCard.QueryOrFragmentDefeatsVideo | src/components/GalleryCard.tsx:10 | a URL ending in a dot-free query string or fragment is not a video, whatever precedes it |
| GalleryCard.IsVideoExamples | src/components/GalleryCard.tsx:10 | "clip.MP4" and "a.b.webm" are videos; "mp4" and "clip.mp4?raw=1" are not |
| GalleryCard.RenderCard | src/components/GalleryCard.tsx:19-42 | a video element exactly for a video URL, otherwise an image with the title as alt text; the title always; the description only when non-null and non-empty |
| HallOfFameCard.LinkText | src/components/HallOfFameCard.tsx:86-88 | a link of at most 30 characters is shown whole; a longer one as its first 30 characters and "..."; never more than 33 characters |
| HallOfFameCard.LinkTextIdempotent | src/components/HallOfFameCard.tsx:86-88 | shortening a shown text again changes nothing |
| HallOfFameCard.LinkTextUnchangedIff | src/components/HallOfFameCard.tsx:86-88 | the shown text equals the link exactly when the link has at most 30 characters or is a 33-character link already ending in "..." |
| HallOfFameCard.LinkAnchor | src/components/HallOfFameCard.tsx:76-91 | a link renders only when non-null and non-empty, pointing at the link with its shortened text |
| HallOfFameCard.RenderProfile | src/components/HallOfFameCard.tsx:54-147 | photo exactly when the image URL is present; both links by `LinkAnchor`; the no-link notice exactly when both links are absent; edit exactly when unlocked, whoever views; the lock button exactly for admins, showing the stored flag |
| HallOfFameCard.NoLinkNoticeIffNoAnchor | src/components/HallOfFameCard.tsx:108 | the no-link notice appears exactly when the card shows no link |
| HallOfFameCard.ToggleLockRow | src/components/HallOfFameCard.tsx:32-35 | rows with the card's id get the negation of the card's flag and every other row is unchanged |
| HallOfFameCard.HandleToggleLock | src/components/HallOfFameCard.tsx:29-44 | a failed update changes nothing; a successful one stores the negation of the displayed flag on that id, changes no other field of those rows, and touches no other row |
| HallOfFameCard.ToggleTwiceRestores | src/components/HallOfFameCard.tsx:32-35 | two toggles, each from a card showing the current row, restore the table |
| HallOfFameCard.StaleToggleWritesNothingNew | src/components/HallOfFameCard.tsx:34 | a card whose copy of the row is out of date writes back the stored flag |
| ModerationPage.RouteEffect | src/pages/Moderation.tsx:14-22 | no navigation while loading; "/auth" without a user, checked before the admin test; "/" for a signed-in non-admin; staying otherwise |
| ModerationPage.Render | src/pages/Moderation.tsx:24-34 | a spinner exactly while loading; the admin tabs exactly for a loaded admin user; nothing otherwise |
| ModerationPage.GateConsistent | src/pages/Moderation.tsx:14-34 | the page renders nothing exactly when it navigates away, and the tabs exactly when it stays after loading |

## Left out

- Backend semantics. Every storage and database call is abstracted. Its success and its data are parameters, and a table is a sequence of rows. The model knows no more about the backend than "update or delete by id", "delete the rows matching a user id and a role", "insert as an append" and "select with a filter and an order".
- Concurrency and change feeds. `Promise.all` is modelled as independent per-file sequences whose outcomes are all known. The realtime channels that trigger refetches are not part of this model.
- Canvas cropping. The JPEG re-encoding, zoom and crop offsets are not modelled. The crop's result is a parameter: a blob, or None when drawing fails.
- `Date.now()` and `Math.random()`. They appear in storage names only as opaque text parameters.
- Unenforced limits. `uploadSchema` is declared and never used. The one-file limit for non-admins comes only from the input's `multiple` attribute. The title and description lengths are only `maxLength` attributes. None of these is enforced by the model.
- Upload.UploadDialog.HandleCropSave: the cropped JPEG is not re-checked against the 25 MiB limit, because the code does not re-check it.
- Upload.UploadDialog.HandleFileChange: previews replaced by a new selection are not revoked, because the code does not revoke them. Their serials simply stop being live.
- Upload.UploadDialog.ClearAll: the cleared previews are not revoked either, because the code does not revoke them.
- Upload.UploadDialog.HandleUpload: the previews dropped by the reset after a full success are not revoked, because the code does not revoke them.
- HallOfFameCard.LinkText: lengths count Unicode code points. JavaScript counts UTF-16 code units, so the two differ for characters outside the Basic Multilingual Plane.
- ProfileEdit.EditProfileDialog: the dialog itself does not check the lock. Only the card's edit button is hidden on a locked profile, and the model follows the code.
- Text.Trim: the whitespace set is the ECMAScript WhiteSpace and LineTerminator set as of ES2023. A different engine's set would need a change to `IsWhitespace`.
- Pages and components not part of this model:
  - src/pages/Auth.tsx: email validity is a library check, and the rest is backend authentication.
  - src/components/ModerationQueue.tsx, src/components/HallOfFame.tsx and src/components/UploadButton.tsx: fetch-and-render code and single backend updates.
  - src/components/LoadingAnimation.tsx, src/components/HeroSection.tsx and src/pages/Index.tsx: timers, random decoration and a session flag.
- Toast messages, console logging, styling and layout.
