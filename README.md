# FurryFriends image sharing, modelled in Dafny

FurryFriends is a small Flask site for pet pictures. It has three parts:

- A browser script (`static/js/main.js`) runs the page: modal dialogs, an image lightbox,
  file selection with a preview, AJAX login and register forms, and navigation guards.
- A Flask application (`app.py`) registers and logs in users, validates and stores uploads,
  and lists images.
- An offline job (`thumbnail_worker.py`) finds image rows that have no thumbnail, derives
  each thumbnail's blob name from the original's URL, and stores the thumbnail URL. Each row
  is committed on its own, and a failed row is rolled back without stopping the rest.

The project has five modules:

- `Common` (`common.dfy`): the `Option` type.
- `Strings` (`strings.dfy`): the string operations the code relies on.
  - Python's `s.rsplit(c, 1)[1]` (when `c` occurs), `s.split(c)[-1]` and `s.split(c)[0]`
    become `AfterLast` and `BeforeFirst`.
  - `lower()` becomes `Lower`.
  - An unanchored regular-expression search for a literal becomes `Contains`.
- `Client` (`client.dfy`): the browser script.
  - A `Page` object stands for one loaded page's DOM and the script's `AppState`. Its methods
    are the event handlers, and each states the page's whole new state.
  - Every asynchronous call is split in two. The handler that starts it records a request
    (a `fetch`) or a read (a `FileReader`) as in flight. A later method delivers the result
    for the `k`-th one in flight, so results may arrive in any order.
  - Popups are modelled as the last message shown. A granted or scheduled navigation is the
    target the page is leaving for.
- `Server` (`server.dfy`): the Flask routes over an abstract database.
  - `Tables` holds the committed user and image tables and their key sequences.
  - The `Database` object holds the committed tables plus the session's one pending change,
    and offers `Stage` (`db.session.add`), `Commit` and `Rollback`.
  - Register and upload are methods that change the database step by step, as the routes do.
  - `allowed_file` and the two listings are functions.
- `ThumbnailWorker` (`worker.dfy`):
  - the pending-row predicate and the two filename derivations, as functions;
  - `generate_thumbnails`, as a loop over the selected rows. Each iteration either commits
    the row's thumbnail URL or rolls the row back.

The foreign libraries become parameters that the caller supplies:

- password hashing and checking, `secure_filename` and `uuid4` are functions or values;
- Blob Storage uploads and the worker's download-resize-upload chain are success flags or
  URL functions;
- a failing database commit is a flag.

The following behaviours are modelled as the code has them:

- `closeModal` always unlocks page scroll, even when another modal is still shown.
  `openLoginModal` opens login and then closes register. On a page that has the register
  modal it therefore ends with scroll unlocked; on one without it, `closeModal` does nothing
  and login's lock stays.
- `openImageModal` shows the lightbox by setting its display directly. It therefore does not
  lock scroll, but closing it through `closeModal` unlocks scroll.
- `file.type.match('image.*')` is an unanchored pattern, so every type that contains
  "image" passes, `application/x-image` included.
- A file's read result is not checked against the current selection. A read that completes
  late takes the selection, even when the name shown is another file's.
- A string attribute that is missing or empty falls back through `||`.
- A successful form reply without a `redirect` navigates to "undefined".
- `app.py` stores a new upload with `thumbnailURL = originalURL`, so the worker never selects
  it unless the URL is empty (`UploadedRowsArePendingOnlyIfUrlEmpty`).
- If `secure_filename` drops the name's '.', `rsplit('.', 1)[1]` raises. The upload then
  fails with a rollback (`UploadFailed`) even though `allowed_file` accepted the raw name.

## Model

| member | source | states |
|---|---|---|
| Strings.AfterLast | thumbnail_worker.py:45 | The result is the longest suffix without `c`. It equals the input when `c` is absent; otherwise the character before it is `c`. |
| Strings.BeforeFirst | thumbnail_worker.py:74 | The result is the longest prefix without `c`. It equals the input when `c` is absent; otherwise the character after it is `c`. |
| Strings.AfterLastOfSplit | app.py:121 | For `a + [c] + b` with no `c` in `b`, the text after the last `c` is exactly `b`. |
| Strings.BeforeFirstOfSplit | thumbnail_worker.py:74 | For `a + [c] + b` with no `c` in `a`, the text before the first `c` is exactly `a`. |
| Strings.Lower | app.py:121 | Keeps the length and leaves no ASCII capital. Each capital becomes the small letter at the same place in the alphabet, and every other character is kept. |
| Strings.LowerIdempotent | app.py:121 | Lower-casing twice gives the same as lower-casing once. |
| Strings.LowerKeepsAbsent | app.py:140 | A character that is not an ASCII letter, such as '.' or '/', is in the lower-cased string exactly when it is in the original. |
| Strings.Contains | static/js/main.js:237 | Holds exactly when the pattern occurs at some position of the text. |
| Server.WithThumbnail | thumbnail_worker.py:84-88 | No row is added, removed, moved or re-keyed. Rows with another key are untouched. A row with that key gets the URL and keeps its caption, owner and original URL. |
| Server.WithThumbnailChangesAtMostOne | thumbnail_worker.py:84-88 | With unique keys the update changes at most one row. |
| Server.ApplyTouchesOneTable | app.py:24-45 | Each committed change touches one table. A new user takes the next user key and the other users are kept. A new image row takes the next image key and is appended after the existing rows, which are kept. The thumbnail update keeps the users, both key sequences and the number of rows. |
| Server.ApplyPreservesValid | app.py:24-45 | Every commit that the unique-username constraint admits keeps the keys unique, ascending and below their sequences. |
| Server.InsertUserAddsOne | app.py:72-76 | Inserting a fresh name adds exactly that one name to the user table. |
| Server.Database.constructor | app.py:195-196 | A new database has empty tables, key sequences at zero and no pending change. |
| Server.Database.Stage | app.py:75 | `db.session.add`: the change is pending and the committed tables are untouched. |
| Server.Database.Commit | app.py:76 | The commit succeeds exactly when the store does not fail and the change keeps user names unique. On success the change is applied and nothing is pending; on failure the tables and the pending change are as before. |
| Server.Database.Rollback | app.py:82 | The pending change is discarded and the committed tables are untouched. |
| Server.AllowedFile | app.py:118-121 | True exactly when the name has a '.' whose following text has no '.' and, lower-cased, is png, jpg, jpeg, gif, bmp or webp. |
| Server.AllowedFileIgnoresCase | app.py:121 | A name passes exactly when its lower-cased form passes, so "PHOTO.JPG" is treated as "photo.jpg". |
| Server.ExtensionIsUnique | app.py:121 | The only '.' with no '.' after it is the one `rsplit('.', 1)` splits at. |
| Server.Register | app.py:60-86 | The outcome is UsernameTaken exactly when the lookup succeeds and the name exists. It is Registered exactly when the name is new, both fields are present and the commit succeeds; then exactly one user is added, with that name, the hashed password and the next key. Any other outcome leaves the tables unchanged and nothing pending. |
| Server.Login | app.py:88-103 | The login succeeds exactly when the name exists, a password was sent and the check passes; it yields that user's key. It crashes exactly when the name exists and no password was sent. |
| Server.LoginAfterRegister | app.py:33-37 | A user who registered with a password can log in with it, given a hash check that accepts its own hashes; the login yields the key the registration assigned. |
| Server.BlobName | app.py:139-141 | The name exists exactly when the sanitized name has a '.'. It is "<uuid>." followed by the lower-cased text after the sanitized name's last '.', so its extension has no capital letter. |
| Server.BlobNameParts | app.py:139-141 | The blob name exists exactly when the sanitized name has a '.'. It is "<uuid>.<ext>", with ext the lower-cased text after the sanitized name's last '.'; splitting it gives back the uuid and ext, and its length is theirs plus one, so nothing else lies between them. |
| Server.UploadImage | app.py:123-178 | The checks run in order: missing field, empty name, disallowed type. Each is rejected without touching the database. A stored upload appends exactly one row, whose values are listed below this table. Every failure after validation leaves the tables unchanged with nothing pending. |
| Server.StoreUpload | app.py:138-175 | The work inside the route's `try`. The row is stored exactly when the blob name exists, the blob is stored and the commit succeeds. It then has the next key and the blob's URL as both URLs. Any failure rolls back and leaves the tables unchanged. |
| Server.Filter | app.py:183 | A `WHERE` clause: each row occurs in the result as often as in the input if selected, and not at all otherwise. |
| Server.FilterKeepsDistinct | app.py:183 | Selecting rows keeps keys unique. |
| Server.InsertById | app.py:188 | Insertion adds exactly the one element: the multiset of the result is the input's plus `x`. |
| Server.SortById | app.py:188 | `ORDER BY imageid DESC` returns a permutation of its input. |
| Server.InsertByIdDescending | app.py:188 | Inserting into a descending sequence keeps it descending. |
| Server.InsertByIdStrict | app.py:188 | Inserting a new key into a strictly descending sequence keeps it strictly descending. |
| Server.SortByIdDescending | app.py:188 | The sorted sequence is descending by key. |
| Server.SortByIdStrict | app.py:188 | With unique keys the sorted sequence is strictly descending. |
| Server.AscendingIsDistinct | app.py:41 | Ascending primary keys are unique. |
| Server.UserImages | app.py:183 | Holds exactly the current user's rows, each as often as in the table, newest key first; strictly so when keys are unique. |
| Server.Gallery | app.py:188 | A permutation of all rows, newest key first; strictly so when keys are unique. |
| Server.ListingsStrictOnValidTables | app.py:180-189 | On a valid database both listings are strictly descending by key. |
| ThumbnailWorker.PendingImages | thumbnail_worker.py:29-30 | A row is selected exactly when it is in the table and its thumbnail URL is NULL or empty. The selection keeps keys unique. |
| ThumbnailWorker.OriginalFilename | thumbnail_worker.py:45 | The name is the URL's suffix after its last '/', and it has no '/'. |
| ThumbnailWorker.ThumbnailFilenameShape | thumbnail_worker.py:74 | The thumbnail name is "thumb_", then the longest start of the original's name with no '.' (the whole name when it has none), then ".jpg". So the text after its last '.' is always "jpg". |
| ThumbnailWorker.UploadedBlobRoundTrip | thumbnail_worker.py:45-50 | For a blob stored at "<base>/<uuid>.<ext>", the worker reads back exactly "<uuid>.<ext>". It names that blob's thumbnail "thumb_<uuid>.jpg". |
| ThumbnailWorker.UploadedRowsArePendingOnlyIfUrlEmpty | thumbnail_worker.py:29 | A row created by the upload route is selected by the job exactly when its URL is empty. |
| ThumbnailWorker.CountSucceededBounds | thumbnail_worker.py:38-92 | The success count is at most the number of selected rows. It equals that number exactly when every row succeeds. |
| ThumbnailWorker.PendingIdsArePending | thumbnail_worker.py:29 | With unique keys, a row's key is among the selected keys exactly when the row is pending. |
| ThumbnailWorker.JobAppliedSkip | thumbnail_worker.py:94-97 | A row whose work fails stays as it was, and the rows are still as the job leaves them. |
| ThumbnailWorker.JobAppliedStore | thumbnail_worker.py:84-89 | Storing a succeeding pending row's URL changes only that row, which gets its thumbnail URL. |
| ThumbnailWorker.JobAppliedToAllPending | thumbnail_worker.py:40-97 | After every selected row has been handled, every row of the table is as `AfterJob` leaves it. |
| ThumbnailWorker.ProcessRow | thumbnail_worker.py:41-97 | One row. The result is true exactly when the original URL, the imaging and the commit all succeed, and the count goes up by one exactly then. A failing row is rolled back. Users and key sequences are unchanged. |
| ThumbnailWorker.GenerateThumbnails | thumbnail_worker.py:14-106 | Returns the number of selected rows whose work succeeded, which is at most the number selected. Each such row holds its thumbnail URL; every other row, the users and the key sequences are unchanged. |
| Client.IsHomePage | static/js/main.js:37-41 | Exactly the paths "", "/" and "/index" are the home page. Paths are compared whole, so "/index.html" and "/index/" are not. |
| Client.IsMyImagesPage | static/js/main.js:43-46 | The MyImages page is exactly "/images", which is never a home path. |
| Client.MatchesImageType | static/js/main.js:237 | True exactly when "image" occurs somewhere in the media type. |
| Client.ImageTypeMatchIsUnanchored | static/js/main.js:237 | Every type with "image" anywhere in it passes, whatever comes before or after it. |
| Client.ShortTypesNeverMatch | static/js/main.js:237 | A type shorter than "image" never passes. This includes the empty type a browser reports for an unknown file. |
| Client.GalleryImageUrl | static/js/main.js:208 | The lightbox shows either the item's original URL or the clicked image's src, never another string. A non-empty original wins. The URL is blank only when both are blank. |
| Client.GalleryCaption | static/js/main.js:209 | The caption is the item's non-empty caption, otherwise "Pet Image"; it is never empty. |
| Client.RedirectTarget | static/js/main.js:330 | A redirect in the reply is followed as it is. The target is "undefined" exactly when the reply has no redirect, or its redirect is that string. |
| Client.Page.constructor | static/js/main.js:4-7 | A loaded page has nothing shown, selected, in flight or scheduled. |
| Client.Page.OpenModal | static/js/main.js:52-58 | A present modal becomes visible and scroll locks; with an absent one nothing changes. |
| Client.Page.CloseModal | static/js/main.js:61-67 | A present modal is hidden and scroll unlocks, whatever else is still shown. |
| Client.Page.OpenLoginModal | static/js/main.js:70-73 | Login is shown if present and register is hidden; upload and lightbox are as before. Scroll is unlocked whenever register is present. |
| Client.Page.OpenRegisterModal | static/js/main.js:76-79 | The mirror image: register is shown, login hidden, and the others are as before. |
| Client.Page.SwitchToRegister | static/js/main.js:105-108 | Ends as `OpenRegisterModal` does. |
| Client.Page.SwitchToLogin | static/js/main.js:111-114 | Ends as `OpenLoginModal` does. |
| Client.Page.CloseButtonClick | static/js/main.js:119-126 | A tagged close button closes its modal unless that modal is the lightbox; an untagged one does nothing. |
| Client.Page.WindowClick | static/js/main.js:129-133 | A click on a modal's backdrop closes that modal, the lightbox included; any other click changes nothing. |
| Client.Page.OpenImageModal | static/js/main.js:167-183 | With the lightbox present: it shows the given image and caption and binds its click handler. Scroll is untouched. |
| Client.Page.LightboxImageClick | static/js/main.js:178-188 | Once bound, a click on the lightbox image closes it through `closeModal`. |
| Client.Page.PreviewThumbnailClick | static/js/main.js:193-200 | With the lightbox present, it opens on the preview, is captioned with the file name shown, and binds its click-to-close handler. Without it, the lightbox's image, caption, binding and visibility are as before. |
| Client.Page.GalleryImageClick | static/js/main.js:203-213 | Inside a gallery item, with the lightbox present: it opens on that item's URL and caption and binds its click-to-close handler. Outside a gallery item, or without the lightbox, its image, caption, binding and visibility are as before. |
| Client.Page.HandleFileSelect | static/js/main.js:220-257 | The checks run in order. Too large: a popup, the input is cleared and the selection kept. Not an image type: a popup, the input and the selection are cleared. Otherwise the name is shown and a read starts, and the selection does not change yet. |
| Client.Page.ChooseFile | static/js/main.js:280-282 | Picking a file runs the selection handler on it. |
| Client.Page.HandleDrop | static/js/main.js:479-488 | A non-empty drop runs the selection handler on its first file; an empty drop changes nothing. |
| Client.Page.OnReadComplete | static/js/main.js:249-254 | The completed read's file becomes the selection and the preview shows it, whichever read was started last. |
| Client.Page.RemoveSelectedFile | static/js/main.js:260-267 | The preview is hidden, the input cleared and nothing selected. |
| Client.Page.SubmitUpload | static/js/main.js:294-301 | The upload goes ahead exactly when a file is selected; the popup says which happened. |
| Client.Page.SubmitForm | static/js/main.js:309-322 | The form post is prevented and exactly one AJAX post is put in flight. |
| Client.Page.OnFormReply | static/js/main.js:324-337 | Success: the success popup, that form's modal closed and the redirect scheduled. Failure: the server's message or the fallback, with the modal as before. A thrown error: the fixed error popup. |
| Client.Page.HomeLinkClick | static/js/main.js:393-400 | The link is blocked with a popup exactly on the home page; elsewhere it is followed. |
| Client.Page.MyImagesLinkClick | static/js/main.js:405-429 | On /images: a popup and no request. Elsewhere the default navigation is stopped and one authentication check is put in flight. |
| Client.Page.UploadLinkClick | static/js/main.js:434-438 | The default is stopped and one authentication check is put in flight. |
| Client.Page.OnAuthReply | static/js/main.js:82-96 | Only an authenticated reply grants: the MyImages navigation happens or the upload modal opens. A refusal and a failed fetch show the same popup and change nothing else. |
| Client.MyImagesLinkOnHomePage | static/js/main.js:405-429 | On every home path, with any modals, the MyImages link starts exactly one authentication check and shows no popup. |
| Client.HomeLinkOnMyImagesPage | static/js/main.js:393-400 | On the MyImages page a home link is followed, with no popup. |
| Client.ScenarioScrollUnlockedWithModalOpen | static/js/main.js:52-79 | Opening login over an open upload modal leaves both shown with page scroll unlocked. |
| Client.ScenarioLateReadWins | static/js/main.js:220-257 | Two valid picks whose reads complete in the opposite order. The first file wins the selection while the name shown is the second's. |
| Client.ScenarioDropValidJpeg | static/js/main.js:479-488 | A dropped 2 MB JPEG is selected with no popup, and the upload then goes ahead. |
| Client.ScenarioMyImagesGuard | static/js/main.js:405-429 | On /images the link starts no request. From the home page, a refused check leaves the page with the login popup, and a granted one navigates to /images. |
| Client.ScenarioLoginSuccess | static/js/main.js:309-338 | A successful login reply closes the login modal, shows the success popup and schedules the redirect. |

A stored upload (`Server.UploadImage`) appends one row with:

- the next key;
- the caption, defaulting to "";
- the current user as owner;
- the stored blob's URL as both the original and the thumbnail URL.

## Left out

- A JSON `"redirect": null` navigates to "null" in a browser (main.js:330). The model's
  `FormReply` treats a null field as a missing one, so `RedirectTarget` gives "undefined".
- `showPopup` writes only when both `#globalPopup` and `#popupMessage` exist (main.js:16).
  The model assumes every page has them, so a popup is always recorded.
- `openImageModal` also needs `#modalImage` and `#modalCaption` (main.js:172). The model
  tests only for the lightbox modal and assumes those two come with it.
- The document click handler's test of the click's target (main.js:204-205) is left to the
  caller of `GalleryImageClick`. The caller passes the enclosing gallery item, or None outside
  one.
- DOM event wiring: the `init*Events` functions, `addEventListener` registration and the
  drag highlight colours (`highlight`, `unhighlight`, `preventDefaults`). Only the handlers'
  effects are modelled.
- `setTimeout`: popups hiding after a second, flash messages, and the one-second delay before
  a redirect. A popup is the last message shown, and a redirect is the navigation target.
- `fetch`, `FileReader` and JSON parsing are reduced to abstract results:
  - an authentication reply is `Option<bool>`;
  - a form reply is `Thrown` or the JSON fields;
  - a read is its file.
- The lazy image loading with `IntersectionObserver` is left out. It is a visual enhancement
  with no state the rest of the script reads.
- The login and register routes answer with redirects and HTML, while the script's form
  handler reads JSON. The two are therefore not connected: `OnFormReply` takes the reply as
  given.
- Flask routing, templates, `flash`, `login_user` and the session cookie are left out:
  - `Login` returns the decision the route makes;
  - the logout and profile routes and `load_user` are not part of this model.
- Foreign libraries become parameters, because their code is not part of this model:
  - `generate_password_hash` and `check_password_hash`;
  - `secure_filename` and `uuid4`;
  - Azure Blob Storage and psycopg2.
- Blob Storage side effects are not modelled. A thumbnail blob uploaded before a failed
  commit stays in storage.
- PIL work (download, resize, RGBA-to-RGB conversion, JPEG encoding) reduces to one success
  flag per image. The thumbnail's URL is a function of its blob name.
- Environment and configuration loading, `print` logging, `db.create_all` and the app's
  start-up are left out.
- The worker's outer `try`, for a failing connection or query, is left out. The model
  starts from a connected database.
- ThumbnailWorker.GenerateThumbnails: the rows are processed in table order. The SQL query
  has no `ORDER BY`, so the real order is unspecified. The result does not depend on the
  order, because each row's update touches only that row.
- Server.Database.Commit: a failed commit or a rollback does not consume a key. PostgreSQL
  sequences can leave gaps there, and the model does not show them.
- Strings.Lower: lower-cases ASCII only, where Python's `lower()` follows Unicode.
  - In `allowed_file` (app.py:121) this is exact for membership in the extension set, because
    no other character's lower-case form makes one of those six ASCII words.
  - For the blob name (app.py:140) it is exact only because `secure_filename` returns ASCII.
- Server.Register: a failing user lookup is a flag. The lookup's own query is not modelled.
