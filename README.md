# academic-vault catalogue core in Dafny

academic-vault is a course-material vault. An Express back end stores uploaded
study files in a blob bucket with a `resources` table beside it, and keeps a
`videos` table of lecture links. A React front end lists, groups and plays them,
and an admin dashboard adds and removes entries behind a fixed-credential login.

This project models the logic under that glue and proves properties of it.

**Back end**

- `resources.dfy` models the upload route, which takes these steps in order:
  - the multipart file filter and the 50 MB limit;
  - the 503 check for a missing client;
  - the title and semester checks;
  - the storage key `semester-{n}/{timestamp}-{name}`;
  - the blob write, then the row insert, then the compensating blob removal when the insert fails.

  The same file models the list query (filters, newest first), the download link and delete.
- `database.dfy` holds the store: a `Store` class with a blob map, the two tables and id/time counters.
  - Every store call takes a `Fault` that says whether the store reports an error. The route contracts therefore cover every combination of outcomes.
  - A ghost set records every path a blob write has succeeded at.
  - `EveryRowUploaded` says no resource row exists without a successful blob write at its `file_url`. Every route that changes the store preserves it: resource upload and delete prove it outright, and video registration and deletion leave the resource rows and the written-path set untouched.
- `videos.dfy` models the video routes: the list, registration with required fields, and delete by id with no lookup first.

**Front end**

- `semester_page.dfy` models the semester page:
  - `getSubject`;
  - the search filter;
  - the grouping by subject, which is a partition that keeps order;
  - the sorted subject list;
  - the two file-type labels.
- `video_library.dfy` models the video library:
  - the filter;
  - the two-level grouping by semester and subject;
  - the semester and subject orders;
  - the YouTube id, embed and thumbnail addresses;
  - the player state as a `Library` class.
- `admin_dashboard.dfy` models the admin dashboard:
  - the title suggested for a dropped file;
  - the dropzone/server accept-list mismatch;
  - the upload and registration form state as an `AdminForm` class.
- `admin_context.dfy` models the admin session flag and the route guard. The flag is mirrored into a key/value storage map.

**Shared modules**

- `text.dfy` gives JavaScript string operations: ASCII case mapping, `includes`, `split`, `trim` and `parseInt`.
- `lists.dfy` gives filtering, stable sorting by key, and string sorting.
- `grouping.dfy` gives grouping by key, both into a map and into a plain `{}` object.
- `schema.dfy` gives the rows, query conditions and route replies.
- `wrappers.dfy` gives `Option` and `Result`.

**Where the code and its description differ, the model follows the code**

- multer's file filter and size limit run before the route body. A refused file therefore answers 500 (`File type .x is not allowed`), even when the store client is missing or the title is empty, rather than a validation error.
- A list query whose semester text is not a number sends `NaN` to the store. The store rejects it, so the route answers 400; the model does not treat this as an empty result.
- The video routes do not check for a missing client. The first store call throws, and the route answers 500.

## Model

| member | source | states |
|---|---|---|
| Resources.FileFilterOfExtension | backend/routes/resources.js:11-18 | for `stem.ext` the filter accepts exactly when the lower-cased `.ext` is one of the nine allowed extensions, else rejects naming the lower-cased extension |
| Resources.FileFilterRejectsDotless | backend/routes/resources.js:13-17 | a name without a dot has the empty extension and is rejected |
| Resources.ExtNameOfFileName | backend/routes/resources.js:13 | `path.extname` of `stem.ext` is `.ext` when the stem does not end the path segment |
| Resources.StoragePathRoundTrip | backend/routes/resources.js:78-80 | the storage key can be read back into exactly its semester, timestamp and original name |
| Resources.StoragePathInjective | backend/routes/resources.js:80 | two uploads share a key only with equal semester, timestamp and name |
| Resources.ListSelects | backend/routes/resources.js:28-43 | the list holds exactly the rows meeting every supplied filter, with their multiplicity, newest first |
| Resources.NewestRowListedFirst | backend/routes/resources.js:28-31 | a row newer than all others heads an unfiltered list |
| Resources.ListQueryNaN | backend/routes/resources.js:33-35 | the query carries `NaN` exactly when a semester text was given that does not parse |
| Resources.List | backend/routes/resources.js:23-51 | 503 without a client, 400 with the store's message on a store error or a `NaN` semester, else 200 with the selection |
| Resources.AdmittedForm | backend/routes/resources.js:59-75 | an admitted upload has an accepted file within 50 MB, a store, a truthy title, a semester text parsing to 1..8 and the category or `General` |
| Resources.AdmitAcceptsValidForm | backend/routes/resources.js:62-75 | an accepted file with a title and a semester parsing to 1..8 is admitted |
| Resources.AdmitRefusesOnlyFor | backend/routes/resources.js:59-75 | the pre-store checks refuse exactly for a missing, refused or oversized file, no store, or a missing or out-of-range field |
| Resources.AdmitRefusesBadFields | backend/routes/resources.js:68-75 | with an acceptable file, a missing title or semester or a semester outside 1..8 answers 400 |
| Resources.AdmitReadsFormSemester | backend/routes/resources.js:72-75 | a semester sent as the digits of 1..8 is admitted with that number |
| Resources.UploadDraft | backend/routes/resources.js:101-111 | the inserted row carries the path, the original name, the size, the semester, the title, the category and a null uploader |
| Resources.Upload | backend/routes/resources.js:59-125 | a refused upload answers its status and leaves the store unchanged; an admitted one is stored as `Stored` says; every row still has its blob write |
| Resources.Save | backend/routes/resources.js:77-125 | blob failure: 500, nothing written; insert failure: 500, no row, blob removed unless removal fails; success: 201 and the blob and row added |
| Resources.Download | backend/routes/resources.js:136-164 | 503 without a client, 404 unless exactly one row has the id, 500 when no link can be minted, else the link and the file name |
| Resources.Delete | backend/routes/resources.js:172-207 | 404 and no change for an unknown id; otherwise the blob is removed unless that fails, the row with that id is deleted unless that fails, and 500 only on a failed row deletion |
| Database.Store.UploadBlob | backend/routes/resources.js:84-89 | without `upsert`, a write to an occupied path fails; a successful write stores the content and records the path as written |
| Database.Store.InsertResource | backend/routes/resources.js:101-113 | the row is appended with a fresh id and the newest time, or nothing changes on a fault |
| Database.Store.FindResource | backend/routes/resources.js:142-150 | `.single()` yields the one row with the id, else an error |
| Database.Store.DeleteResources | backend/routes/resources.js:198-201 | every row with the id goes and the others stay in order, keeping every row uploaded |
| Videos.VideoListSelects | backend/routes/videos.js:10-25 | the list holds exactly the videos meeting every supplied filter, with their multiplicity, newest first |
| Videos.VideoListQueryNaN | backend/routes/videos.js:15-17 | the query carries `NaN` exactly when a semester text was given that does not parse |
| Videos.List | backend/routes/videos.js:6-36 | 500 without a client, 400 with the message or `Database query failed` on a store error or `NaN` semester, else 200 with the selection |
| Videos.VideoDraftOf | backend/routes/videos.js:42-55 | a row is built exactly when all four fields are truthy, with title, url and subject unchanged and the semester parsed |
| Videos.VideoSemesterUnchecked | backend/routes/videos.js:54 | any number is stored as the semester: there is no range check |
| Videos.Create | backend/routes/videos.js:40-67 | 400 and no change for a missing field, 400 with the store's message on a fault, else 201 and the row appended; resource rows, blobs and written paths are untouched, so every resource row stays uploaded |
| Videos.DeleteKeepsOthers | backend/routes/videos.js:75-78 | deleting by id keeps exactly the other rows, and an unknown id leaves the table as it was |
| Videos.Delete | backend/routes/videos.js:71-88 | 200 whether or not the id exists; only a store fault answers 400, leaving the table unchanged; resource rows, blobs and written paths are untouched, so every resource row stays uploaded |
| SemesterPage.GetSubject | frontend/src/pages/SemesterPage.jsx:39-45 | an empty name or a name without `_` gives the fallback category, or `General` when that is empty |
| SemesterPage.GetSubjectOfUnderscored | frontend/src/pages/SemesterPage.jsx:41-43 | a name with `_` gives the trimmed text before its first `_`, possibly empty |
| SemesterPage.EmptySearchKeepsAll | frontend/src/pages/SemesterPage.jsx:110-114 | an empty search keeps every resource, in order |
| SemesterPage.GroupedPartition | frontend/src/pages/SemesterPage.jsx:116-121 | every shown resource is in the group of its subject, and each group holds only shown resources of its own subject |
| SemesterPage.GroupKeepsOrder | frontend/src/pages/SemesterPage.jsx:116-121 | a group is the shown resources of its subject in the order fetched |
| SemesterPage.SortedSubjectsSpec | frontend/src/pages/SemesterPage.jsx:123 | the subject list names each group exactly once, in strictly ascending string order |
| SemesterPage.GroupAsWrittenAgrees | frontend/src/pages/SemesterPage.jsx:116-121 | the reduce into `{}` throws exactly when a shown subject is an inherited property name, and otherwise equals the partition |
| SemesterPage.GroupAsWrittenThrows | frontend/src/pages/SemesterPage.jsx:116-121 | a resource named `constructor_intro.pdf` makes the reduce throw |
| SemesterPage.BadgeLabel | frontend/src/pages/SemesterPage.jsx:223 | the badge is exactly the text after the last `.` (`split('.').pop()`) when that is non-empty, and `File` when it is empty or there is no name |
| SemesterPage.FooterLabel | frontend/src/pages/SemesterPage.jsx:236 | with a dot, the footer is the text after the last dot; without one, `Resource` |
| Grouping.GroupByPartition | frontend/src/pages/SemesterPage.jsx:116-121 | grouping by key: keys are exactly the keys of elements, and a bucket holds only elements of its key |
| Grouping.GroupIntoObjectSpec | frontend/src/pages/SemesterPage.jsx:116-121 | pushing into a plain `{}` throws exactly on an inherited key, otherwise it is grouping by key |
| Text.AfterLastOfJoin | frontend/src/pages/SemesterPage.jsx:223 | `split(c).pop()` of pieces joined by `c` is the last piece |
| Text.ParseIntRoundTrip | backend/routes/resources.js:72 | `parseInt` of a rendered natural number gives that number back |
| VideoLibrary.ChosenSemesterSelects | frontend/src/pages/VideoLibrary.jsx:43-48 | choosing semester `n` shows exactly the videos matching the search whose semester is `n` |
| VideoLibrary.NoFilterShowsAll | frontend/src/pages/VideoLibrary.jsx:43-48 | no semester and an empty search show every video, in order |
| VideoLibrary.GroupBySemesterIsNested | frontend/src/pages/VideoLibrary.jsx:50-55 | the nested reduce is grouping by semester, then grouping each semester's videos by subject |
| VideoLibrary.SemesterBuckets | frontend/src/pages/VideoLibrary.jsx:50-55 | a semester bucket exists exactly when a shown video has that semester |
| VideoLibrary.SubjectBuckets | frontend/src/pages/VideoLibrary.jsx:50-55 | inside a semester, a subject bucket exists exactly when a shown video has both |
| VideoLibrary.SemesterSubjectBucket | frontend/src/pages/VideoLibrary.jsx:50-55 | bucket `[s][t]` is exactly the videos of semester `s` and subject `t`, in the order fetched |
| VideoLibrary.GroupBySemesterAsWrittenAgrees | frontend/src/pages/VideoLibrary.jsx:50-55 | the reduce into `{}` throws exactly when a subject is an inherited property name, and otherwise equals the nested grouping |
| VideoLibrary.GroupBySemesterAsWrittenThrows | frontend/src/pages/VideoLibrary.jsx:50-55 | a video filed under `constructor` makes the reduce throw |
| VideoLibrary.SortedSemestersMembers | frontend/src/pages/VideoLibrary.jsx:57 | the semester list names exactly the semester buckets |
| VideoLibrary.SortedSemestersOrder | frontend/src/pages/VideoLibrary.jsx:57 | each semester is listed once, numbered ones strictly ascending and before the unnumbered one |
| VideoLibrary.AscendingNumberedStrictly | frontend/src/pages/VideoLibrary.jsx:57 | distinct numbered keys sort strictly ascending by number |
| VideoLibrary.SortedSubjectsOfSpec | frontend/src/pages/VideoLibrary.jsx:203 | the subjects of a semester are its subject buckets, each once, strictly ascending |
| VideoLibrary.VideoId | frontend/src/pages/VideoLibrary.jsx:61 | with `v=` the id has no `&`; without it the id is a slash-free suffix of the address |
| VideoLibrary.VideoIdOfWatchUrl | frontend/src/pages/VideoLibrary.jsx:61 | `…v=<id>` followed by nothing or by `&…` yields `<id>` |
| VideoLibrary.VideoIdOfBareWatchUrl | frontend/src/pages/VideoLibrary.jsx:61 | `…v=<id>` with nothing after the id yields `<id>` |
| VideoLibrary.VideoIdWithMoreParams | frontend/src/pages/VideoLibrary.jsx:61 | `…v=<id>&…` yields `<id>`, cut at the `&` |
| VideoLibrary.VideoIdOfShortUrl | frontend/src/pages/VideoLibrary.jsx:61 | `…/<id>` without `v=` yields `<id>` |
| VideoLibrary.EmbedUrl | frontend/src/pages/VideoLibrary.jsx:59-65 | a non-YouTube address is returned unchanged |
| VideoLibrary.Thumbnail | frontend/src/pages/VideoLibrary.jsx:67-73 | there is a thumbnail exactly for YouTube addresses |
| VideoLibrary.WatchUrlAddresses | frontend/src/pages/VideoLibrary.jsx:59-73 | for a watch address, bare or with more parameters after `&`, the embed and thumbnail addresses carry the same id, the one after `v=` |
| VideoLibrary.ShortUrlAddresses | frontend/src/pages/VideoLibrary.jsx:59-73 | for a short address the embed and thumbnail addresses carry the same id, the last segment |
| VideoLibrary.Library.constructor | frontend/src/pages/VideoLibrary.jsx:10-15 | the page starts with no videos, none active, loading, no fade |
| VideoLibrary.Library.FetchVideos | frontend/src/pages/VideoLibrary.jsx:21-41 | an ok list is kept and its first video starts when none plays; a failure empties the list; loading ends; a non-empty list always has an active video |
| VideoLibrary.Library.BeginSwitch | frontend/src/pages/VideoLibrary.jsx:75-77 | choosing the active video does nothing; another one starts the fade |
| VideoLibrary.Library.FinishSwitch | frontend/src/pages/VideoLibrary.jsx:78-81 | the chosen video plays and the fade ends |
| AdminDashboard.StripExtension | frontend/src/pages/AdminDashboard.jsx:82 | a prefix of the name that differs from it exactly when a trailing `.ext` with no `.` or `/` exists, and then cut at that dot |
| AdminDashboard.SpacesForSeparators | frontend/src/pages/AdminDashboard.jsx:82 | same length, no `-` or `_`, every other character kept |
| AdminDashboard.Capitalize | frontend/src/pages/AdminDashboard.jsx:83 | same length, first character upper-cased, the rest unchanged |
| AdminDashboard.DeriveTitleSpec | frontend/src/pages/AdminDashboard.jsx:82-83 | the suggested title has the length of the stripped name, no separators, an upper-cased first character and otherwise the spaced name |
| AdminDashboard.DeriveTitleOfFileName | frontend/src/pages/AdminDashboard.jsx:82 | for `stem.ext` the title is built from `stem` alone |
| AdminDashboard.DroppedImagesRefused | frontend/src/pages/AdminDashboard.jsx:101-102 | a `.jpg`, `.jpeg` or `.png` file the dropzone takes is refused by the server's filter, naming its extension |
| AdminDashboard.UploadRequestAdmitted | frontend/src/pages/AdminDashboard.jsx:115-119 | the form's request with an accepted file, a title and a semester 1..8 is admitted with exactly those values |
| AdminDashboard.AdminForm.constructor | frontend/src/pages/AdminDashboard.jsx:46-55 | the form starts with its fields reset and nothing in progress |
| AdminDashboard.AdminForm.OnDrop | frontend/src/pages/AdminDashboard.jsx:78-86 | an empty drop changes nothing; otherwise the first file is selected and names the title only when the title is empty |
| AdminDashboard.AdminForm.SubmitUpload | frontend/src/pages/AdminDashboard.jsx:106-143 | no file: no request, no change; else the request carries the fields, success resets them, failure keeps them |
| AdminDashboard.AdminForm.RegisterVideo | frontend/src/pages/AdminDashboard.jsx:145-173 | the request carries the four fields; success resets them to `''`, `''`, `''`, `'1'`, failure keeps them |
| AdminContext.AdminSession.constructor | frontend/src/context/AdminContext.jsx:6-8 | the flag is set exactly when storage holds `active` under `admin_session` |
| AdminContext.AdminSession.Login | frontend/src/context/AdminContext.jsx:10-17 | true exactly for the fixed pair, which sets the flag and stores the session so that a reload finds it; otherwise nothing changes |
| AdminContext.AdminSession.Logout | frontend/src/context/AdminContext.jsx:19-22 | the flag is cleared and only the session key is removed, so a reload finds no session |
| AdminContext.AdminSession.Reload | frontend/src/context/AdminContext.jsx:6-8 | a remount reads the flag back from storage, keeps storage, and leaves a flag that agreed with storage unchanged |
| AdminContext.LoginSurvivesReload | frontend/src/context/AdminContext.jsx:6-13 | after a login, a fresh provider finds the session |
| AdminContext.LogoutSurvivesReload | frontend/src/context/AdminContext.jsx:19-22 | after logout a fresh provider finds no session, and a second logout removes nothing more |
| AdminContext.Guard | frontend/src/components/ProtectedRoute.jsx:8-12 | the protected page is shown exactly to an admin |

## Left out

- Network, I/O and UI: `fetch`, toasts, DOM download links, `window.open` and rendering are not modelled. The pages start from the data a fetch would return.
- Store client: the hosted database and bucket are not modelled. Each call is replaced by a `Fault` parameter that decides whether it fails, and a failed call changes nothing.
- Resources.Download: the signed link and its 60-second expiry are a parameter (`signed`). `None` means minting fails.
- Resources.Upload: `Date.now()` is the parameter `now`. Ids and `created_at` are counters kept by the store.
- Schema.TitleMatches: `ilike` is read as a plain case-insensitive substring test. `%` and `_` in the search are not treated as wildcards.
- Text.Lower: case mapping covers ASCII letters only.
- Lists.LexLe: strings are compared by code point, not by UTF-16 unit.
- Text.ParseInt: reads the leading digits with sign and radix prefix. Precision loss of very large numbers is not modelled.
- Resources.Upload: an exception escaping the handler (the 500 `Upload failed` path) is not modelled, and neither is multer's own error body. A refused or oversized file answers 500 with the filter's message.
- Resources.Save: the 500 reply for a failed blob write carries the error message as `details` but not the storage error's `code` field.
- Resources.Save: the removal after a failed insert is modelled as removing or keeping the blob. Its error is only logged, so it never reaches the reply.
- Videos.List: the store always returns a list, so the `data || []` fallback never applies. The 500 path is modelled only for a missing client.
- VideoLibrary.SortedSemesters: the comparator `a - b` gives `NaN` for the `"null"` key of videos without a semester, so its position in the engine's sort is unspecified. The model puts it last.
- VideoLibrary.Library.BeginSwitch: the 200 ms `setTimeout` is split into two methods, `BeginSwitch` and `FinishSwitch`. Interleavings of several pending timers are not modelled.
- VideoLibrary.VideoIdOfWatchUrl: assumes neither the text before `v=` nor the id holds another `v=`, and that the id is followed by nothing or by `&`. Where a second `v=` cuts the id, only the general `VideoId` contract (no `&`) applies.
- AdminDashboard: `fetchData` after a successful upload or registration, the delete buttons (`handleDeleteResource` and its video counterpart) and the delete confirmations are left out. They are network calls and toasts.
- `formatFileSize` and `formatDate` use floating point and locale formatting, so they are left out.
- `backend/index.js` (middleware, CORS, health probes), `AdminLogin.jsx` and the rendering-only pages and components are not part of this model.

## Findings

| source | as written | input that shows it | evidently intended | confidence | as-written member | corrected member |
|---|---|---|---|---|---|---|
| frontend/src/pages/SemesterPage.jsx:116-121 | groups into a plain `{}` and tests `!acc[subject]`, so an inherited name such as `constructor` finds a function and `push` throws | a resource with `file_name` `constructor_intro.pdf` and an empty search | every shown resource lands in the group of its subject (an object without a prototype or a `Map`) | not executed | SemesterPage.GroupAsWrittenThrows | SemesterPage.GroupedPartition |
| frontend/src/pages/VideoLibrary.jsx:50-55 | the inner subject bucket is read from a plain `{}`, so a subject named `constructor` (or `toString`, `__proto__`…) makes `push` throw | a video with subject `constructor` in semester 1 | each shown video lands in bucket `[semester][subject]` | not executed | VideoLibrary.GroupBySemesterAsWrittenThrows | VideoLibrary.SemesterSubjectBucket |
