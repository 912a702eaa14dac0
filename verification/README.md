# Notice-board document store: a Dafny model of its sequential core

The application lets members of an organization upload scanned notices. It
reads a title and an event date out of the text an OCR engine recognises, and
keeps one metadata record per upload in a realtime database. The database has
two parts: `users/<uid>`, and `organizations/<org>` with the org's
`imageCount`, its `images/<n>` records and its `users/<uid>` member records.
A history table lists the records and lets a user select one as the priority
document or delete it. The dashboard shows a document count and a member
table.

This project models that logic over an abstract database
(`Store.Store = users: map<Uid, UserRec>, orgs: map<OrgName, Org>`):

- `Text`: JavaScript `trim`, `startsWith` and one-character `split`, with
  `split`/`join` as a round trip.
- `Extract`: the heading scanner and the `Date of Event: DD/MM/YYYY` pattern.
- `Upload`: the commit shared by both upload handlers, and the Dashboard
  handler. The commit reads the user and the counter `c`, writes
  `images/<c>`, then sets the counter to `c + 1`.
- `HistoryUpload`: the DocHistory upload handler, which also extracts fields
  from the recognised text.
- `History`: selecting the priority record, deleting a record, building the
  table rows, sorting them by event date, and finding the highlighted record.
- `Signup`: field validation, then creating the org if absent and writing the
  user and member records.
- `Views`: the document count and the member table with admins first.
- `Keys`: the ascending order in which the database returns integer keys.
- `Invariant`: sequential runs of sign-up, both commits, select and delete.
  In every store such a run whose counter writes land reaches from an empty
  database, each org's image keys lie below its counter, so a commit never
  overwrites a record.

Notes on the code:

- The event date is the leftmost regular-expression match anywhere in the
  text: two digits, `/`, two digits, `/`, four digits. It is not the rest of
  a line that starts with the event prefix.
- Records are keyed by the counter value, not by a timestamp.
- No summary field is extracted or stored.
- There is no month-bucketed duplicate record.
- New records carry no `priority` field until the first selection.
- Every account created at sign-up gets the role `"admin"`.

## Model

| member | source | states |
|---|---|---|
| Text.Split | src/components/DocHistory/index.js:159 | `text.split("\n")` always gives at least one piece, no piece holds a line break, and joining the pieces with `"\n"` gives back the text |
| Text.SplitCount | src/components/DocHistory/index.js:159 | `text.split("\n")` gives exactly one more piece than the text has line breaks |
| Text.Trim | src/components/DocHistory/index.js:169 | the trimmed line neither starts nor ends with a character JavaScript treats as white space |
| Text.TrimKeepsInfix | src/components/DocHistory/index.js:169 | the trimmed line is the contiguous piece of the line between its leading and trailing white space, and everything dropped is white space |
| Text.TrimIdempotent | src/components/DocHistory/index.js:169 | trimming an already trimmed line changes nothing |
| Extract.FirstArming | src/components/DocHistory/index.js:168-173 | finds the first line whose trimmed form starts with `"Date: "`, with no earlier such line, or reports that there is none |
| Extract.ScanIsLineAfterFirstArming | src/components/DocHistory/index.js:167-178 | the loop, started unarmed at any line, ends with the trimmed line right after the first arming line from there on, or `""` |
| Extract.HeadingCharacterization | src/components/DocHistory/index.js:159-179 | the heading is the trimmed line right after the first `"Date: "` line; it is `""` when there is no such line or that line is the last one |
| Extract.FirstArmingWins | src/components/DocHistory/index.js:172-177 | only the first `"Date: "` line arms the scan, and the next line is taken even if it is blank or itself starts with `"Date: "` |
| Extract.EventLineDoesNotArm | src/components/DocHistory/index.js:172 | a line starting with `"Date of Event: "` never arms the heading scan |
| Extract.HeadingIsTrimmedLine | src/components/DocHistory/index.js:159-179 | the heading holds no line break and trimming it changes nothing |
| Extract.FindMatch | src/components/DocHistory/index.js:147-150 | returns the leftmost position at or after the start where `"Date of Event: "` is followed by two digits, `/`, two digits, `/`, four digits; earlier positions do not match |
| Extract.EventDate | src/components/DocHistory/index.js:147-153 | a date is found exactly when some position matches; it is the ten characters after the leftmost match, and trailing text is excluded |
| Extract.NextEventDate | src/components/DocHistory/index.js:150-157 | with no match the event-date state keeps its old value; with a match it becomes the matched date |
| Upload.NewRecord | src/components/Dashboard/index.js:154-160 | the record holds the URL, the uploader's first name and email, and the uid. The Dashboard variant stamps only `dateofUpload`; the DocHistory variant stamps `dateOfUpload`, `title` and `eventDate`. Neither sets `priority` |
| Upload.Target | src/components/Dashboard/index.js:132-147 | the commit goes ahead exactly when `users/<uid>` exists, its org exists, and that org has an `imageCount`; the target key is that count |
| Upload.Commit | src/components/Dashboard/index.js:132-175 | a missing user or counter, or a failed record write, changes nothing. Otherwise `images[c]` gets the new record. The counter becomes `c + 1` unless its own update fails. Users, other orgs, other records and the org's members stay unchanged |
| Upload.BlobPathCollides | src/components/Dashboard/index.js:116 | two uploads share a blob path exactly when their file names are equal |
| Upload.DashboardSubmit | src/components/Dashboard/index.js:110-184 | with no selected file there is no upload and no write; a failed upload writes nothing; otherwise the Dashboard record is committed |
| HistoryUpload.HistorySubmit | src/components/DocHistory/index.js:118-242 | with no file or a failed upload, neither the store nor the form state changes. Otherwise the record is committed with the form's current title and event date, and the form then takes the extracted heading and event date |
| HistoryUpload.RecordTakesEarlierFormState | src/components/DocHistory/index.js:104-105 | the stored `title` and `eventDate` are the values the form held when the handler started, not the values extracted in the same call |
| History.Select | src/components/DocHistory/ActiveUsers.js:103-113 | every record's `priority` becomes whether its key is the selected id. The set of keys, every other record field, the counter and the members stay the same |
| History.SelectFlagsOnlyId | src/components/DocHistory/ActiveUsers.js:105-113 | after a selection the flagged keys are exactly `{id}` when `id` is a record key, and none otherwise |
| History.SelectAtMostOne | src/components/DocHistory/ActiveUsers.js:105-113 | after a selection, any two flagged records are the same record, namely the selected one |
| History.SelectIdempotent | src/components/DocHistory/ActiveUsers.js:103-113 | selecting the same id twice gives the same store as selecting it once |
| History.Delete | src/components/DocHistory/ActiveUsers.js:88-91 | removes exactly `images[id]`; other records, the counter, the members and other orgs stay unchanged, and an org left with no child disappears |
| History.Rows | src/components/DocHistory/ActiveUsers.js:29-41 | one row per record, in ascending key order. Each row has `id` = key and copies `firstName`, `email`, `imageURL`, `title`, `dateOfUpload` and `eventDate` |
| History.RowsCoverRecords | src/components/DocHistory/ActiveUsers.js:30-40 | every record key appears as the id of some row |
| History.ParseDate | src/components/DocHistory/ActiveUsers.js:75-81 | a string reads as a day exactly when it is `DD/MM/YYYY` naming a real calendar day; the day is (year, month, day) from `parseInt` of the three `/`-separated groups, with years 0 to 99 read as 1900 to 1999 |
| History.SortByEventDate | src/components/DocHistory/ActiveUsers.js:44-48 | the sorted rows are a permutation of the input, in descending order of (year, month, day) |
| History.SelectedId | src/components/DocHistory/ActiveUsers.js:58-64 | the highlighted id is the largest key, i.e. the last in iteration order, whose `priority` is true; it is null exactly when no record is flagged |
| History.FetchHistory | src/components/DocHistory/ActiveUsers.js:23-69 | a missing org gives an empty table and no highlight. With two or more rows, a record without `eventDate` makes `parseDate` throw, which also leaves the table empty and no highlight. Otherwise the rows are a permutation of the records' rows, sorted by event date, with the highlight computed from the `priority` flags |
| History.SortedRowsHaveValidDates | src/components/DocHistory/ActiveUsers.js:75-81 | whenever the sort runs, every row it orders has an event date that reads as a real calendar day |
| History.SelectThenListingHighlights | src/components/DocHistory/ActiveUsers.js:58-64 | after selecting a present record, a listing that does not throw highlights exactly that record |
| Signup.SignUp | src/components/Signup/index.js:63-81 | an empty or missing first name, last name, email, password or organization means no account and no write; white space counts as filled. A refused account means no write. Otherwise the registration writes happen |
| Signup.Register | src/components/Signup/index.js:87-116 | a missing org is created with `imageCount: 0`; an existing org keeps its counter and records. `users/<uid>` and the member record get the form fields, the uid, `joinedOn` and role `"admin"`. Every other user and org is unchanged |
| Signup.RegisteredUserBelongsToOrg | src/components/Signup/index.js:98-116 | after a sign-up the user's `organization` names an existing org. That org lists the uid as a member with the same email, uid, names, `joinedOn` and role, which is `"admin"` |
| Signup.SignUpKeepsExistingOrgs | src/components/Signup/index.js:90-95 | sign-up never resets an existing org's counter or touches its records |
| Views.FetchImageCount | src/components/Dashboard/CountOfDocuments.js:14-25 | the fetched count is the number of keys under `images`. It stays null when the org is missing, and also when the org has no `images`, because `Object.keys(undefined)` throws and the error is caught |
| Views.DisplayedCount | src/components/Dashboard/CountOfDocuments.js:41-49 | the number shown is the number of records of an existing org and `0` for a missing org |
| Views.MemberRows | src/components/Dashboard/ActiveUsers.js:29-39 | one row per member in delivery order; `id` comes from the record's `uid` field, and name, email, role and `joinedOn` are copied |
| Views.SortAdminsFirst | src/components/Dashboard/ActiveUsers.js:41-46 | the result is a permutation of the fetched rows in which every admin row precedes every non-admin row |
| Views.AdminCompareInconsistent | src/components/Dashboard/ActiveUsers.js:42-46 | given two admins, the comparator puts each before the other |
| Views.FetchMembers | src/components/Dashboard/ActiveUsers.js:23-55 | a missing org leaves the list empty; otherwise there is one row per member, as a permutation with admins first |
| Views.EveryMemberListed | src/components/Dashboard/ActiveUsers.js:29-39 | every member of the org appears in the table |
| Invariant.CommitWritesFreshKey | src/components/Dashboard/index.js:147-161 | in a store where keys lie below the counter, a commit writes a key not in use: the record count grows by one and every earlier record is kept |
| Invariant.ReachableStoresKeepCountsAhead | src/components/DocHistory/index.js:193-230 | every store reached from an empty database gives every org a counter above all its image keys, and every user names an org that lists them. The reaching steps are sign-ups, commits whose counter write lands, selections and deletions |
| Invariant.ApplyNeverLowersCounters | src/components/DocHistory/ActiveUsers.js:88-113 | in such a store no operation removes an org or lowers its counter; selection and deletion add no image keys and leave the counter alone |
| Invariant.DeleteLowersDisplayedCount | src/components/Dashboard/CountOfDocuments.js:17-18 | deleting a present record lowers the displayed count by one while `imageCount` stays the same |
| Invariant.LostCountWriteLetsNextCommitOverwrite | src/components/Dashboard/index.js:162-171 | when the counter update fails after the record was written, the counter still names that record's key, and the next commit to the org replaces the record |

## Left out

- Rendering, theming, drawers, snackbars, navigation and page reloads are not modelled; they do not change the database.
- Routing, auth-state wiring, whole-store hydration, sign-out, password reset and the hard-coded chart are not modelled; they are outside the core.
- The blob store and the OCR engine are not modelled: `uploadFails`, the download URL and the recognised text are inputs. A failed `getDownloadURL` or a failed OCR call ends the handler before any write, just like `uploadFails`.
- The identity provider is not modelled: account creation is reduced to an optional fresh uid. `updateProfile` only sets a display name, not database state, so it is left out.
- Database reads are assumed to succeed. A failed read is caught and ends the handler before any write.
- Sign-up's three writes are modelled as one step; a failure between them, which would leave part of the writes in place, is not modelled.
- `new Date()` and `toLocaleDateString` are not modelled: the dates are opaque strings. The Dashboard stores a `Date` object under `dateofUpload`; it is modelled as such a string.
- Concurrency is not modelled: every operation is one atomic step. This excludes the lost-update race on `imageCount` and the non-awaited per-record updates of a selection.
- React state timing is not modelled: `setImage` followed by reading `image`, and the fact that the DocHistory handler is bound to no form. Each handler's input is a selected file or none.
- Keys that are not valid database path segments (`.`, `#`, `$`, `[`, `]`, `/`) are not modelled.
- History.FetchHistory: requires that every stored event date is a valid `DD/MM/YYYY` day. For other strings, `parseDate` yields NaN or a normalised date, and the comparator then becomes inconsistent; that behaviour is not modelled. The DocHistory handler would store `""` (its event-date state starts empty, src/components/DocHistory/index.js:105), but no form invokes it.
- History.ParseDate: gives no day for a string that is not a `DD/MM/YYYY` real calendar day, where JavaScript yields NaN or a rolled-over date; the sort is only modelled on valid dates.
- History.SortByEventDate: does not state stability, although the JavaScript sort is stable; ties keep some order of the input.
- Views.SortAdminsFirst: states only the admin-first partition and the permutation. Under an inconsistent comparator the engine's exact order is implementation-defined.
- Views.FetchMembers: the order in which the database delivers member keys is a parameter (any enumeration of the keys), not derived from Firebase's string-key ordering.
- Invariant.ReachableStoresKeepCountsAhead: assumes every commit's counter write lands. Invariant.LostCountWriteLetsNextCommitOverwrite shows what happens when one does not.
