# Smile Hub Pro patient management, modelled in Dafny

This project models the core of a dental-practice patient-management app.
The core has two sides.

The server (`server/index.js`) keeps a `users` table and a `patients` table.
Every patient-row statement filters on `id = $id AND tenant_id = $tenant`.
The model states the isolation this gives as an invariant: a caller never
reads or changes another tenant's row, and another tenant's id is answered
with the same 404 as an id that does not exist. The SQL statements are pure
functions over the row sequence (`Lookup`, `UpdateWhere`, `Deleted`,
`OwnedBy`, `NewestFirst`). The handlers are methods of the class
`PatientStore.Database`, which updates its `users` and `patients` fields in
place. `Serve` puts the `authenticateToken` middleware in front of them.

The client is three React components. They share a patient record and a
ledger: due = total fee − (paid fee + sum of payments). The form component
(`FormState`), the image viewer (`ImageViewer`) and the list page
(`PatientList`) are classes whose methods are the state-updating handlers.
The rules they depend on (filter, map, positional removal, the search
predicate, the mobile-number pattern, ring navigation) are functions with
lemmas.

Files:
- `wrappers.dfy`: `Option`.
- `lists.dfy`: `filter`, `map` and positional removal, with their lemmas.
- `text.dfy`: ASCII lowercasing, `includes`, `split(' ')`.
- `ledger.dfy`: payment, patient record, sum, total paid, due.
- `auth.dfy`: the token middleware.
- `patient_store.dfy`: the server tables and handlers.
- `patient_form.dfy`, `patient_details.dfy`, `patients_page.dfy`: the three components.

Modelling choices:
- Money is an `int` counted in the smallest currency unit.
- The due amount is not clamped at zero: none of `PatientForm.tsx:190`,
  `PatientDetails.tsx:67` and `Patients.tsx:135` applies a lower bound, so an
  overpaid record shows a negative due.
- An empty `Authorization` header is falsy. `authHeader && …` therefore
  yields `""`, which is not `null`. So the request is not refused with 401:
  it reaches the verifier and is refused with 403. A missing header, or one
  with no space, gets 401.
- Path ids and image indices arrive already parsed. A non-numeric `:id` is
  `None` and gets 400.
- The database decides two kinds of 500:
  - A parameter bound to an INT (the path id, the tenant id, `age`) outside
    the 32-bit range fails before the statement runs. That is before any row
    is looked at, so such an id gets 500, never 404 (`FitsInt`, `KeysBind`,
    `AgeBinds`).
  - The casts of bound values to their columns' types are also folded at
    plan time: a VARCHAR value too wide for its column, or a fee that does
    not fit NUMERIC(10,2), fails like an INT parameter out of range. That is
    before any row is matched and before a SERIAL value is drawn
    (`CastsToColumns`). A VARCHAR value longer than its width passes when
    every character past the width is a space, and is stored cut to the
    width (`FitsWidth`, `Cut`, `Stored`).
  - The remaining constraints are checked as the row is written: `name`
    NOT NULL, the `tenant_id` foreign key and the unique e-mail (`Storable`,
    `IsUser`, `EmailInUse`).
- An INSERT that gets past planning draws the next SERIAL value before those
  remaining constraints are checked, and a sequence is never rolled back. So
  a register refused with 409, or a create refused for a missing name or an
  unknown tenant, still uses up an id; a failed cast does not.
- External calls are function parameters: `jwt.verify`, `jwt.sign`,
  `bcrypt.hash` and `bcrypt.compare`. The clock (`CURRENT_TIMESTAMP`,
  `new Date()`, `Date.now()`) is an `int` parameter.
- On the client, `""` stands for an absent string. The two are
  indistinguishable in every test the components make.

## Model

| member | source | states |
|---|---|---|
| `Auth.BearerToken` | server/index.js:132-135 | no token exactly when the header is missing, or non-empty with no space; an empty header yields the token ""; a token never contains a space |
| `Auth.Authenticate` | server/index.js:131-142 | 401 exactly when there is no token, 403 exactly when the verifier rejects the token, otherwise the tenant the verifier returns |
| `Auth.BearerTokenOfHeader` | server/index.js:133 | a header `<scheme> <token>` yields exactly `<token>` |
| `Auth.NoSpaceUnauthorized` | server/index.js:133-135 | a non-empty header without a space is refused with 401 whatever the verifier says |
| `Auth.EmptyHeaderReachesVerifier` | server/index.js:133-138 | the empty header reaches the verifier with "" and is refused with 403 unless the verifier accepts it |
| `Text.Split` | server/index.js:133 | `split(' ')` yields at least one field, and no field contains a space |
| `Text.JoinSplit` | server/index.js:133 | joining the fields of `split(' ')` with single spaces gives back the header |
| `Text.SplitHasSecond` | server/index.js:133 | `split(' ')[1]` exists exactly when the string contains a space |
| `Text.SplitAfterFirst` | server/index.js:133 | a space-free first field followed by a space splits off exactly that field |
| `PatientStore.Database.constructor` | server/index.js:68-94 | empty users and patients tables satisfy the table invariants |
| `PatientStore.Cut` | server/index.js:81 | the value a VARCHAR(width) column keeps is a prefix of at most `width` characters; a value within the width is kept whole; a value that fits loses only spaces |
| `PatientStore.Stored` | server/index.js:79-94 | every VARCHAR column of the stored row is within its width, a row already within the widths is stored unchanged, storability is kept, and the non-VARCHAR columns are untouched |
| `PatientStore.Storable` | server/index.js:79-94 | a storable row has a name and passes the column casts, and every row with a name, VARCHARs within their widths and a fee of at most 10 digits is storable |
| `PatientStore.Database.Register` | server/index.js:145-164 | a missing or empty e-mail or password gives 400 with nothing changed; an e-mail or hash that does not fit VARCHAR(255) gives 500 with the users table and the serial counter unchanged; otherwise the counter advances whatever follows; an e-mail already taken (after cutting) gives 409 with the users table unchanged; otherwise exactly one user with the cut e-mail and hash and the drawn id is appended and 201 returns its id and e-mail; patients are untouched and the invariants are kept |
| `PatientStore.FindUser` | server/index.js:170-174 | no user is found exactly when no user has the e-mail; a found user is in the table and has the e-mail |
| `PatientStore.Database.Login` | server/index.js:167-188 | 200 with a token signed for the user's id and e-mail exactly when the user exists and the password compares; an unknown or missing e-mail gives 401; a missing password for an existing user gives 500 |
| `PatientStore.OwnedBy` | server/index.js:284 | a tenant's view is no longer than the table and holds only that tenant's rows |
| `PatientStore.NewestFirst` | server/index.js:284 | the listing order keeps the number of rows |
| `PatientStore.Database.ListPatients` | server/index.js:281-289 | a tenant id outside INT gives 500; otherwise 200 with exactly the caller's rows (as a multiset), newest first, each one in the table and owned by the caller; nothing changes |
| `PatientStore.NewestFirstSorted` | server/index.js:284 | the `ORDER BY created_at DESC` ordering is sorted by creation time, newest first, and is a permutation of its input |
| `PatientStore.Lookup` | server/index.js:302-306 | no row is found exactly when no row matches both id and tenant; a found row is in the table and matches both |
| `PatientStore.LookupSeesOnlyOwnRows` | server/index.js:302 | a lookup gives the same answer on the caller's own rows as on the whole table |
| `PatientStore.SameViewSameLookup` | server/index.js:302-306 | two tables that agree on a tenant's rows answer that tenant's lookups identically |
| `PatientStore.ForeignIdLooksMissing` | server/index.js:302-306 | another tenant's id is not found, and the lookup answers exactly as on the table without that row |
| `PatientStore.Database.GetPatient` | server/index.js:292-312 | a non-numeric id gives 400; an id or tenant outside INT gives 500; otherwise 404 exactly when no row matches both id and tenant, and 200 returns a row of the table that matches both |
| `PatientStore.Database.OriginalPatient` | server/index.js:420-440 | the same answers as the single-patient read: 400, 500 for an id outside INT, 404 exactly when no row matches, otherwise 200 with the row the lookup finds |
| `PatientStore.Database.CreatePatient` | server/index.js:315-346 | a tenant or age outside INT, an over-wide VARCHAR or a fee outside NUMERIC(10,2) gives 500 with nothing changed, the serial counter included; otherwise the counter advances; a tenant that is no user or a missing name gives 500 with the rows unchanged; otherwise exactly one row is appended (the drawn id, the caller as tenant, the columns as stored) and 201 returns it |
| `PatientStore.AppendKeepsOtherTenants` | server/index.js:334-340 | an insert for one tenant leaves every other tenant's rows as they were |
| `PatientStore.UpdateWhere` | server/index.js:375-381 | an update keeps the number of rows, never changes a row's id, tenant or creation time, and leaves every unselected row as it was |
| `PatientStore.Database.UpdatePatient` | server/index.js:349-394 | a non-numeric id gives 400; an id, tenant or age outside INT, an over-wide VARCHAR or a fee outside NUMERIC(10,2) gives 500 even when no row matches; no matching row gives 404; a missing name gives 500; in each of these cases the table is unchanged; otherwise only the row matching both id and tenant gets the columns as stored, every other position is unchanged, and 200 returns the row as it now reads back |
| `PatientStore.UpdateWhereKeepsOtherTenants` | server/index.js:375-381 | an update never changes another tenant's rows |
| `PatientStore.LookupAfterUpdate` | server/index.js:375-381 | after an update the selected row reads back with the new columns |
| `PatientStore.UpdateWhereNoMatch` | server/index.js:386-388 | an update that matches no row leaves the table unchanged |
| `PatientStore.Deleted` | server/index.js:407 | a delete never lengthens the table and leaves no selected row |
| `PatientStore.Database.DeletePatient` | server/index.js:397-417 | a non-numeric id gives 400; an id or tenant outside INT gives 500; no matching row gives 404; in each of these cases the table is unchanged; otherwise the matching row is gone, every other row remains in order, and 200 is returned; other tenants' rows are untouched |
| `PatientStore.DeletedKeepsOtherTenants` | server/index.js:407 | a delete never removes another tenant's rows |
| `PatientStore.DeletedMembers` | server/index.js:407-411 | after a delete the selected row is not found, and exactly the other rows remain |
| `PatientStore.DeletedNoMatch` | server/index.js:407-411 | a delete that matches no row leaves the table unchanged |
| `PatientStore.Database.ReplaceImageAt` | server/index.js:443-480 | a non-numeric id gives 400; an id or tenant outside INT gives 500; no matching row gives 404; an index outside `[0, len)` gives 400, so null or empty images reject every index; for a matching row the answer is 200 exactly when the index is in range; in each failing case nothing is written; otherwise the stored list has the same length, the new data at `index`, every other position unchanged, and reads back from the row |
| `PatientStore.Database.DeleteImageAt` | server/index.js:483-523 | a non-numeric id gives 400; an id or tenant outside INT gives 500; no matching row gives 404; an out-of-range index gives 400, and so does a list of length at most 1; in each of these cases nothing is written; otherwise the stored list is the old one without position `index`, one shorter (at least one image left), the others in order |
| `PatientStore.Database.Serve` | server/index.js:131-142 | without a token 401 and with a rejected token 403, both with nothing changed; with any request the users table is unchanged and no other tenant's rows change |
| `Ledger.Sum` | src/components/PatientDetails.tsx:66 | payments with non-negative amounts sum to at least 0, and a single payment sums to its amount |
| `Ledger.TotalPaid` | src/components/PatientDetails.tsx:66 | the total paid is the paid fee when there are no payments, and never below it when the amounts are non-negative |
| `Ledger.Due` | src/components/PatientDetails.tsx:67 | with no payments the due is fee minus paid fee; payments with non-negative amounts can only lower it |
| `Ledger.CalculateDue` | src/pages/Patients.tsx:133-136 | the due is 0 exactly when the total paid equals the fee, and negative exactly when more was paid: nothing clamps it at zero |
| `Ledger.Outstanding` | src/pages/Patients.tsx:218 | a record is shown as outstanding exactly when less than its fee has been paid |
| `Ledger.SumPermutation` | src/components/PatientDetails.tsx:66 | the sum of payment amounts is the same for every ordering of the payments |
| `Ledger.SumAppend` | src/components/PatientDetails.tsx:66 | the sum over a concatenation is the sum of the sums |
| `Ledger.SumPositive` | src/components/PatientForm.tsx:144-151 | payments with positive amounts sum to a non-negative total that is zero only for no payments |
| `Ledger.DueAfterPayment` | src/components/PatientForm.tsx:187-191 | appending a payment lowers the due by exactly its amount |
| `Ledger.DueAfterRemoval` | src/components/PatientForm.tsx:180-191 | removing the payments with an id raises the due by exactly their amounts |
| `Ledger.DueOrderIndependent` | src/pages/Patients.tsx:133-136 | the due does not depend on the order of the payments |
| `PatientForm.FormState.constructor` | src/components/PatientForm.tsx:47-70 | the form starts from the edited record of the first render (its images as previews) or from an empty form, with a fresh payment draft and the dialog closed |
| `PatientForm.FormState.ReceiveEditingPatient` | src/pages/Patients.tsx:290-297 | a new `editingPatient` prop changes only the prop: the form data, staged images, payment draft and dialog stay as they were |
| `PatientForm.FormState.Open` | src/components/PatientForm.tsx:47-70 | opening on a record starts every piece of state afresh from it, as the initialisers describe |
| `PatientForm.EditWithoutRemount` | src/pages/Patients.tsx:106-108 | editing a record after the form was mounted empty shows the empty form, never a submittable record, and submitting it unchanged is refused |
| `PatientForm.EditWithRemount` | src/components/PatientForm.tsx:193-230 | a form opened on a record shows that record, and submitting it unchanged gives back exactly that record (a fresh id only when it had none) exactly when it passes the submit checks |
| `PatientForm.FormState.HandleImageUpload` | src/components/PatientForm.tsx:95-128 | a batch is refused whole, with nothing staged, when existing previews plus new files exceed 10; otherwise exactly the files of at most 500 KB are appended in order after the staged ones, and the previews stay within 10 |
| `PatientForm.FormState.RemoveImage` | src/components/PatientForm.tsx:138-141 | both staged lists lose position `index` and keep the rest in order; an out-of-range index changes nothing |
| `Lists.RemoveAtSlices` | src/components/PatientForm.tsx:139 | filtering out position `index` is `s[..index] + s[index+1..]`, and is a no-op out of range |
| `Lists.RemoveAt` | src/components/PatientForm.tsx:139 | filtering out one position shortens the list by one exactly when the position exists |
| `PatientForm.FormState.AddPayment` | src/components/PatientForm.tsx:143-178 | a missing or non-positive amount changes nothing; otherwise exactly one payment is appended at the end (method defaulting to Cash), the earlier ones are kept, the draft is reset, the dialog closes, and the due drops by the amount |
| `PatientForm.FormState.RemovePayment` | src/components/PatientForm.tsx:180-185 | exactly the payments with that id are removed, the rest keep their order, and the due rises by the removed amounts |
| `PatientForm.FormDue` | src/components/PatientForm.tsx:187-191 | with no payments the due is fee minus paid fee, and a form with no figures at all has due 0 |
| `PatientForm.FormDueMissingIsZero` | src/components/PatientForm.tsx:187-191 | a missing fee, paid fee or payment list counts as 0 in the due |
| `PatientForm.Digits` | src/components/PatientForm.tsx:204 | a string matching `\d{n}` has length n |
| `PatientForm.MobilePattern` | src/components/PatientForm.tsx:204 | a matching mobile number has 10 characters and starts with 6 to 9 |
| `PatientForm.SubmitAccepted` | src/components/PatientForm.tsx:195-211 | an accepted form has a name, a treatment type and a 10-character mobile number |
| `PatientForm.DigitsShape` | src/components/PatientForm.tsx:204 | `\d{n}` matches exactly the strings of n decimal digits |
| `PatientForm.MobilePatternShape` | src/components/PatientForm.tsx:204 | the mobile pattern matches exactly 10 decimal digits whose first digit is 6 to 9 |
| `PatientForm.FormState.HandleSubmit` | src/components/PatientForm.tsx:193-230 | no record exactly when name, mobile or treatment type is empty or the mobile fails the pattern; otherwise the record carries the form's fields, a missing fee or paid fee becomes 0, and on edit it keeps the edited record's creation time and id (unless that id is empty); its due equals the form's due |
| `PatientDetails.NextIndex` | src/components/PatientDetails.tsx:70 | from any position at or after the first, next lands in `[0, n)`, and one short of the end it moves one on |
| `PatientDetails.PrevIndex` | src/components/PatientDetails.tsx:75 | from any position not below `1 - n`, previous lands in `[0, n)`, and after the first it moves one back |
| `PatientDetails.NextIndexValue` | src/components/PatientDetails.tsx:69-72 | next moves one on and wraps from the last image to the first, staying in `[0, n)` |
| `PatientDetails.PrevIndexValue` | src/components/PatientDetails.tsx:74-77 | previous moves one back and wraps from the first image to the last, staying in `[0, n)` |
| `PatientDetails.PrevNextInverse` | src/components/PatientDetails.tsx:69-77 | previous undoes next and next undoes previous |
| `PatientDetails.AdvanceSteps` | src/components/PatientDetails.tsx:70 | for every k, k presses of next move the selection to `(i + k) mod n`, k places round the ring |
| `PatientDetails.FullCycle` | src/components/PatientDetails.tsx:69-72 | n presses of next return to the starting image |
| `PatientDetails.TransformInverses` | src/components/PatientDetails.tsx:79-89 | rotate left and rotate right undo each other; flipping twice restores the flip |
| `PatientDetails.ImageViewer.constructor` | src/components/PatientDetails.tsx:58-62 | the viewer starts on image 0, upright and unflipped |
| `PatientDetails.ImageViewer.NextImage` | src/components/PatientDetails.tsx:69-72 | the selection advances round the ring, stays valid, and the transform resets |
| `PatientDetails.ImageViewer.PrevImage` | src/components/PatientDetails.tsx:74-77 | the selection steps back round the ring, stays valid, and the transform resets |
| `PatientDetails.ImageViewer.SelectThumbnail` | src/components/PatientDetails.tsx:270-273 | the clicked image is selected and the transform resets |
| `PatientDetails.ImageViewer.RotateLeft` | src/components/PatientDetails.tsx:79-81 | the rotation drops by 90 degrees, nothing else changes |
| `PatientDetails.ImageViewer.RotateRight` | src/components/PatientDetails.tsx:83-85 | the rotation rises by 90 degrees, nothing else changes |
| `PatientDetails.ImageViewer.Flip` | src/components/PatientDetails.tsx:87-89 | the flip toggles, nothing else changes |
| `PatientDetails.ImageViewer.Reset` | src/components/PatientDetails.tsx:91-93 | the transform is upright and unflipped, the selection unchanged |
| `PatientsPage.PatientList.constructor` | src/pages/Patients.tsx:56-62 | the page starts with no records, no record being edited, the form closed |
| `PatientsPage.PatientList.HandleAddPatient` | src/pages/Patients.tsx:88-104 | in edit mode every record with the submitted id is replaced in place, length and order unchanged and others untouched; otherwise the record is appended at the end; the form closes |
| `PatientsPage.PatientList.HandleDelete` | src/pages/Patients.tsx:112-119 | exactly the records with that id are removed and the rest keep their order |
| `PatientsPage.Matches` | src/pages/Patients.tsx:126-131 | the empty term matches every record, and so does any term occurring in the record's mobile number |
| `PatientsPage.FilteredPatients` | src/pages/Patients.tsx:126-131 | the shown list is no longer than the records and every shown record matches the term |
| `PatientsPage.FilteredPatientsSpec` | src/pages/Patients.tsx:126-131 | the shown list is an order-preserving subsequence of the records, keeps a record exactly when the search matches it, and keeps all records for the empty term |
| `PatientsPage.MobileSearchFinds` | src/pages/Patients.tsx:128 | a term occurring in a record's mobile number always finds the record |
| `Text.Includes` | src/pages/Patients.tsx:127-130 | the empty term is included in every string, and an included term is no longer than the string |
| `Text.IncludesAt` | src/pages/Patients.tsx:127-130 | `includes` holds exactly when the term starts at some offset of the string |
| `Text.Lower` | src/pages/Patients.tsx:127 | lowercasing keeps the length |
| `Lists.Filter` | src/pages/Patients.tsx:113 | a filter never lengthens the list and keeps only elements that satisfy the predicate |
| `Lists.FilterMembers` | src/pages/Patients.tsx:113 | an element survives a filter exactly when it was present and satisfies the predicate |
| `Lists.FilterIsSubsequence` | src/pages/Patients.tsx:113 | a filter keeps the surviving elements in their original order |
| `Lists.MapAt` | src/pages/Patients.tsx:90 | position k of a map is the rewrite of position k |

## Left out

- The SQL text, the `pg` pool, table creation in `initDb` and all of `server/migrate-postgres.js` are left out: they set up the schema and hold no logic of their own. The schema's constraints are modelled where writes depend on them.
- Database failures other than constraint violations (a lost connection, a driver error) are left out. The source answers 500 for them.
- `jwt.verify`, `jwt.sign`, `bcrypt.hash` and `bcrypt.compare` are parameters with no model of their own. Token expiry (`expiresIn: '1d'`) is the verifier's business and is not modelled.
- The X-ray upload, `multer`, `fs`, the calls to the AI service and the health endpoints are file and network I/O, and are left out.
- Concurrency is left out: the read-then-write gap in the two image handlers and all `async`/`await` ordering. Each handler is one atomic step.
- A non-numeric `:imageIndex` (`NaN`) depends on JavaScript coercion in the comparisons, the property assignment and `splice`. It is not modelled.
- `parseInt` on a partly numeric id is not modelled, so `"12abc"` is not read as 12. Ids arrive parsed, or as `None`.
- Request bodies are typed, so a value of the wrong JSON type never reaches the database. Examples are a string `age`, a non-array `images`, or an unparsable `start_date` (which, like an INT out of range, would fail at binding with 500).
- SERIAL exhaustion is not modelled: the id counters are unbounded, while a sequence stops at 2^31 − 1.
- Rows written before the `tenant_id` column existed carry a NULL tenant and can never be reached. The model gives every row a tenant.
- `PatientStore.Database.ListPatients`: the order among rows with equal `created_at` is whatever the database returns. The model fixes one such order and promises only "newest first".
- `FileReader` conversion is not modelled: a staged file's data URL is taken as given. Previews are appended in file order, although the readers may finish in any order.
- `localStorage` load/save and date revival on the list page are left out, and so is `date-fns` formatting.
- Lowercasing is ASCII-only: Unicode case mapping of `toLowerCase` is not modelled.
- Amounts are integers: JavaScript floating-point arithmetic and `toLocaleString` are not modelled.
- The form's single-field input handlers, `handleDrop` (it forwards to the upload handler) and the dialogs' open/close toggles are not modelled. The `id`, `createdAt` and `images` entries of `formData` are not modelled either, because submit does not read them.
- `PatientForm.FormState.RemoveImage` removes the same position from the previews and from the staged files, as the source does. When editing, the previews start with the record's existing images, so the two positions refer to different images. The staged files are never read on submit.
- `PatientForm.FormState.Open` is what the component evidently intends, not what the page does. The page only ever changes the prop (`ReceiveEditingPatient`), and nothing resets the form after a submit. The Findings below record the consequence.
- `PatientDetails.ImageViewer` is built for one patient: the source keeps `selectedImage` when the `patient` prop changes, and that is not modelled.
- Presentation, navigation, authentication screens, the X-ray pages, the image cropper and build configuration are left out.

## Findings

| source | as written | input that shows it | evidently intended | confidence | as-written member | corrected member |
|---|---|---|---|---|---|---|
| src/components/PatientForm.tsx:47-63 | The form's state is initialised once, at mount, from the `editingPatient` of that first render (null). The page (`src/pages/Patients.tsx:290-297`) keeps the form mounted, has no `key`, and has no effect that reloads the prop, so Edit (`Patients.tsx:106-108`) changes only the prop. The form still holds its previous `formData` and previews. Submit then stamps the edited record's id and creation time onto those stale fields. | Mount the page, click Edit on a record with a name. The form shows empty fields, and submitting them is refused with "Missing required fields". After an earlier Add, the form instead shows that earlier record's data, and submitting it overwrites the edited record with that data. | Opening the form on a record shows that record, and submitting it unchanged gives the record back. | not executed | `PatientForm.EditWithoutRemount` | `PatientForm.EditWithRemount` |
