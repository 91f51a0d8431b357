# Solar CRM API — a Dafny model of its controllers, entities and repositories

This project models the back end of a small CRM for a solar-panel installer. It
is a Symfony JSON API over six tables: clients, appointments, quotes, solar
studies, users and activities. The model covers:

* **The entities.** Their defaults and their validation constraints (`ClientEntity`,
  `AppointmentEntity`, `QuoteEntity`, `SolarStudyEntity`, `ActivityEntity`,
  `UserEntity`, with `Validation` for the violation list and the `details` map).
  It also covers the quote reference `Q-<year>-<nnnn>`, the French relative-time
  label of an activity, and the client's association helpers.
* **The repositories.** The status filter with its PHP truthiness, newest-first
  ordering, `OFFSET`/`LIMIT` paging and the matching count (`Query`, `StatusQuery`,
  `ClientRepository`, `QuoteRepository`, `AppointmentRepository`, over the
  generic `Table` of rows).
* **The controller actions.** Each action is a transition of a `Store` holding the
  six tables. It either replies, with the store it leaves, or throws
  (`ClientController`, `AppointmentController`, `QuoteController`,
  `SolarStudyController`, `UserController`, `ActivityController`). A flush that
  violates a NOT NULL column throws, and a throw leaves the store as it was.
* **The statistics endpoints.** The percentage change with its text and its
  kind, the four dashboard tiles with `number_format` of the revenue, and the
  performance figures (`Statistics`).
* **The exception listener and a request end to end.** The listener turns a
  throw on an `/api/` path into a JSON error (`ExceptionSubscriber`); `Kernel`
  serves one request end to end.

Conventions:

* Amounts and kWc are integer hundredths, as the `DECIMAL(…, 2)` columns hold them.
* Percentages are integer tenths, as `round(…, 1)` leaves them.
* Times are integer seconds. The clock, the year and the random reference
  number are parameters of the actions that read them.
* A request body is `Falsy` (every body for which `!$data` holds) or decoded.
  Each key of a decoded body is `Absent`, `Null` or `Given`, because `isset` and
  `??` treat a JSON `null` like a missing key.

The store invariant `Good` holds throughout:
* ids are unique and below the id counter;
* every appointment has a date;
* every appointment, quote and study names an existing client.

Every action that replies keeps `Good`, and each create is undone by the
matching delete.

## Model

| member | source | states |
|---|---|---|
| ClientEntity.Violations | api/src/Entity/Client.php:20-50 | no violation exactly when the client is valid; only the five constrained properties are reported; a blank first name violates both NotBlank and Length(min 2); an unknown status violates the Choice |
| ClientEntity.FullNameSplits | api/src/Entity/Client.php:310-313 | `getFullName` is first name, one space, last name: for a first name without spaces, cutting at the first space gives both names back |
| ClientEntity.AddItem | api/src/Entity/Client.php:237-245 | `addAppointment` and its siblings add an item only when absent and then point it at the client; an item already present leaves collection and link untouched; no duplicates appear |
| ClientEntity.RemoveItem | api/src/Entity/Client.php:247-256 | `removeAppointment` and its siblings remove one occurrence; they clear the item's link only when it points at this client; an absent item changes nothing |
| ClientEntity.AddItemIdempotent | api/src/Entity/Client.php:237-245 | adding the same item twice is adding it once |
| ClientEntity.AddItemLinks | api/src/Entity/Client.php:237-245 | after adding, the item is in the collection and linked to the client |
| ClientEntity.RemoveUndoesAdd | api/src/Entity/Client.php:237-256 | removing a freshly added item restores the collection and leaves the item unlinked |
| ClientEntity.NoDuplicatesRemove | api/src/Entity/Client.php:247-256 | in a collection without duplicates, a removed item is gone |
| ClientEntity.RemoveLastFresh | api/src/Entity/Client.php:247-256 | removing the item just appended gives the collection back |
| AppointmentEntity.Violations | api/src/Entity/Appointment.php:18-29 | no violation exactly when valid; a missing date is Blank; an empty type is both Blank and NotAChoice; an unknown status is NotAChoice |
| AppointmentEntity.ConfirmedRejected | api/src/Entity/Appointment.php:27-29 | "confirmed" is not one of the statuses the validator accepts |
| QuoteEntity.Reference | api/src/Entity/Quote.php:208-211 | `generateReference` gives "Q-", the year, "-" and the number padded to four digits; it parses back to (year, number) |
| QuoteEntity.ParseReferenceOf | api/src/Entity/Quote.php:208-211 | the reference parser reads any "Q-<digits>-<4 digits>" as its two numbers |
| QuoteEntity.ReferenceLength | api/src/Entity/Quote.php:208-211 | with a four-digit year every reference is 11 characters, which fits the 50-character column |
| QuoteEntity.ReferenceInjective | api/src/Entity/Quote.php:208-211 | two references are equal exactly when year and number are equal |
| QuoteEntity.New | api/src/Entity/Quote.php:58-63 | a new quote carries a reference that parses to (year, number), the status "draft", no signature, no amount, no client or user, and both timestamps at now |
| QuoteEntity.Violations | api/src/Entity/Quote.php:18-33 | no violation exactly when valid; a missing amount is Blank; a non-positive amount is NotPositive; an unknown status is NotAChoice |
| QuoteEntity.NewReferenceNotBlank | api/src/Entity/Quote.php:18-20 | the reference set by the constructor never trips its NotBlank |
| QuoteEntity.ReferenceNotBlank | api/src/Entity/Quote.php:18-20 | only a blank reference gives a violation on `reference` |
| QuoteEntity.SetSignedAt | api/src/Entity/Quote.php:147-152 | sets the signature date and nothing else |
| SolarStudyEntity.Violations | api/src/Entity/SolarStudy.php:18-48 | no violation exactly when valid; an empty project name is Blank; a given non-positive figure is NotPositive, while a null one passes; an unknown status is NotAChoice |
| ActivityEntity.New | api/src/Entity/Activity.php:31-49 | a new activity is created now with status "new" and no type, title, user or client |
| ActivityEntity.Violations | api/src/Entity/Activity.php:18-33 | no violation exactly when valid; an empty title is Blank; an empty type is Blank and NotAChoice; an unknown status is NotAChoice |
| ActivityEntity.RelativeTime | api/src/Entity/Activity.php:140-157 | the label read back gives the elapsed unit and count, and that reading is the one the elapsed seconds call for (floor division; "Hier" for the second day) |
| ActivityEntity.DescribesUnique | api/src/Entity/Activity.php:145-156 | at most one reading describes a given elapsed time, so the label is determined by it |
| ActivityEntity.ReadLabelOfLabel | api/src/Entity/Activity.php:145-156 | every label reads back as the reading it was made from |
| ActivityEntity.LabelRanges | api/src/Entity/Activity.php:148-156 | hour labels run from 1 to 23; day labels start at 2; "Il y a 1 jour" never appears |
| ActivityEntity.Boundaries | api/src/Entity/Activity.php:145-156 | the labels at the edges of each branch, including "Il y a -1 minute" for a creation time in the future |
| ActivityEntity.BoundaryReadings | api/src/Entity/Activity.php:145-156 | the same edges as readings |
| ActivityEntity.BoundaryTexts | api/src/Entity/Activity.php:147-155 | the texts of those readings, plural "s" only above 1 |
| StatusQuery.Selected | api/src/Repository/ClientRepository.php:23-26 | the WHERE clause keeps exactly the rows of the status, and all rows when the status is falsy or "all" |
| StatusQuery.FindPage | api/src/Repository/ClientRepository.php:19-34 | a page is the slice of the newest-first selection starting at `(page - 1) * limit`: at most `limit` selected rows, exactly `min(limit, count - offset)` of them, empty beyond the selection |
| StatusQuery.PagesInOrder | api/src/Repository/ClientRepository.php:28-33 | rows of an earlier page are no older than rows of a later page, and with unique ids no row is on two pages (no repeat and no loss rest on the one tie order every query shares; see Query.OrderForced) |
| StatusQuery.PagesCoverSelected | api/src/Repository/ClientRepository.php:19-47 | every selected row lies on one of the first ceil(count / limit) pages (no repeat and no loss rest on the one tie order every query shares; see Query.OrderForced) |
| StatusQuery.CountMatching | api/src/Repository/ClientRepository.php:36-47 | the count is the size of the same selection |
| ClientRepository.FindByStatusWithPagination | api/src/Repository/ClientRepository.php:19-34 | the `OFFSET`/`LIMIT` slice of the clients of the status, newest first: at most `limit`, exactly `min(limit, count - offset)` before the end, empty past the count |
| ClientRepository.CountByStatus | api/src/Repository/ClientRepository.php:36-47 | the number of clients the status selects, all of them for null, "" or "all" |
| ClientRepository.PagesCoverSelection | api/src/Repository/ClientRepository.php:19-47 | paging loses no client of the status (no repeat and no loss rest on the one tie order every query shares; see Query.OrderForced) |
| ClientRepository.PagesInOrder | api/src/Repository/ClientRepository.php:19-34 | successive pages go from newer to older clients and never repeat a client (no repeat and no loss rest on the one tie order every query shares; see Query.OrderForced) |
| QuoteRepository.FindByStatusWithPagination | api/src/Repository/QuoteRepository.php:19-34 | the `OFFSET`/`LIMIT` slice of the quotes of the status, newest first: at most `limit`, exactly `min(limit, count - offset)` before the end, empty past the count |
| QuoteRepository.CountByStatus | api/src/Repository/QuoteRepository.php:36-47 | the number of quotes the status selects |
| QuoteRepository.PagesCoverSelection | api/src/Repository/QuoteRepository.php:19-47 | paging loses no quote of the status (no repeat and no loss rest on the one tie order every query shares; see Query.OrderForced) |
| QuoteRepository.PagesInOrder | api/src/Repository/QuoteRepository.php:19-34 | successive pages go from newer to older quotes and never repeat a quote (no repeat and no loss rest on the one tie order every query shares; see Query.OrderForced) |
| AppointmentRepository.FindTodayAppointments | api/src/Repository/AppointmentRepository.php:19-36 | exactly today's non-cancelled appointments, as a permutation of the selection, in ascending date order |
| AppointmentRepository.FindWithFilters | api/src/Repository/AppointmentRepository.php:38-58 | the `OFFSET`/`LIMIT` slice of the appointments matching each truthy filter, latest date first: at most `limit`, exactly `min(limit, matches - offset)` before the end, empty past the matches |
| AppointmentRepository.NoFilterKeepsAll | api/src/Repository/AppointmentRepository.php:42-50 | with both filters falsy every appointment is selected |
| AppointmentRepository.PagesCoverFiltered | api/src/Repository/AppointmentRepository.php:38-58 | paging loses no matching appointment (no repeat and no loss rest on the one tie order every query shares; see Query.OrderForced) |
| AppointmentRepository.PagesInOrder | api/src/Repository/AppointmentRepository.php:38-58 | successive pages go from later to earlier dates and never repeat an appointment (no repeat and no loss rest on the one tie order every query shares; see Query.OrderForced) |
| Query.Ordered | api/src/Repository/ClientRepository.php:28-29 | the ordered selection is a permutation of the selection, sorted descending |
| Query.FindPage | api/src/Repository/ClientRepository.php:28-33 | one page is the slice of the ordered selection at offset `(page - 1) * limit`: bounded, selected, sorted, of the exact remaining size, empty past the end |
| Query.PagesInOrder | api/src/Repository/ClientRepository.php:28-33 | every row of an earlier page ranks at least as high as every row of a later one; with unique ids the pages are disjoint (no repeat and no loss rest on the one tie order every query shares; see Query.OrderForced) |
| Query.PagesCoverKept | api/src/Repository/ClientRepository.php:28-33 | some page in range holds any selected row (no repeat and no loss rest on the one tie order every query shares; see Query.OrderForced) |
| Query.OrderForced | api/src/Repository/ClientRepository.php:29 | when no two selected rows that differ share the sort key, any arrangement of the selection sorted by `createdAt DESC` is the model's ordered selection, so the paging lemmas hold whatever tie order the database picks |
| Table.SortedUnique | api/src/Repository/QuoteRepository.php:29 | two descending arrangements of the same rows are equal when rows that share a key are equal |
| Http.PageParam | api/src/Controller/ClientController.php:59 | `max(1, page ?? 1)` |
| Http.LimitParam | api/src/Controller/ClientController.php:60 | `min(max, max(1, limit ?? 10))`: the limit lies in 1..max; 10 when absent; a limit in range is kept; above max gives max; below 1 gives 1 |
| Http.Paginate | api/src/Controller/ClientController.php:85-93 | `pages` is the least number of `limit`-sized pages holding `total` rows |
| Store.Resolve | api/src/Controller/AppointmentController.php:373-392 | a reference in the body is unset, names an existing row, or names none; the three cases match `isset` and `find` |
| Store.ShowRow | api/src/Controller/ClientController.php:118-147 | `show`: the row of the id with 200, or 404 "<Entity> not found" exactly when no row has it |
| Store.NotNullViolation | api/migrations/Version20251113103855.php:27-36 | the exception of a NOT NULL failure carries no HTTP status |
| Store.InsertAppointmentGood | api/src/Entity/Appointment.php:43-45 | inserting a dated appointment of an existing client keeps the store invariant |
| Store.InsertQuoteGood | api/src/Entity/Quote.php:50-52 | inserting a quote of an existing client keeps the store invariant |
| Store.InsertStudyGood | api/src/Entity/SolarStudy.php:59-61 | inserting a study of an existing client keeps the store invariant |
| ClientController.List | api/src/Controller/ClientController.php:57-95 | 200 with the page and limit read from the query, the total of the status, and the clients of the status on that page: exactly `min(limit, total - offset)` of them, none past the total; the status defaults to "all" |
| ClientController.ListInOrder | api/src/Controller/ClientController.php:57-95 | walking the pages lists clients newest first, and in a good store no client twice (no repeat and no loss rest on the one tie order every query shares; see Query.OrderForced) |
| ClientController.ListPagesCover | api/src/Controller/ClientController.php:57-95 | every client of the status is on some page at most `pages` (no repeat and no loss rest on the one tie order every query shares; see Query.OrderForced) |
| ClientController.Show | api/src/Controller/ClientController.php:118-147 | the client of the id, or 404 "Client not found" |
| ClientController.Create | api/src/Controller/ClientController.php:181-230 | 201 exactly for a truthy body whose client validates; the reply and the new row are the client built from the body under a fresh id, other rows unchanged; otherwise 400 "Invalid JSON" or 400 with the violated properties as `details`, and the store is unchanged |
| ClientController.CreateWithoutKeys | api/src/Controller/ClientController.php:192-212 | a body with none of the keys yields 400 naming firstName, lastName, email and phone |
| ClientController.CreateThenShow | api/src/Controller/ClientController.php:118-230 | a created client is what `show` returns for its id |
| ClientController.CreateThenDelete | api/src/Controller/ClientController.php:181-230 | deleting a client just created restores the store, except the id counter |
| ClientController.CreateKeepsGood | api/src/Controller/ClientController.php:181-230 | create keeps the store invariant |
| ClientController.Update | api/src/Controller/ClientController.php:264-319 | 404 for an unknown id; 200 exactly when the patched client validates, the row then holding the patch while every other client keeps its value and no id appears or disappears; otherwise 400 with the store unchanged |
| ClientController.PatchIdempotent | api/src/Controller/ClientController.php:284-292 | applying the same body twice is applying it once |
| ClientController.PatchNeverClears | api/src/Controller/ClientController.php:284-292 | `isset` skips a null, so an update never clears an optional property |
| ClientController.UpdateIdempotent | api/src/Controller/ClientController.php:264-319 | repeating a successful update gives the same reply and store |
| ClientController.UpdateKeepsGood | api/src/Controller/ClientController.php:264-319 | update keeps the store invariant |
| ClientController.Delete | api/src/Controller/ClientController.php:342-360 | 404 for an unknown id; otherwise the client is removed, every other client row stays, and its appointments, quotes and studies go too (cascade remove), while users and activities stay |
| ClientController.DeleteKeepsGood | api/src/Entity/Client.php:65-72 | the cascade leaves no appointment, quote or study without its client |
| ClientController.NothingOwnedByFresh | api/src/Entity/Client.php:65-72 | in a good store no row names the next id, so the cascade of a fresh client removes nothing else |
| AppointmentController.List | api/src/Controller/AppointmentController.php:107-141 | 200 with the appointments matching the filters, latest date first, at most `limit` (at most 100), exactly `min(limit, matches - offset)` of them, none past the matches |
| AppointmentController.ListInOrder | api/src/Controller/AppointmentController.php:107-141 | walking the pages lists appointments from later to earlier dates, and in a good store none twice (no repeat and no loss rest on the one tie order every query shares; see Query.OrderForced) |
| AppointmentController.Today | api/src/Controller/AppointmentController.php:183-207 | exactly today's appointments that are not cancelled, each once as in the table (the same multiset), in ascending date order |
| AppointmentController.Show | api/src/Controller/AppointmentController.php:270-300 | the appointment of the id, or 404 "Appointment not found" |
| AppointmentController.Create | api/src/Controller/AppointmentController.php:351-417 | 201 exactly when the body is truthy, the date parses, both references exist and are given, and the appointment validates; the stored row is then the one built from the body under a fresh id; an unparsable date, or a missing client or user after validation, throws; every other failure is a 400 that changes nothing |
| AppointmentController.Persist | api/src/Controller/AppointmentController.php:394-417 | validation first (400 with the violations); then the flush, which throws on a missing client or user and otherwise stores the row under a fresh id with 201 |
| AppointmentController.UnknownClientFirst | api/src/Controller/AppointmentController.php:373-407 | an unknown client is reported before any validation error |
| AppointmentController.MissingClientThrows | api/src/Entity/Appointment.php:43-45 | a valid appointment posted without a client passes validation and fails at the flush on `appointment.client_id` |
| AppointmentController.CreateKeepsGood | api/src/Controller/AppointmentController.php:351-417 | create keeps the store invariant |
| AppointmentController.CreateThenShow | api/src/Controller/AppointmentController.php:270-417 | a created appointment is what `show` returns |
| AppointmentController.Update | api/src/Controller/AppointmentController.php:465-513 | 404 for an unknown id; a throw on an unparsable date; 200 exactly when the patched appointment validates, the row then holding the patch and every other appointment keeping its value |
| AppointmentController.PatchIdempotent | api/src/Controller/AppointmentController.php:485-491 | applying the same body twice is applying it once |
| AppointmentController.PatchKeepsLinks | api/src/Controller/AppointmentController.php:485-491 | update never changes the client, the user or the timestamps, and never clears the date |
| AppointmentController.UpdateKeepsGood | api/src/Controller/AppointmentController.php:465-513 | update keeps the store invariant |
| AppointmentController.Delete | api/src/Controller/AppointmentController.php:549-567 | 404 for an unknown id; otherwise exactly the rows with that id leave the table and every other appointment stays |
| AppointmentController.DeleteKeepsGood | api/src/Controller/AppointmentController.php:549-567 | delete keeps the store invariant |
| AppointmentController.CreateThenDelete | api/src/Controller/AppointmentController.php:351-567 | deleting an appointment just created restores the store, except the id counter |
| QuoteController.List | api/src/Controller/QuoteController.php:111-152 | 200 with the page and limit read from the query, the total of the status, and the quotes of the status on that page: exactly `min(limit, total - offset)` of them, none past the total |
| QuoteController.ListInOrder | api/src/Controller/QuoteController.php:111-152 | walking the pages lists quotes newest first, and in a good store no quote twice (no repeat and no loss rest on the one tie order every query shares; see Query.OrderForced) |
| QuoteController.ListPagesCover | api/src/Controller/QuoteController.php:111-152 | every quote of the status is on some page at most `pages` (no repeat and no loss rest on the one tie order every query shares; see Query.OrderForced) |
| QuoteController.Show | api/src/Controller/QuoteController.php:219-253 | the quote of the id, or 404 "Quote not found" |
| QuoteController.Create | api/src/Controller/QuoteController.php:305-373 | 201 exactly when the body is truthy, `validUntil` parses, both references are given and exist, and the quote validates; a throw exactly for an unparsable date or a valid quote missing its client or user; a 201 stores the quote built from the body, unsigned, with a reference that parses to (year, number), under a fresh id; a 400 changes nothing; no quote is created without an amount |
| QuoteController.Admit | api/src/Controller/QuoteController.php:330-373 | after the date: 400 for an unknown client or user, then the validator and the flush, with the same exact conditions for 201 and for a throw |
| QuoteController.Persist | api/src/Controller/QuoteController.php:349-373 | validation first; then the flush, which throws on a missing client or user and otherwise stores the quote with 201 |
| QuoteController.MissingAmountRefused | api/src/Entity/Quote.php:22-25 | a body without an amount is refused with 400 naming `amount`, although the action defaults it to 0 |
| QuoteController.CreateKeepsGood | api/src/Controller/QuoteController.php:305-373 | create keeps the store invariant |
| QuoteController.Update | api/src/Controller/QuoteController.php:421-470 | 404 for an unknown id; a throw on an unparsable `validUntil`; 200 exactly when the patched quote validates, the row then holding the patch and every other quote keeping its value |
| QuoteController.PatchIdempotent | api/src/Controller/QuoteController.php:441-448 | applying the same body twice is applying it once |
| QuoteController.PatchKeeps | api/src/Controller/QuoteController.php:441-448 | update never changes the reference, the signature, the links or the timestamps |
| QuoteController.UpdateKeepsGood | api/src/Controller/QuoteController.php:421-470 | update keeps the store invariant |
| QuoteController.Transition | api/src/Controller/QuoteController.php:506-579 | the shared tail of `send` and `sign`: the row takes the new value, every other quote keeps its value, and the other tables stay |
| QuoteController.Send | api/src/Controller/QuoteController.php:506-524 | 404 for an unknown id; otherwise the status becomes "sent", whatever it was, and every other quote and table is unchanged |
| QuoteController.Sign | api/src/Controller/QuoteController.php:560-579 | 404 for an unknown id; otherwise the status becomes "signed" and the signature date now, and every other quote and table is unchanged |
| QuoteController.SendIdempotent | api/src/Controller/QuoteController.php:506-524 | sending twice is sending once |
| QuoteController.SendAfterSign | api/src/Controller/QuoteController.php:506-579 | sending a signed quote makes it "sent" again but keeps its signature date |
| QuoteController.SignAnyStatus | api/src/Controller/QuoteController.php:560-579 | signing works from any status and touches only status and signature date |
| QuoteController.TransitionKeepsGood | api/src/Controller/QuoteController.php:506-579 | send and sign keep the store invariant |
| QuoteController.TransitionGood | api/src/Controller/QuoteController.php:506-579 | replacing a quote by one of an existing client keeps the invariant |
| QuoteController.Delete | api/src/Controller/QuoteController.php:615-633 | 404 for an unknown id; otherwise exactly the rows with that id leave the table and every other quote stays |
| QuoteController.DeleteKeepsGood | api/src/Controller/QuoteController.php:615-633 | delete keeps the store invariant |
| QuoteController.CreateThenDelete | api/src/Controller/QuoteController.php:305-633 | deleting a quote just created restores the store, except the id counter |
| SolarStudyController.List | api/src/Controller/SolarStudyController.php:71-98 | `findAll`: every study, once each |
| SolarStudyController.Show | api/src/Controller/SolarStudyController.php:159-191 | the study of the id, or 404 "Solar study not found" |
| SolarStudyController.Create | api/src/Controller/SolarStudyController.php:245-300 | 201 exactly when the body is truthy, the client is given and exists, and the study validates; the stored row is then the study built from the body; a valid study without a client throws on `solar_study.client_id`; any other failure is a 400 that changes nothing |
| SolarStudyController.NameAndClientSuffice | api/src/Controller/SolarStudyController.php:245-300 | a project name and an existing client are enough, and the study starts "pending" |
| SolarStudyController.CreateKeepsGood | api/src/Controller/SolarStudyController.php:245-300 | create keeps the store invariant |
| SolarStudyController.Update | api/src/Controller/SolarStudyController.php:352-402 | 404 for an unknown id; 200 exactly when the patched study validates, the row then holding the patch and every other study keeping its value |
| SolarStudyController.PatchIdempotent | api/src/Controller/SolarStudyController.php:372-380 | applying the same body twice is applying it once |
| SolarStudyController.PatchKeeps | api/src/Controller/SolarStudyController.php:372-380 | update never changes the client or the creation time, and never clears a figure |
| SolarStudyController.UpdateKeepsGood | api/src/Controller/SolarStudyController.php:352-402 | update keeps the store invariant |
| SolarStudyController.Delete | api/src/Controller/SolarStudyController.php:438-456 | 404 for an unknown id; otherwise exactly the rows with that id leave the table and every other study stays |
| SolarStudyController.DeleteKeepsGood | api/src/Controller/SolarStudyController.php:438-456 | delete keeps the store invariant |
| SolarStudyController.CreateThenDelete | api/src/Controller/SolarStudyController.php:245-456 | deleting a study just created restores the store, except the id counter |
| UserController.List | api/src/Controller/UserController.php:61-82 | `findAll`: every user, once each |
| UserController.Show | api/src/Controller/UserController.php:131-155 | the user of the id, or 404 "User not found" |
| UserController.Create | api/src/Controller/UserController.php:205-253 | 201 exactly when the body is truthy, the user validates and a password was given; the stored user is then the one built from the body, its password the hash of the given one; a valid user without a password throws on `user.password`; other failures are 400 and change nothing |
| UserController.NoPasswordThrows | api/migrations/Version20251113103855.php:48-50 | the password column is NOT NULL, so a valid user posted without one fails at the flush |
| UserController.CreateKeepsGood | api/src/Controller/UserController.php:205-253 | create keeps the store invariant |
| UserController.Update | api/src/Controller/UserController.php:302-356 | 404 for an unknown id; 200 exactly when the patched user validates, the row then holding the patch and every other user keeping its value |
| UserController.PatchPassword | api/src/Controller/UserController.php:322-334 | a given password is stored hashed, an absent one kept; roles change only for a list |
| UserController.PatchKeepsPersistable | api/src/Controller/UserController.php:322-334 | update never removes a password |
| UserController.UpdateKeepsGood | api/src/Controller/UserController.php:302-356 | update keeps the store invariant |
| UserController.Delete | api/src/Controller/UserController.php:392-410 | 404 for an unknown id; otherwise exactly the rows with that id leave the table, every other user stays, and rows naming it keep the id |
| UserController.DeleteKeepsGood | api/src/Controller/UserController.php:392-410 | delete keeps the store invariant |
| UserController.CreateThenDelete | api/src/Controller/UserController.php:205-410 | deleting a user just created restores the store, except the id counter |
| ActivityController.List | api/src/Controller/ActivityController.php:47-76 | the feed asks for `min(50, max(1, limit ?? 10))` activities and labels each with the reading its age calls for |
| ActivityController.Show | api/src/Controller/ActivityController.php:79-101 | the activity of the id, or 404 "Activity not found" |
| ActivityController.Create | api/src/Controller/ActivityController.php:132-185 | never throws; 201 exactly when the body is truthy and the activity validates; the stored row is then the activity built from the body, created at now, with only existing users and clients linked; otherwise 400 and no change |
| ActivityController.UnknownIdsIgnored | api/src/Controller/ActivityController.php:149-161 | an unknown user or client id is silently dropped, as if not given |
| ActivityController.TypeAndTitleRequired | api/src/Controller/ActivityController.php:143-147 | without a type or a title the activity is refused with 400 naming the missing property |
| ActivityController.CreateKeepsGood | api/src/Controller/ActivityController.php:132-185 | create keeps the store invariant |
| ActivityController.Delete | api/src/Controller/ActivityController.php:188-206 | 404 for an unknown id; otherwise exactly the rows with that id leave the table and every other activity stays |
| ActivityController.DeleteKeepsGood | api/src/Controller/ActivityController.php:188-206 | delete keeps the store invariant |
| ActivityController.CreateThenDelete | api/src/Controller/ActivityController.php:132-206 | deleting an activity just created restores the store, except the id counter |
| Statistics.ChangeTenths | api/src/Controller/StatisticsController.php:202-203 | the change in tenths of a percent: from a positive figure a rise is never negative and a fall never positive; no change is 0 |
| Statistics.ChangeTenthsNearest | api/src/Controller/StatisticsController.php:202-203 | the rounded change is within half a tenth of the exact change and no other tenth is closer |
| Statistics.PercentageChange | api/src/Controller/StatisticsController.php:193-209 | from 0: "+100%" positive for a rise, "0%" neutral otherwise; else the text starts with "+" exactly for a rounded change of zero or more and "-" exactly below, reads back as the rounded change, and the kind is its sign |
| Statistics.ChangeTextRoundTrip | api/src/Controller/StatisticsController.php:206 | the text of a change reads back as that change |
| Statistics.ChangeTextCanonical | api/src/Controller/StatisticsController.php:193-209 | conversely, any text the reader accepts is the printed form of the change it reads, or the "0%" of a change from nothing |
| Statistics.UnsignedRoundTrip | api/src/Controller/StatisticsController.php:206 | a float with at most one decimal reads back; its text has no leading zero before another digit, a point exactly when the tenths are not zero, and never ".0" |
| Statistics.UnsignedCanonical | api/src/Controller/StatisticsController.php:206 | conversely, any text the reader accepts is the printed form of its value, so the printing is the only spelling |
| Statistics.FromZero | api/src/Controller/StatisticsController.php:195-199 | from 0 the kind is positive for a rise and neutral otherwise, and "+100%" reads as 100.0 |
| Statistics.ChangeAtLeastMinusHundred | api/src/Controller/StatisticsController.php:202-203 | counts cannot fall by more than 100% |
| Statistics.ChangeExamples | api/src/Controller/StatisticsController.php:202-203 | 10 to 15 is +50%, 3 to 4 is +33.3%, 3 to 2 is -33.3%, 4 to 5 is +25% |
| Statistics.NegativeZeroText | api/src/Controller/StatisticsController.php:203-206 | a fall below 0.05% is written "+-0%" as the code stands (see Findings) |
| Statistics.SumAmounts | api/src/Controller/StatisticsController.php:140-147 | SQL `SUM`: null exactly when every amount is null; one row sums to its amount |
| Statistics.SumAmountsAppend | api/src/Controller/StatisticsController.php:140-147 | the sum over two stretches of rows combines their sums with null as identity, so the sum is that of the amounts present |
| Statistics.SumAmountsSwap | api/src/Controller/StatisticsController.php:140-147 | the order of the rows does not change the sum |
| Statistics.SumOfPositives | api/src/Entity/Quote.php:22-25 | sums of positive amounts are positive, and no sale gives 0 |
| Statistics.FormatRevenueReadsBack | api/src/Controller/StatisticsController.php:185 | `number_format(…, 0, ',', ' ') . '€'`: digit groups of three separated by spaces, then the euro sign, reading back as the euro amount rounded half away from zero |
| Statistics.TileOf | api/src/Controller/StatisticsController.php:112-137 | a count tile: the figure, and a change that is "+100%"/"0%" from zero and otherwise reads back as the rounded change from last month's figure |
| Statistics.RevenueTileOf | api/src/Controller/StatisticsController.php:165-185 | the revenue tile: `number_format` of the sum with the euro sign, reading back within half a euro, and the change from last month's sum |
| Statistics.DashboardOf | api/src/Controller/StatisticsController.php:81-191 | the appointments tile counts the appointments dated within this month, and its change is from the count dated within last month; the active-clients and quotes-in-progress tiles count the rows of the status, and their changes are from those created by the end of last month with the status now; the revenue text reads back within half a euro of the sum of signed quotes created since the start of this month, and its change is from the signed sum within last month; every change is "+100%"/"0%" from zero, and otherwise reads back as the rounded change |
| Statistics.RevenueWindows | api/src/Controller/StatisticsController.php:139-163 | a signed quote created at or after the start of this month counts in this month's revenue however late, and never in last month's; one created within last month counts only there; older ones count in neither |
| Statistics.StatusNeverFalls | api/src/Controller/StatisticsController.php:115-137 | "last month" counts rows of the status created by then, a subset of today's count |
| Statistics.NoFallNoNegative | api/src/Controller/StatisticsController.php:205-207 | a figure that did not fall never shows a negative change |
| Statistics.ClientsAndQuotesNeverFall | api/src/Controller/StatisticsController.php:115-137 | the active-clients and quotes-in-progress tiles can never show a negative change |
| Statistics.AppointmentWindowsDisjoint | api/src/Controller/StatisticsController.php:93-110 | this month's and last month's appointments are disjoint |
| Statistics.RevenueNotNegative | api/src/Controller/StatisticsController.php:139-185 | with positive amounts the revenue is never negative and its text never starts with '-' |
| Statistics.PerformanceOf | api/src/Controller/StatisticsController.php:253-280 | 18 of 25 visits (72.0%); the conversion rate is 12.5 points per signed quote out of a fixed 8; 570 of commission per signed quote |
| Statistics.SignRaisesPerformance | api/src/Controller/StatisticsController.php:258-261 | signing a quote that was not signed adds 12.5 points of conversion and 570 of commission |
| ExceptionSubscriber.ErrorMessage | api/src/EventSubscriber/ExceptionSubscriber.php:56-71 | in dev the exception's own message; elsewhere "An error occurred" exactly for the codes without a name of their own |
| ExceptionSubscriber.OnKernelException | api/src/EventSubscriber/ExceptionSubscriber.php:25-54 | a response exactly for `/api/` paths; its status is the exception's HTTP status or 500, in the body too; the debug block exactly in dev |
| ExceptionSubscriber.PublicResponseHidesDetails | api/src/EventSubscriber/ExceptionSubscriber.php:38-50 | outside dev two exceptions with the same status give the same response |
| ExceptionSubscriber.PlainExceptionIs500 | api/src/EventSubscriber/ExceptionSubscriber.php:34-41 | outside dev a non-HTTP exception gives 500 "An error occurred" |
| ExceptionSubscriber.PublicMessages | api/src/EventSubscriber/ExceptionSubscriber.php:62-70 | the message table, code by code |
| Kernel.Serve | api/src/EventSubscriber/ExceptionSubscriber.php:25-54 | a reply passes through with its store; a throw keeps the starting store and becomes the listener's response on `/api/` paths |
| Kernel.ThrowsAreServerErrors | api/src/EventSubscriber/ExceptionSubscriber.php:34-70 | every throw of the actions reaches a client outside dev as a bare 500 |
| Kernel.MissingClientIsServerError | api/src/Controller/AppointmentController.php:373-410 | an appointment posted without a client is a 500 whose dev message names the NOT NULL column |
| Validation.DetailsKeys | api/src/Controller/ClientController.php:204-208 | the `details` map has a key for exactly the violated properties |
| Validation.DetailsLastWins | api/src/Controller/ClientController.php:204-208 | for a property with several violations, the last message wins |
| Text.Grouped | api/src/Controller/StatisticsController.php:185 | the thousands grouping of `number_format`: digits with a space before every group of three, no leading zero except for 0 itself, reading back as the number |
| Text.CanonicalRoundTrip | api/src/Entity/Quote.php:210 | a digit string without a leading zero is PHP's string of its value |
| Text.ZeroPadParses | api/src/Entity/Quote.php:210 | `str_pad(…, 4, '0', STR_PAD_LEFT)` keeps the number's value |
| Text.IntToStringRoundTrip | api/src/Entity/Activity.php:147-155 | PHP's string of an integer reads back as it |

## Left out

- Doctrine, HTTP routing, the OpenAPI attributes, JWT security and the JSON
  view projections (which properties each reply echoes). Replies carry the whole row.
- The clock. `now`, today's midnights, the month bounds of `dashboard` and the
  year of a new reference are parameters. `random_int(1, 9999)` is a parameter
  `n` in 1..9999.
- Uniqueness of the quote reference and of the user email. The database
  enforces them and two references can collide. The model does not reject a
  duplicate.
- Foreign keys are not enforced by the database the migration targets. Deleting
  a user leaves rows that name it, as the model shows.
- `PreUpdate` timestamps. `updatedAt` is not advanced by the model's updates.
  `signedAt` and `validUntil` keep their time of day instead of the date-only
  column's truncation.
- PHP `(int)` casts of query parameters and loose payload types. A number given
  as a string, or a wrong JSON type, is not modelled. Decimal strings are
  integer hundredths.
- `DateTime` parsing. A date string either parses to a timestamp or throws. No
  other format rules are modelled.
- Exception file, line and trace are opaque strings.
- Ties in `ORDER BY createdAt DESC` (and `appointmentDate DESC`). The model
  resolves ties one fixed way, by the single sort `Query.Ordered`, and every
  query shares it. SQLite behaves so in practice, but SQL does not promise it.
  The no-repeat and no-loss halves of the `PagesInOrder`, `PagesCover…`,
  `ListInOrder` and `ListPagesCover` lemmas rely on this shared order.
  `Query.OrderForced` shows they hold for any tie order when no two selected
  rows that differ share the key. The cross-page ordering half holds
  regardless.
- PHP floating point. Changes and rates are exact rationals rounded half away
  from zero, except the negative-zero case under Findings.
- The User entity (User.php) is not part of this model, and neither is the
  ActivityRepository (ActivityRepository.php). The state `new User()` leaves,
  the user validator and `hashPassword` are parameters (`UserRules`). The hash
  depends on the password only, not on the user object. `findRecent` is a
  parameter of the activity feed.
- Authentication (AuthController.php) and the front end are outside the core.
- Statistics.PercentageChange: returns the corrected text, so a fall below
  0.05% reads "+0%"; only `ChangeTextAsWritten` and `NegativeZeroText` follow
  the code's "+-0%" (see Findings).
- ActivityController.List: the rows are whatever `findRecent` returns for the
  clamped limit, since the repository is not part of this model.

## Findings

| source | as written | input that shows it | evidently intended | confidence | as-written member | corrected member |
|---|---|---|---|---|---|---|
| api/src/Controller/StatisticsController.php:203-206 | `round($change, 1)` of a fall smaller than 0.05% is the float -0.0; `-0.0 >= 0` holds, so a "+" is prepended to its string "-0" | last month 3000, this month 2999: the text is "+-0%" with kind neutral | "+0%" (or "0%"), a text that reads as a change of zero | medium, not executed | Statistics.NegativeZeroText | Statistics.ChangeTextRoundTrip |
