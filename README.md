# Barbershop reservations, modelled in Dafny

This project models the logic of a barbershop booking web app. The app has a
Next.js front end and a Supabase (PostgREST) back end. The model covers:

- **Route handlers.**
  - `POST /api/appointments` looks up or creates a user by e-mail, converts a
    "hh:mm AM|PM" slot into the stored "HH:mm:00" form, and inserts one
    `booked` row.
  - `POST /api/appointments/cancel` finds one row by date, slot and owner, then
    sets its status to `cancelled`.
  - The two read-only queries, `getByDate` and `getUserAppointments`.
  - The Clerk webhook. It checks the Svix headers, picks an e-mail and a full
    name from the event, and adds the user keyed by Clerk id.
- **Client-side logic.**
  - The booking screen's catalog of slots, its local slot list, its
    booking-button decision and its three pieces of screen state.
  - The month calendar: grid bounds, navigation guards and click guards.
  - The morning/afternoon split of the slot list.
  - The sort of the "Your Reservations" dialog.

How the model is built:

- The database is the class `Database.Store`, which holds the `users` and
  `appointments` tables as sequences of rows plus the next values of their id
  sequences. Tables are valid (`Tables.Valid`) when ids are unique and every id
  lies below its sequence's next value.
- Each route handler that writes (booking, cancelling, the webhook) is an
  imperative method over the store. It is proved equal to a pure step function
  over a `Tables` value, for example
  `ensures Step(reply, db.State()) == BookStep(old(db.State()), q, faults)`.
  The lemmas are stated about those step functions. The two read-only routes,
  `getByDate` and `getUserAppointments`, are pure functions of the tables
  (`QueryRoutes.GetByDate`, `QueryRoutes.GetUserAppointments`).
- User ids come from one sequence, `users_id_seq`. `getOrCreateUser` draws from
  it through the column default and the webhook through the `get_next_id` RPC,
  so both advance the same `nextUserId` (`ClerkWebhook.SharedUserSequence`).
- A store call that can fail takes a boolean fault parameter, so every error
  branch of the handlers is modelled.
- PostgREST's `.single()` answers a row only when exactly one row matches
  (`Database.Single`). Zero or several matches are "not found".
- The model keeps what the code does, including the missing safeguards:
  - there is no double-booking check (`AppointmentsRoute.BookIgnoresExistingBooking`);
  - cancelling an appointment again succeeds (`CancelRoute.CancelTwice`);
  - two users sharing an e-mail make `getOrCreateUser` add a third
    (`AppointmentsRoute.GetOrCreateUserDuplicatesGrow`).
- JavaScript's string operations are written out in `JsStrings`:
  - `split` with a one-character separator;
  - `parseInt(s, 10)` with leading white space, a sign, a digit prefix and
    `NaN`;
  - integer `toString`, `padStart`, `trim` (ECMAScript white space), and
    `includes`.

  `convertTo24Hour` is modelled on every string, not only on well-formed slots.
- Calendar days are integers, with 0 standing for Thursday 1970-01-01. Months
  are integers, with 0 standing for January 1970. The calendar is Gregorian.
  `today` is a parameter.
- A booking stores the request's `date` text and the converted slot text as
  they are, and every filter compares them as text. For well-formed
  "yyyy-MM-dd" dates, `Dates.IsoDateOrder` proves that text order agrees with
  date order, which is what the `.gte('date', today)` filter relies on.

## Model

| member | source | states |
|---|---|---|
| TimeFormat.ConvertTo24HourSteps | src/app/api/appointments/route.ts:10-24 | Running `convertTo24Hour` as written (split, parse, two conditional updates of `hoursNum`, template) gives `ConvertTo24Hour` of the input, for every string |
| TimeFormat.SplitSlot | src/app/api/appointments/route.ts:11-12 | Splitting "hh:mm mod" at the space and then at the colon recovers hours, minutes and modifier when the pieces hold no separators |
| TimeFormat.ConvertPieces | src/app/api/appointments/route.ts:10-24 | A slot "hh:mm AM/PM" is converted by shifting `parseInt(hh)` by the modifier and rendering it with the minutes |
| TimeFormat.RenderTwoDigits | src/app/api/appointments/route.ts:23 | Rendering an hour below 100 prints its zero-padded two-digit spelling, then ":", the minutes and ":00" |
| TimeFormat.ShiftAndRender | src/app/api/appointments/route.ts:16-23 | For hours 1..12 the rendered hour is `h % 12`, plus 12 for PM |
| TimeFormat.ConvertCanonical | src/app/api/appointments/route.ts:10-24 | For a slot whose hours parse to 1..12 the output is the two-digit 24-hour hour, ":", the minutes copied verbatim, then ":00" |
| TimeFormat.ShiftHoursRules | src/app/api/appointments/route.ts:16-21 | 12 AM becomes 0; 12 PM stays 12; other PM hours gain 12; other AM hours are kept |
| TimeFormat.ShiftHoursOneToOne | src/app/api/appointments/route.ts:14-21 | For hours 1..12 with AM/PM the shifted hour exists, lies in 0..23, and different (hour, modifier) pairs give different hours |
| TimeFormat.ShiftHoursOnto | src/app/api/appointments/route.ts:16-21 | Every hour 0..23 is the shift of some 12-hour hour and modifier |
| TimeFormat.ConvertSameParse | src/app/api/appointments/route.ts:14 | Two hour texts that `parseInt` reads as the same number are converted alike |
| TimeFormat.ConvertLeadingZero | src/app/api/appointments/route.ts:11-14 | "9:mm" and "09:mm" are stored alike |
| TimeFormat.ConvertWithoutModifier | src/app/api/appointments/route.ts:16-23 | With no modifier the hour is not shifted: "13:00" is stored as "13:00:00" |
| TimeFormat.ConvertFormat12 | src/app/api/appointments/route.ts:10-24 | The "hh:mm AM/PM" spelling of a valid time converts to the 24-hour spelling of its minute of the day |
| TimeFormat.Format24Injective | src/app/api/appointments/route.ts:23 | The stored "HH:mm:00" text determines the minute of the day |
| TimeFormat.ClockOfFormat24 | src/app/api/appointments/route.ts:16-23 | Two valid 12-hour times with the same stored text are the same time |
| TimeFormat.ConvertInjective | src/app/api/appointments/route.ts:10-24 | `convertTo24Hour` is one to one on valid "hh:mm AM/PM" spellings |
| TimeFormat.MeridiemIncludes | src/components/AppointmentList.tsx:43-48 | A catalog-style time contains "AM" exactly when it is a morning time and "PM" exactly when it is an afternoon time |
| JsStrings.NatToDigitsValue | src/app/api/appointments/route.ts:23 | `toString` of a natural number is a digit string with its value, starting with 0 only for 0 itself |
| JsStrings.ParseIntRoundTrip | src/app/api/appointments/route.ts:14 | `parseInt` reads back what `toString` writes, for every integer, negative ones included |
| JsStrings.ParseTwoDigits | src/app/api/appointments/route.ts:14 | `parseInt` of a two-digit spelling is its value |
| JsStrings.TwoDigitsOfValue | src/app/api/appointments/route.ts:23 | Every two-character digit string is the padded spelling of its own value |
| JsStrings.PadStart | src/app/api/appointments/route.ts:23 | `padStart` yields the longer of the string and the target length: the fill character repeated, then the original string |
| JsStrings.PadTwoDigits | src/app/api/appointments/route.ts:23 | Padding `toString` of 0..99 to two places with "0" gives the two-digit spelling |
| JsStrings.DigitPrefixIsLongest | src/app/api/appointments/route.ts:14 | The digits `parseInt` reads are a prefix, and the character after them is not a digit |
| JsStrings.SplitPiecesFree | src/app/api/appointments/route.ts:11-12 | No piece of `split` contains the separator |
| JsStrings.JoinSplit | src/app/api/appointments/route.ts:11-12 | Joining the pieces of `split` with the separator gives back the string |
| JsStrings.SplitJoin | src/app/api/appointments/route.ts:11-12 | Splitting a join of separator-free pieces gives back the pieces |
| JsStrings.SplitAtFirst | src/app/api/appointments/route.ts:11-12 | The first piece of `split` is the text before the first separator, and the rest is the split of what follows it |
| JsStrings.TrimStartDropsWhitespace | src/app/api/webhooks/clerk/route.ts:133 | Everything trimmed from the start is white space |
| JsStrings.TrimEndDropsWhitespace | src/app/api/webhooks/clerk/route.ts:133 | Everything trimmed from the end is white space |
| JsStrings.TrimSpec | src/app/api/webhooks/clerk/route.ts:133 | `trim` leaves no white space at either end and removes only white space around the kept text |
| JsStrings.IncludesSpec | src/components/AppointmentList.tsx:44 | `includes` holds exactly when the substring occurs at some position |
| Sequences.FilterCounts | src/components/AppointmentList.tsx:43-48 | `filter` keeps each element satisfying the predicate as often as it occurs, and drops the others |
| Sequences.FilterMember | src/components/AppointmentList.tsx:43-48 | An element is in the filtered list exactly when it is in the input and satisfies the predicate |
| Sequences.FilterAppend | src/components/AppointmentList.tsx:43-48 | Filtering a concatenation concatenates the filtered parts, which preserves relative order |
| Sequences.FilterPartition | src/components/AppointmentList.tsx:43-48 | Two predicates that split every element give two filtered lists whose lengths sum to the input's |
| Sequences.FilterExcludes | src/components/AppointmentList.tsx:43-48 | An element satisfying neither predicate is in neither filtered list |
| Sequences.Insert | src/components/UserReservations.tsx:31-35 | Inserting adds exactly the one element |
| Sequences.SortBy | src/components/UserReservations.tsx:31-35 | The sort returns a permutation of its input |
| Sequences.InsertSorted | src/components/UserReservations.tsx:31-35 | Inserting into a sorted list under a total preorder keeps it sorted |
| Sequences.SortBySorted | src/components/UserReservations.tsx:31-35 | The sort's output is in non-decreasing order |
| Sequences.InsertStable | src/components/UserReservations.tsx:31-35 | Inserting keeps the relative order of the elements equivalent to any key |
| Sequences.SortByStable | src/components/UserReservations.tsx:31-35 | The sort is stable: elements that compare equal keep their input order |
| Database.Single | src/app/api/appointments/route.ts:28-32 | `.single()` gives a row exactly when one row matches, and that row is one of the matches |
| Database.FreshUserId | src/app/api/appointments/route.ts:39-49 | In valid tables the next value of `users_id_seq` is no user's id, so inserting under it cannot collide |
| Database.AddUserValid | src/app/api/appointments/route.ts:39-49 | Appending a user under the sequence's next value and advancing the sequence keeps user ids unique and below it |
| Database.AddAppointmentValid | src/app/api/appointments/route.ts:78-90 | Appending an appointment with the serial's next id keeps appointment ids unique and below the serial |
| Database.Empty | src/app/api/appointments/route.ts:78-90 | The empty tables are valid and hold no rows |
| Database.Store.constructor | src/app/api/appointments/route.ts:78-90 | A new store holds the empty tables, both of them valid and empty |
| AppointmentsRoute.GetOrCreateUser | src/app/api/appointments/route.ts:26-56 | The imperative lookup-or-insert leaves the store and answers as `GetOrCreateUserStep` says |
| AppointmentsRoute.GetOrCreateUserFound | src/app/api/appointments/route.ts:28-36 | When the lookup finds one user, its id is returned and nothing is written |
| AppointmentsRoute.GetOrCreateUserCreates | src/app/api/appointments/route.ts:39-55 | Otherwise exactly one user with the given name and e-mail is appended, its id is returned, and the appointments are untouched |
| AppointmentsRoute.GetOrCreateUserInsertFails | src/app/api/appointments/route.ts:51-53 | A failed insert throws and leaves the store unchanged |
| AppointmentsRoute.GetOrCreateUserCount | src/app/api/appointments/route.ts:26-56 | After one call, the number of users with the e-mail is unchanged if nothing was written, and one more otherwise |
| AppointmentsRoute.GetOrCreateUserTwice | src/app/api/appointments/route.ts:34-36 | Two calls with one e-mail and answering lookups leave at most one user with it, when there was at most one before |
| AppointmentsRoute.GetOrCreateUserDuplicatesGrow | src/app/api/appointments/route.ts:28-36 | With two users already sharing the e-mail, `.single()` finds nothing, so a third is added |
| AppointmentsRoute.GetOrCreateUserValid | src/app/api/appointments/route.ts:39-49 | The user step keeps the tables valid |
| AppointmentsRoute.UserFoundOrCreated | src/app/api/appointments/route.ts:26-56 | The returned id belongs to a user row with the requested e-mail |
| AppointmentsRoute.Book | src/app/api/appointments/route.ts:58-108 | The imperative handler leaves the store and answers as `BookStep` says |
| AppointmentsRoute.BookMissingField | src/app/api/appointments/route.ts:63-68 | A request missing any of the six fields is answered 400 and writes nothing |
| AppointmentsRoute.BookAppendsOneRow | src/app/api/appointments/route.ts:78-90 | On success exactly one `booked` row is appended with the request's barber and date and the converted slot; its id is fresh, its user has the request's e-mail, and earlier rows are kept |
| AppointmentsRoute.BookIgnoresExistingBooking | src/app/api/appointments/route.ts:78-90 | A booking succeeds even when the same barber, date and slot is already booked, leaving one more such row |
| AppointmentsRoute.BookKeepsCreatedUser | src/app/api/appointments/route.ts:71-98 | A failed appointment insert answers 500 and keeps the user created on the way |
| AppointmentsRoute.BookValid | src/app/api/appointments/route.ts:58-108 | Booking keeps user and appointment ids unique and below their sequences' next values |
| AppointmentsRoute.BookCatalogSlot | src/app/api/appointments/route.ts:74 | Booking a catalog slot stores its time of day in 24-hour form |
| CancelRoute.WithStatus | src/app/api/appointments/cancel/route.ts:72-76 | The update keeps the number of rows |
| CancelRoute.SetStatus | src/app/api/appointments/cancel/route.ts:72-76 | The row-by-row update sets the status of exactly the rows with the id and changes nothing else in the store |
| CancelRoute.Cancel | src/app/api/appointments/cancel/route.ts:42-89 | The imperative handler leaves the store and answers as `CancelStep` says |
| CancelRoute.CancelNotFound | src/app/api/appointments/cancel/route.ts:58-69 | A lookup error, or anything other than exactly one match, answers 404 and changes nothing |
| CancelRoute.CancelUpdateFails | src/app/api/appointments/cancel/route.ts:78-84 | A failed update answers 500 and changes nothing |
| CancelRoute.CancelSuccess | src/app/api/appointments/cancel/route.ts:72-89 | On success the reply is the matched row as read before the update; only rows with its id become `cancelled`; all else is unchanged |
| CancelRoute.CancelChangesOneRow | src/app/api/appointments/cancel/route.ts:72-76 | With unique ids exactly one row, the found one, changes |
| CancelRoute.CancelTwice | src/app/api/appointments/cancel/route.ts:42-89 | Cancelling again succeeds, leaves the tables as they were after the first cancel, and replies with the now-cancelled row |
| CancelRoute.StatusUpdateKeepsCandidates | src/app/api/appointments/cancel/route.ts:42-53 | The lookup ignores status, so after the update it finds the updated versions of the same rows |
| CancelRoute.CancelAmbiguous | src/app/api/appointments/cancel/route.ts:42-69 | Two matching rows make `.single()` fail: 404 and no update |
| CancelRoute.CancelValid | src/app/api/appointments/cancel/route.ts:72-76 | Cancelling keeps the tables valid |
| QueryRoutes.GetByDateMissing | src/app/api/appointments/getByDate/route.ts:15-20 | A missing or empty `date` is answered 400 whatever the tables hold |
| QueryRoutes.GetByDateQueryFails | src/app/api/appointments/getByDate/route.ts:39-45 | With a date given, a failed query is answered 500 whatever the tables hold |
| QueryRoutes.GetByDateExact | src/app/api/appointments/getByDate/route.ts:23-47 | Exactly the booked rows of that date are returned, each as often as in the table |
| QueryRoutes.DateLeTotalPreorder | src/app/api/appointments/getUserAppointments/route.ts:59 | Ordering rows by date text is a total preorder |
| QueryRoutes.GetUserAppointmentsRejects | src/app/api/appointments/getUserAppointments/route.ts:15-35 | A missing e-mail answers 400, and an unknown or ambiguous one 404, whatever the appointments are |
| QueryRoutes.GetUserAppointmentsErrors | src/app/api/appointments/getUserAppointments/route.ts:29-67 | A failed user lookup answers 404; with the one user found, a failed query answers 500 |
| QueryRoutes.GetUserAppointmentsExact | src/app/api/appointments/getUserAppointments/route.ts:38-70 | The result holds exactly the found user's booked rows dated today or later, each as often as in the table, sorted by date |
| QueryRoutes.UpcomingSameDateOrder | src/app/api/appointments/getUserAppointments/route.ts:59 | Only dates are ordered, so rows sharing a date are not ordered by time slot. That they keep table order is the model's choice for ties, which PostgreSQL leaves open (see "Left out") |
| QueryRoutes.UpcomingIsChronological | src/app/api/appointments/getUserAppointments/route.ts:57 | For well-formed dates the text filter `date >= today` keeps exactly the rows not before today |
| Dates.LexLeReflexive | src/app/api/appointments/getUserAppointments/route.ts:57 | String order is reflexive |
| Dates.LexLeTotal | src/app/api/appointments/getUserAppointments/route.ts:57 | String order is total |
| Dates.LexLeTransitive | src/app/api/appointments/getUserAppointments/route.ts:57 | String order is transitive |
| Dates.LexLeAntisymmetric | src/app/api/appointments/getUserAppointments/route.ts:57 | String order is antisymmetric |
| Dates.LexLeAppend | src/app/api/appointments/getUserAppointments/route.ts:57 | After equal-length heads, strings compare by the heads, or by the tails when the heads agree |
| Dates.TwoDigitsOrder | src/app/api/appointments/getUserAppointments/route.ts:57 | Two-digit spellings compare as their values |
| Dates.FourDigitsOrder | src/app/api/appointments/getUserAppointments/route.ts:57 | Four-digit year spellings compare as their values and are equal only for equal years |
| Dates.MonthDayOrder | src/app/api/appointments/getUserAppointments/route.ts:57 | "MM-dd" texts compare as (month, day) |
| Dates.IsoDateOrder | src/app/api/appointments/getUserAppointments/route.ts:57 | "yyyy-MM-dd" texts compare as dates and are equal only for equal dates |
| ClerkWebhook.SelectUserInfo | src/app/api/webhooks/clerk/route.ts:119-133 | The reassignments of `primaryEmail`, `firstName` and `lastName` yield the e-mail and full name the selection rules define |
| ClerkWebhook.PrimaryEmailRule | src/app/api/webhooks/clerk/route.ts:120-123 | A non-empty first e-mail wins; failing that, the first external account's e-mail; otherwise none is usable |
| ClerkWebhook.NamesRule | src/app/api/webhooks/clerk/route.ts:126-131 | Both names are kept when both are set or there is no external account; otherwise both come from the account, with a missing one read as "" |
| ClerkWebhook.FullNameTrimmed | src/app/api/webhooks/clerk/route.ts:133 | The full name has no white space at either end and is the joined names with only white space trimmed |
| ClerkWebhook.FullNameOfCleanNames | src/app/api/webhooks/clerk/route.ts:133 | Names without surrounding white space are joined by one space |
| ClerkWebhook.FullNameEmpty | src/app/api/webhooks/clerk/route.ts:133 | With no name anywhere the full name is "" |
| ClerkWebhook.AddUserToDatabase | src/app/api/webhooks/clerk/route.ts:12-66 | The imperative lookup, draw from `users_id_seq` and insert leave the store, the sequence included, and answer as `AddUserStep` says |
| ClerkWebhook.AddUserKeepsExisting | src/app/api/webhooks/clerk/route.ts:15-24 | A user stored under the Clerk id is returned unchanged and nothing is written |
| ClerkWebhook.AddUserInserts | src/app/api/webhooks/clerk/route.ts:39-61 | Otherwise exactly one row is appended with the sequence's next value as id, keyed by the Clerk id, with the e-mail, the name and no phone; the sequence advances and appointments are untouched |
| ClerkWebhook.AddUserFails | src/app/api/webhooks/clerk/route.ts:27-58 | An erring RPC throws and changes nothing; a failed insert throws after the draw, so only the sequence has moved |
| ClerkWebhook.AddUserStepValid | src/app/api/webhooks/clerk/route.ts:27-58 | The draw and the insert keep user ids unique and below the sequence, which never goes back |
| ClerkWebhook.Webhook | src/app/api/webhooks/clerk/route.ts:68-191 | The imperative handler leaves the store and answers as `WebhookStep` says |
| ClerkWebhook.WebhookMissingHeaders | src/app/api/webhooks/clerk/route.ts:70-90 | A missing Svix header answers 400 before anything else, and nothing is written |
| ClerkWebhook.WebhookOtherEvents | src/app/api/webhooks/clerk/route.ts:165-173 | Event types other than user.created and user.updated answer 200 and write nothing |
| ClerkWebhook.WebhookNoEmail | src/app/api/webhooks/clerk/route.ts:136-151 | Without a usable e-mail the answer is 400 and no user is added |
| ClerkWebhook.WebhookUpdateChangesNothing | src/app/api/webhooks/clerk/route.ts:15-24 | `user.updated` for a stored user answers 200 and leaves the tables exactly as they were |
| ClerkWebhook.WebhookCreates | src/app/api/webhooks/clerk/route.ts:115-162 | A new user event appends the selected e-mail and full name under the Clerk id, with the sequence's next value as id, advances the sequence and answers 200 |
| ClerkWebhook.WebhookValid | src/app/api/webhooks/clerk/route.ts:12-66 | The webhook keeps the tables valid and never moves `users_id_seq` back |
| ClerkWebhook.SharedUserSequence | src/app/api/webhooks/clerk/route.ts:27-28 | After any webhook call, `getOrCreateUser` for an e-mail no single user holds inserts under the sequence's next value, an id no user has, and succeeds when the store does |
| ReservationApp.CatalogSpelling | src/components/ReservationApp.tsx:25-30 | The catalog has 18 entries, each the "hh:mm AM/PM" spelling of a valid time |
| ReservationApp.CatalogStep | src/components/ReservationApp.tsx:25-30 | Each catalog entry is earlier in the day than the next, by 30 minutes, or by 60 across the skipped 12:30 PM |
| ReservationApp.CatalogAscending | src/components/ReservationApp.tsx:25-30 | The catalog is in strictly ascending time of day, so its entries are distinct |
| ReservationApp.CatalogSkipsLunch | src/components/ReservationApp.tsx:25-30 | There is no 12:30 PM slot |
| ReservationApp.CatalogConvertsDistinctly | src/app/api/appointments/route.ts:10-24 | Distinct catalog entries are distinct texts and are stored as distinct `time_slot` strings |
| ReservationApp.CatalogStoredForm | src/app/api/appointments/route.ts:10-24 | Each catalog entry is stored as the 24-hour spelling of its own time of day |
| ReservationApp.MarkBooked | src/components/ReservationApp.tsx:68-77 | The `map` keeps the list's length |
| ReservationApp.MarkBookedEffect | src/components/ReservationApp.tsx:67-77 | Entries at the booked time become booked by the user and keep time, barber and picture; other entries and positions are unchanged |
| ReservationApp.MarkBookedIdempotent | src/components/ReservationApp.tsx:66-80 | Marking the same slot for the same user twice is marking it once |
| ReservationApp.MarkBookedUnknownTime | src/components/ReservationApp.tsx:68-77 | Marking a time no entry has changes nothing |
| ReservationApp.RenderBookButtonRule | src/components/ReservationApp.tsx:82-110 | A booked entry shows "Booked" (disabled) whoever looks; an unbooked one shows "Book Now" exactly when signed in and "Sign in to Book" otherwise |
| ReservationApp.BookedSlotShowsBooked | src/components/ReservationApp.tsx:66-110 | After a booking succeeds every entry at that time shows "Booked" |
| ReservationApp.InitialSlots | src/components/ReservationApp.tsx:45-56 | The screen starts with two unbooked entries at the catalog's 09:00 AM and 10:00 AM |
| ReservationApp.ReservationScreen.constructor | src/components/ReservationApp.tsx:42-56 | The initial state: today selected, nothing selected, modal closed, the two initial entries |
| ReservationApp.ReservationScreen.HandleAppointmentSelect | src/components/ReservationApp.tsx:58-64 | Signed out, nothing changes; signed in, the entry is selected and the modal opens; the list is untouched either way |
| ReservationApp.ReservationScreen.HandleBookingSuccess | src/components/ReservationApp.tsx:66-80 | The list becomes `MarkBooked` of the old list and the modal closes; the selection and date are kept |
| ReservationApp.ReservationScreen.CloseModal | src/components/ReservationApp.tsx:146 | The modal closes and nothing else changes |
| ReservationApp.ReservationScreen.SelectDate | src/components/ReservationApp.tsx:138 | The calendar's choice becomes the selected date and nothing else changes |
| CalendarWidget.Weekday | src/components/CalendarWidget.tsx:35 | `getDay` is in 0..6 |
| CalendarWidget.DaysInMonth | src/components/CalendarWidget.tsx:34 | A month has 28 to 31 days |
| CalendarWidget.FirstDayNext | src/components/CalendarWidget.tsx:33-34 | Consecutive months are laid end to end |
| CalendarWidget.FirstDayIncreasing | src/components/CalendarWidget.tsx:33 | Each later month starts at least 28 days later per month |
| CalendarWidget.InMonthUnique | src/components/CalendarWidget.tsx:33-34 | A day lies in exactly one month |
| CalendarWidget.MonthOf | src/components/CalendarWidget.tsx:29 | `startOfMonth` of a day finds a month containing it |
| CalendarWidget.MonthOfIs | src/components/CalendarWidget.tsx:29 | The month of a day is the one month containing it |
| CalendarWidget.GridBounds | src/components/CalendarWidget.tsx:33-36 | The grid starts on a Sunday at most six days before the first of the month and ends on a Saturday at most six days after its last day |
| CalendarWidget.GridShape | src/components/CalendarWidget.tsx:38-41 | The grid is consecutive days from start to end, whole weeks, 28 to 42 days |
| CalendarWidget.GridCoversMonth | src/components/CalendarWidget.tsx:38-41 | Every day of the month is in the grid, at its offset from the start |
| CalendarWidget.GridNeighbours | src/components/CalendarWidget.tsx:38-41 | Grid days belong to the month or one of its two neighbours |
| CalendarWidget.SameMonthOfYearInGrid | src/components/CalendarWidget.tsx:124 | In the grid, comparing only `getMonth` tells the month's own days exactly |
| CalendarWidget.PrevDisabledRule | src/components/CalendarWidget.tsx:78 | The back button is disabled exactly when the previous month is before today's |
| CalendarWidget.HandleDateClick | src/components/CalendarWidget.tsx:54-58 | A click selects only the clicked day |
| CalendarWidget.HandleDateClickRule | src/components/CalendarWidget.tsx:54-58 | A click selects a day exactly when it is today or later |
| CalendarWidget.CellClickRule | src/components/CalendarWidget.tsx:123-131 | A grid cell selects its day exactly when the day is not past and lies in the shown month |
| CalendarWidget.Calendar.constructor | src/components/CalendarWidget.tsx:29 | The shown month starts as the selected date's month |
| CalendarWidget.Calendar.HandlePrevMonth | src/components/CalendarWidget.tsx:43-48 | Back moves one month unless blocked; blocked exactly when the button is disabled; a move never lands before today's month |
| CalendarWidget.Calendar.HandleNextMonth | src/components/CalendarWidget.tsx:50-52 | Forward always moves exactly one month |
| CalendarWidget.PrevKeepsFromToday | src/components/CalendarWidget.tsx:43-48 | From today's month or later, going back never leaves that range |
| AppointmentList.ColumnsExact | src/components/AppointmentList.tsx:43-48 | The morning column holds exactly the entries containing "AM", and the afternoon column those containing "PM", each as often as in the input |
| AppointmentList.ColumnsKeepOrder | src/components/AppointmentList.tsx:43-48 | Both columns keep the input's relative order |
| AppointmentList.NeitherColumn | src/components/AppointmentList.tsx:43-48 | An entry containing neither marker is in neither column |
| AppointmentList.CatalogTimeInOneColumn | src/components/AppointmentList.tsx:43-48 | Every catalog time contains exactly one of "AM" and "PM" |
| AppointmentList.CatalogColumnsPartition | src/components/AppointmentList.tsx:43-48 | For catalog times the columns are disjoint and their lengths sum to the input's |
| UserReservations.InstantOrder | src/components/UserReservations.tsx:32-34 | Comparing the built instants compares dates, then times of day |
| UserReservations.EarlierOrSameTotalPreorder | src/components/UserReservations.tsx:31-35 | The comparator is a total preorder |
| UserReservations.SortedReservationsSpec | src/components/UserReservations.tsx:31-35 | The sorted copy is a permutation of the input, of the same length, in non-decreasing (date, time of day) order |
| UserReservations.SortedReservationsStable | src/components/UserReservations.tsx:31-35 | Reservations at the same date and time keep their input order |
| UserReservations.TieMeansSameSlot | src/components/UserReservations.tsx:31-35 | Two reservations tie exactly when date and time of day agree |
| UserReservations.RenderSpec | src/components/UserReservations.tsx:76-82 | The empty state shows exactly for no reservations; otherwise every reservation is listed once |

## Left out

- Network I/O, Supabase client creation, environment-variable checks and
  console logging are not modelled. Each store call is a step on in-memory
  tables, and its failure is a boolean parameter.
- JSON request parsing and the outer `catch` that answers 500 on a thrown
  parse error are not modelled. Requests arrive parsed, with absent fields as
  `None`. The exception is the failure of `getOrCreateUser`, which is
  modelled.
- Svix signature verification is foreign code. The verified event is a
  parameter, and `None` stands for a verification that throws.
- The `get_next_id` RPC runs inside the database and is not part of this
  model. It is taken to be `nextval` on the sequence it names: it answers
  `nextUserId` and advances it. Whether it errs is a fault parameter.
- The `created_at` and `updated_at` timestamps of inserted users, and the
  joined `users` and `barbers` columns of query results, are not modelled.
- CancelRoute: the owner filter `.eq('users.email', …)` acts on an embedded
  resource, and its effect on parent rows depends on the query library. It is
  a parameter, and no ownership or access guarantee is claimed.
- CancelRoute: the handler's first query only feeds a log line and is not
  modelled.
- Rows carry their full content, so a reply that returns only `id` is modelled
  by returning the whole row's id.
- Values that a failed insert consumes through a column default are not
  modelled: `getOrCreateUser` and the appointment insert advance their
  sequence only on success. The webhook's `get_next_id` draw is a call of its
  own, so it stays consumed when the insert after it fails.
- Database column types are not modelled. `date` and `time_slot` are compared
  as text. PostgreSQL's normalisation of typed `date`/`time` values, and its
  rejection of malformed ones such as "NaN:undefined:00", are not modelled;
  such a value is stored as the request gave it.
- Concurrency is not modelled: handlers run one at a time, so the
  lookup-then-insert races are out of scope.
- QueryRoutes.GetUserAppointmentsExact: PostgreSQL leaves the order of rows
  with equal dates open. The model keeps table order for them, and the contract
  claims only sorting by date and the exact multiset of rows.
- QueryRoutes: today's UTC date string is a parameter.
- CalendarWidget: the wall clock, time zones and date-fns are not modelled.
  Days are integers, `today` is the start of the current day passed as a
  parameter, and the proleptic Gregorian calendar stands in for JavaScript
  `Date`.
- UserReservations: JavaScript `Date` parsing of "yyyy/MM/dd h:mm AM" text is
  not modelled. Each reservation carries its day and its minute of the day,
  and the comparator compares the resulting instant. The input is a value, so
  "the input is not mutated" holds by construction.
- TimeFormat.ConvertTo24HourSteps and JsStrings: numbers are unbounded
  integers. `parseInt` of digit strings past 2^53 (double rounding) and
  `toString` of numbers of 10^21 or more (exponent notation) are not modelled.
- JsStrings.Split: only one-character separators are modelled, which is all
  the source uses.
- Rendering, styling, the `BARBERS` list beyond the two initial entries,
  `NextAppointmentCard`, `BookingModal`, `LoadingSkeletons`, `Header` and the
  page layouts are not modelled; they hold no logic.
- `ReservationForm` is not modelled: its submit handler only logs and alerts.
- The cleanup and barbers routes are not modelled: each is a single RPC or
  query with no logic.
- The Clerk middleware is not modelled: it is library configuration.
