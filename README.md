# Hospital scheduler: the appointment allocation engine, in Dafny

This project models the core of a hospital appointment scheduler: the
service that books a patient with a doctor of a requested specialization,
and the doctor registry it works against.

A doctor record holds an id, a specialization, a daily capacity
(`maxDailyPatients`) and a counter of today's bookings
(`currentAppointments`). A booking request names a specialization. The
service rejects a missing or blank request. Otherwise it reads the doctors
whose specialization equals the trimmed request ignoring case. It answers
"not found" when there are none, and "all full" (with their number and the request as given) when
none has a free slot. Otherwise it picks the available doctor with the
fewest bookings, breaking ties by the smaller doctor id. It then commits
with one atomic conditional increment. That increment adds 1 only if the
doctor is still below the capacity read earlier, and otherwise the booking
ends in a conflict with nothing changed. The registry also registers
doctors, resets every counter for a new day, lists the doctors by load
ratio, and summarises the store per specialization.

The central invariant, I1, is `0 <= currentAppointments <= maxDailyPatients`
for every doctor. The schema does not enforce it: it only requires a
non-negative count and a capacity of at least 1. I1 holds because of the
guard in the conditional increment, and because a capacity never changes
after registration. The model proves I1 is kept by registration, by the
reset, by an uncontended booking and by a booking that other operations
race between its read and its commit.

Modules, one per concern of the source:

- `Text` (`text.dfy`): JavaScript's `trim`, ASCII case folding for the
  case-insensitive match, the code-point string order of the database's
  sort, and an abstraction of `localeCompare` as a strict total order.
- `DoctorModel` (`doctor.dfy`): the `Doctor` record, the schema's
  constraints (`SchemaValid`), unique ids, I1 (`CapacityInvariant`), and
  `Evolves`, the way the store may change between two observations
  (append-only, only counts change).
- `Registry` (`registry.dfy`): the stored collection as a class with the
  three store operations (`Save`, `FindOneAndIncrement`,
  `ResetAll`), each one step in the model. Its `Valid()` is what the database enforces (schema and
  unique index). I1 is kept separately by the operations that use it.
- `Allocation` (`allocation.dfy`): the booking policy as pure functions
  of a request and a snapshot (`Decide`, `LeastLoaded`).
- `Booking` (`booking.dfy`): the booking method, its commit step, and
  booking under interference.
- `Controller` (`controller.dfy`): registration, the daily reset, and the
  listing sorted in place by load ratio.
- `Summary` (`summary.dfy`): the per-specialization summary.
- `Wrappers` (`wrappers.dfy`): `Option` and `Result`.

Three behaviours of the code shape the model:

- The summary groups by the exact stored specialization string, case
  included, while booking matches ignoring case. "Cardiology" and
  "cardiology" are two summary entries, but one booking pool.
- The guard of the conditional increment compares the stored count with
  the capacity from the earlier read, not the stored capacity. The model
  keeps that. `Booking.Commit` keeps I1 when the two capacities
  agree, and `DoctorModel.GuardAboveCapacityOverbooks` shows what a larger
  limit would allow.
- Uncontended, the chosen doctor is always booked. A conflict arises only
  when other operations change the store between the read and the update.

## Model

| member | source | states |
|---|---|---|
| `Text.IsWhitespace` | server/services/appointmentService.js:32 | the characters `trim` removes: exactly ECMAScript's WhiteSpace and LineTerminator code points |
| `Text.Trim` | server/services/appointmentService.js:26 | the result has no whitespace at either end, and it is empty exactly when the input is blank, so the blank check and `trim()` agree |
| `Text.TrimStart` | server/services/appointmentService.js:32 | the result is a suffix of the input, everything dropped is whitespace, and it does not start with whitespace |
| `Text.TrimEnd` | server/services/appointmentService.js:32 | the result is a prefix of the input, everything dropped is whitespace, and it does not end with whitespace |
| `Text.TrimIsTrimStartThenTrimEnd` | server/services/appointmentService.js:32 | `trim` removes exactly what `trimStart` and then `trimEnd` remove: leading and trailing whitespace, nothing else |
| `Text.TrimOfTrimmed` | server/models/Doctor.js:19 | trimming a string that is already trimmed leaves it unchanged, so the schema's `trim` setter changes nothing the controller already trimmed |
| `Text.TrimIdempotent` | server/controllers/doctorController.js:49-50 | trimming twice is trimming once |
| `Text.IsAbsentOrBlank` | server/services/appointmentService.js:26 | an input is refused when it is absent or trims to the empty string; the same check guards the id and specialization of a registration at server/controllers/doctorController.js:40 |
| `Text.EqualsIgnoreCase` | server/services/appointmentService.js:32 | the whole-string, case-insensitive match of the anchored regular expression with the `i` flag, as equality after ASCII lower-casing |
| `Text.LexLess` | server/services/appointmentService.js:122 | the ascending string order of `$sort`: lexicographic by character, a proper prefix first |
| `Text.LexLessIrreflexive` | server/services/appointmentService.js:122 | the code-point order used to sort the summary is irreflexive |
| `Text.LexLessTransitive` | server/services/appointmentService.js:122 | the code-point order is transitive |
| `Text.LexLessTotal` | server/services/appointmentService.js:122 | any two distinct strings are ordered one way or the other |
| `Text.LexLessAsymmetric` | server/services/appointmentService.js:122 | the code-point order never holds both ways |
| `Text.IdLess` | server/services/appointmentService.js:59 | the `localeCompare` order on ids: case-insensitive lexicographic order, then, between ids differing only in case, the lower-case letter first |
| `Text.IdLessIrreflexive` | server/services/appointmentService.js:59 | the id tie-break order is irreflexive |
| `Text.IdLessTransitive` | server/services/appointmentService.js:59 | the id tie-break order is transitive |
| `Text.IdLessTotal` | server/services/appointmentService.js:59 | distinct ids are always ordered, so the tie-break always decides |
| `Text.IdLessAsymmetric` | server/services/appointmentService.js:59 | the id tie-break order never holds both ways |
| `Text.LowerCaseIdFirst` | server/services/appointmentService.js:59 | of two ids differing only in case, `d1` sorts before `D1` and not the other way |
| `DoctorModel.SchemaValid` | server/models/Doctor.js:13-35 | what the schema accepts: a non-empty trimmed id and specialization, a capacity of at least 1 and a count of at least 0 |
| `DoctorModel.IsAvailable` | server/services/appointmentService.js:44 | a doctor has a free slot when `currentAppointments < maxDailyPatients`, the same test the summary counts at :104 |
| `DoctorModel.NewDoctor` | server/controllers/doctorController.js:48-52 | a new document has trimmed id and specialization, the given capacity and a count of 0; from non-blank fields and a capacity of at least 1 it passes the schema, is within capacity and is available |
| `DoctorModel.UniqueIds` | server/models/Doctor.js:18 | the unique index: no two stored records share a `doctorId` |
| `DoctorModel.FindIndex` | server/services/appointmentService.js:67 | lookup by `doctorId` finds a record with that id, and finds none exactly when no record has it |
| `DoctorModel.FindIndexOfMember` | server/models/Doctor.js:18 | with the unique index, lookup by a record's id finds that very record |
| `DoctorModel.Filter` | server/services/appointmentService.js:43-45 | the filtered doctors are exactly the kept ones of the input, as a sub-multiset of it |
| `DoctorModel.ResetCounts` | server/controllers/doctorController.js:85 | the reset keeps the same records in the same order with ids, specializations and capacities unchanged; every count is 0; on a schema-valid store it restores I1 and makes every doctor available |
| `DoctorModel.Incremented` | server/services/appointmentService.js:70 | the `$inc`: the same record with its count raised by exactly 1 |
| `DoctorModel.IncrementKeepsCapacity` | server/services/appointmentService.js:65-72 | a +1 guarded by `count < limit`, with the limit at most the capacity, keeps I1 and changes nothing but that count |
| `DoctorModel.GuardAboveCapacityOverbooks` | server/services/appointmentService.js:68 | with a limit above the stored capacity, the guard would let a full doctor go past capacity |
| `DoctorModel.EvolvesTransitive` | server/services/appointmentService.js:31-72 | two successive store changes that keep every existing record's identity compose into one |
| `Registry.Normalized` | server/models/Doctor.js:19-24 | the `trim` setters: a document as stored has both strings trimmed and its numbers as given |
| `Registry.DoctorCollection.Save` | server/models/Doctor.js:13-35 | saving trims both strings, refuses a document the schema rejects or whose id is already stored with nothing stored, and otherwise appends exactly that record; the collection stays schema-valid with unique ids |
| `Registry.DoctorCollection.FindOneAndIncrement` | server/services/appointmentService.js:65-72 | atomically adds 1 to the count of the record with that id, and returns it, only if its count is below the limit at that moment; otherwise returns nothing and changes nothing |
| `Registry.DoctorCollection.ResetAll` | server/controllers/doctorController.js:85-88 | every count becomes 0, and the returned modified count is the number of stored records: the schema keeps timestamps, so the update also sets `updatedAt` on every record and every record counts as modified |
| `Allocation.Matches` | server/services/appointmentService.js:32 | a doctor matches when its whole specialization equals the trimmed request ignoring case |
| `Allocation.MatchingDoctors` | server/services/appointmentService.js:31-33 | the matches are exactly the stored doctors whose specialization equals the request ignoring case, as a whole string |
| `Allocation.AvailableDoctors` | server/services/appointmentService.js:43-45 | the available doctors are exactly those with `currentAppointments < maxDailyPatients` |
| `Allocation.LessLoaded` | server/services/appointmentService.js:56-60 | the sort comparator: fewer bookings first, and on equal bookings the `localeCompare` order of ids |
| `Allocation.LessLoadedTransitive` | server/services/appointmentService.js:56-60 | the sort comparator (load, then id) is transitive |
| `Allocation.LessLoadedTotal` | server/services/appointmentService.js:56-60 | two doctors with different ids are always ordered by the comparator |
| `Allocation.LessLoadedIrreflexive` | server/services/appointmentService.js:56-60 | no doctor sorts before itself |
| `Allocation.LeastLoaded` | server/services/appointmentService.js:56-62 | the picked doctor is a candidate, and no candidate has fewer bookings, or equal bookings and a smaller id |
| `Allocation.UniqueIdsIdentify` | server/models/Doctor.js:18 | in a store with unique ids, two records with the same id are the same record |
| `Allocation.LeastLoadedIsUnique` | server/services/appointmentService.js:56-62 | when ids identify records there is exactly one least loaded candidate |
| `Allocation.LeastLoadedIgnoresOrder` | server/services/appointmentService.js:56-62 | the pick is the same for any order of the same candidates |
| `Allocation.Decide` | server/services/appointmentService.js:25-62 | rejects exactly the missing or blank request; "not found", carrying the request as given, exactly when no doctor matches; "all full", carrying the request as given and the number of matching doctors, exactly when some match and none is available; otherwise chooses a matching, available doctor that no other matching, available doctor sorts before; never decides booked or conflict before the commit |
| `Allocation.FilterCount` | server/services/appointmentService.js:43-45 | filtering keeps each kept record as many times as it occurs, and no other |
| `Allocation.FilterPermutation` | server/services/appointmentService.js:43-45 | filtering two orderings of the same records gives two orderings of the same result |
| `Allocation.DecideIgnoresOrder` | server/services/appointmentService.js:31-62 | on a store with unique ids, the decision does not depend on the order the store returns its records in |
| `Allocation.ResetMakesFullSpecializationBookable` | server/controllers/doctorController.js:85 | a specialization that was all full is bookable after the reset, and the doctor chosen has 0 bookings |
| `Allocation.UnknownSpecializationNotFound` | server/services/appointmentService.js:35-40 | a request for "Neurology" against a single Cardiology doctor is not found |
| `Allocation.TieGoesToSmallerId` | server/services/appointmentService.js:56-62 | with two Cardiology doctors at equal load, a padded lower-case request chooses `D1` over `D2` whatever their store order |
| `Allocation.SmallerIdChosenFromSecondPlace` | server/services/appointmentService.js:56-62 | the tie case with `D1` stored after `D2`: `D1` is chosen |
| `Summary.InsertName` | server/services/appointmentService.js:122 | inserting a name into an ascending list of distinct names keeps it ascending and distinct, and adds exactly that name |
| `Summary.Specializations` | server/services/appointmentService.js:96-97 | the group keys are strictly ascending, and they are exactly the specializations present in the store |
| `Summary.Group` | server/services/appointmentService.js:96-97 | the `$group` stage: the stored doctors whose specialization is exactly the key, in store order |
| `Summary.SumAppointments` | server/services/appointmentService.js:99 | `$sum` of the counts of a group |
| `Summary.SumCapacity` | server/services/appointmentService.js:100 | `$sum` of the capacities of a group |
| `Summary.CountAvailable` | server/services/appointmentService.js:101-109 | the available count is at most the group size, and it is 0 exactly when no doctor of the group is available |
| `Summary.AppointmentsWithinCapacity` | server/services/appointmentService.js:99-100 | under I1, a group's booked slots are between 0 and its total capacity |
| `Summary.CapacityAtLeastDoctors` | server/services/appointmentService.js:100 | on schema-valid doctors, the total capacity is at least the number of doctors |
| `Summary.GroupBounded` | server/services/appointmentService.js:98-100 | on a valid store with I1, any group's slots lie between 0 and its capacity, and its capacity is at least its size |
| `Summary.SummaryOf` | server/services/appointmentService.js:96-120 | the projected entry of one key: the key, its group size, slot sum, capacity sum and available count |
| `Summary.Summarize` | server/services/appointmentService.js:94-123 | entries are strictly ascending by specialization (so none repeats); every entry is a stored specialization and every stored specialization has an entry; each entry's totals are its group's count, slot sum and capacity sum; its available count is at most its doctor count, which is at least 1 |
| `Summary.SummaryTotalsBounded` | server/services/appointmentService.js:94-123 | on a valid store with I1, every entry has 0 <= slots <= capacity and doctors <= capacity |
| `Summary.SummaryOfTwoDoctors` | server/services/appointmentService.js:94-123 | doctors A (capacity 10, 3 booked) and B (capacity 5, full), both "X", give one entry: 2 doctors, 8 slots, capacity 15, 1 available |
| `Controller.ValidateAdd` | server/controllers/doctorController.js:40-52 | "missing fields" exactly when the id or specialization is absent or blank, or the capacity is absent or empty; "invalid capacity" exactly when the fields are present and the capacity is non-numeric or below 1; the schema's rejection exactly when the fields are present and the capacity is one `isNaN` accepts but `parseInt` cannot read (`null`, `true`, blank text), which puts NaN in the document; otherwise a schema-valid, available document with trimmed strings, the parsed capacity and a count of 0 |
| `Controller.AcceptedRegistration` | server/controllers/doctorController.js:40-52 | a request with trimmed, non-blank fields and capacity 1 is accepted as exactly that record with a count of 0 |
| `Controller.AddDoctor` | server/controllers/doctorController.js:35-73 | an invalid request or an already stored id is refused with the store unchanged; otherwise exactly the validated record is appended; the schema's own rejection happens only for a capacity `parseInt` cannot read, with the store unchanged; validity, I1 and the existing records are kept |
| `Controller.ValidatedIsNormalized` | server/controllers/doctorController.js:48-54 | a document the controller builds passes the schema and is within capacity, and the schema's `trim` setters leave it unchanged |
| `Controller.AppendKeepsInvariants` | server/controllers/doctorController.js:54 | appending a record within its capacity keeps I1 and keeps every existing record |
| `Controller.ResetDailyAppointments` | server/controllers/doctorController.js:83-89 | every count is 0 and every other field unchanged, the same records remain, every doctor is available, I1 holds, and the reported count is the number of stored doctors, since the timestamps rewrite every record |
| `Controller.LoadAtMost` | server/controllers/doctorController.js:19-21 | the listing comparator: `a` sorts no later than `b` when its load ratio is at most `b`'s, compared by cross-multiplication |
| `Controller.LoadAtMostIsRatioOrder` | server/controllers/doctorController.js:19-21 | for positive capacities, the division-free comparison is exactly the comparison of `currentAppointments / maxDailyPatients` |
| `Controller.LoadAtMostTransitive` | server/controllers/doctorController.js:18-22 | the load-ratio comparison is transitive for positive capacities |
| `Controller.SortByLoad` | server/controllers/doctorController.js:18-22 | the array is sorted in place ascending by load ratio and is a permutation of what it held |
| `Controller.InsertLast` | server/controllers/doctorController.js:18-22 | one insertion step: the sorted prefix grows by one, as a permutation of the array |
| `Controller.GetAllDoctors` | server/controllers/doctorController.js:13-22 | the listing holds every stored doctor exactly once, ascending by load ratio |
| `Booking.Commit` | server/services/appointmentService.js:64-80 | if the stored record of the chosen id still has a count below the capacity read earlier, its count goes up by exactly 1, the updated record is returned and nothing else changes; otherwise the result is a conflict, nothing changes and no other doctor is tried; I1 is kept when the capacity read is the stored one |
| `Booking.Book` | server/services/appointmentService.js:25-87 | a rejection leaves the store unchanged and returns the decision's reason; a chosen doctor is booked, and it is the only record changed, its count now old + 1 and at most its capacity; an uncontended booking never conflicts; validity and I1 are kept |
| `Booking.Apply` | server/controllers/doctorController.js:35-89 | any other whole booking, reset or registration, or the late commit of a booking that read before this one, keeps the store valid and I1, and keeps every existing record's identity |
| `Booking.BookContended` | server/services/appointmentService.js:64-80 | with any sequence of other bookings, resets, registrations and late commits of bookings that read earlier between the read and the update, the chosen doctor is booked only if it still has room at the update, and its count at that moment goes up by 1 and stays within capacity; otherwise the result is a conflict with the store as the racers left it; I1 holds afterwards in every case |
| `Booking.CommitAfterRace` | server/services/appointmentService.js:64-80 | after any other operations, the doctor read at a position is booked with its count at that moment plus one, within its capacity, if it still has room; otherwise a conflict with the store as the others left it; validity and I1 are kept |
| `Booking.RunInterleaved` | server/services/appointmentService.js:31-65 | the race window between the read and the update: any sequence of other whole bookings, resets, registrations, and commits of bookings whose read came earlier (a stale choice of any id, judged against the stored capacity), which keeps validity and I1 and keeps every record read earlier in place with its identity |
| `Booking.StoredRecordKeepsCapacity` | server/services/appointmentService.js:64-72 | a record read before other operations ran is still found by its id at the same position, and the capacity read then is still the stored one |
| `Booking.OnlyDoctorChosen` | server/services/appointmentService.js:31-62 | the only doctor of the store, available and requested by its own specialization, is chosen |
| `Booking.RacedBookingConflicts` | server/services/appointmentService.js:74-80 | from a store holding one doctor with one free slot, a racing booking that takes the slot after the read makes the first booking end in a conflict, and the doctor stays at 1 booking of 1 |

## Left out

- HTTP plumbing is not modelled: routes, status codes, JSON envelopes, the user-facing message texts, and the try/catch paths that answer 500. The outcomes carry what the messages report: the request as given (in "not found" and "all full"), the number of matching doctors (in "all full"), and the updated record (in "booked").
- Database mechanics are not modelled: connections, `.lean()`, the `createdAt`/`updatedAt` fields themselves, index creation and the aggregation pipeline syntax. The store is an in-memory sequence in insertion order.
- Real concurrency is modelled as a sequence of store steps between a booking's read and its commit: whole other bookings, resets and registrations, and the lone commit of a booking that read before this one. Threads are not modelled.
- The regular expression at server/services/appointmentService.js:32 is built from the trimmed request without escaping metacharacters. The model treats the request as a literal string compared ignoring case. A request holding `.`, `*`, `(` and the like would, in the source, match other specializations or fail to compile.
- Case folding is ASCII-only (`A`–`Z`). The regular expression's `i` flag folds other letters too.
- `localeCompare` collation is abstracted as `Text.IdLess`: case-insensitive lexicographic order; between ids that differ only in case, reversed code-point order, so the lower-case letter comes first at the first difference in case, as in the default collation. Accents, punctuation weights, multi-level comparison beyond case, and locale tailoring are not modelled.
- Strings are sequences of Unicode scalar values. The summary sort at server/services/appointmentService.js:122 is the database's UTF-8 byte order, which is code-point order, so `Text.LexLess` is that order exactly; it would differ from JavaScript's UTF-16 `<` outside the Basic Multilingual Plane, which the source does not use here.
- The capacity at server/controllers/doctorController.js:44-51 arrives already classified: absent, empty, rejected by `isNaN`, accepted by `isNaN` but unreadable by `parseInt` (`null`, `true`, `false`, blank text such as `" "`: these end in the schema's rejection at :70-72), or the integer `parseInt` reads (`"2.5"` is read as 2). The conversion from JSON values to these classes is not modelled.
- AddDoctor: `doctorId` and `specialization` are modelled as strings. The source at server/controllers/doctorController.js:40 and :48-49 also accepts other JSON values (numbers, booleans, objects) through `toString()`; the model stands for such a value by its `toString()` text. The one place where this changes behaviour is the duplicate-key handler at :66, which calls `req.body.doctorId?.trim()`: for a non-string `doctorId` that is already stored, that call throws, so the caller gets the 500 answer instead of the 409 the model's `DuplicateId` stands for. The store is unchanged either way.
- The schema's `Number` fields are modelled as integers. Fractional or non-finite values stored by other means are not modelled.
- The listing compares load ratios exactly, by cross-multiplication. JavaScript compares floating-point quotients, which can tie for very large counts. JavaScript's sort is also stable; the model proves sortedness and permutation, but not stability.
- ResetAll: the model makes the reset one indivisible step. The source's `updateMany` at server/controllers/doctorController.js:85 is atomic per document only, so a booking can read a store in which some counts are already 0 and others not yet, or commit between two documents; the model does not capture that interleaving, which is coarser than the source.
- The client code (the React components, the fetch wrappers, and the client-side "all full" check) is not part of this model.
