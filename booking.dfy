/**
 * The booking operation of the appointment service: validate, read the
 * matching doctors, decide, then commit with one atomic conditional
 * increment whose own condition, not the earlier read, decides.
 */
module Booking {
  import opened Text
  import opened Wrappers
  import opened DoctorModel
  import opened Registry
  import opened Allocation
  import opened Controller

  /** The capacity `chosen` carries is the one the store holds for that id. */
  predicate CapacityAsStored(ds: seq<Doctor>, chosen: Doctor) {
    forall i :: 0 <= i < |ds| && ds[i].doctorId == chosen.doctorId ==>
      ds[i].maxDailyPatients == chosen.maxDailyPatients
  }

  /**
   * The commit: increment the chosen doctor's count by exactly 1 if, at
   * this moment, it is still below the capacity read earlier; otherwise a
   * conflict, no change and no second candidate. I1 is kept whenever the
   * capacity read earlier is the stored one.
   */
  method Commit(store: DoctorCollection, chosen: Doctor) returns (outcome: Outcome)
    requires store.Valid()
    modifies store
    ensures store.Valid()
    ensures Evolves(old(store.doctors), store.doctors)
    ensures match FindIndex(old(store.doctors), chosen.doctorId)
      case Some(i) =>
        if old(store.doctors)[i].currentAppointments < chosen.maxDailyPatients then
          && outcome == Booked(Incremented(old(store.doctors)[i]))
          && store.doctors == old(store.doctors)[i := Incremented(old(store.doctors)[i])]
        else
          outcome == Conflict && store.doctors == old(store.doctors)
      case None => outcome == Conflict && store.doctors == old(store.doctors)
    ensures old(CapacityInvariant(store.doctors) && CapacityAsStored(store.doctors, chosen)) ==>
      CapacityInvariant(store.doctors)
  {
    ghost var before := store.doctors;
    var updated := store.FindOneAndIncrement(chosen.doctorId, chosen.maxDailyPatients);
    if updated.None? {
      outcome := Conflict;
    } else {
      outcome := Booked(updated.value);
      ghost var i := FindIndex(before, chosen.doctorId).value;
      if CapacityInvariant(before) && CapacityAsStored(before, chosen) {
        IncrementKeepsCapacity(before, i, chosen.maxDailyPatients);
      }
    }
  }

  /**
   * Booking with no other request in between: a blank request is refused
   * before the store is read; otherwise the outcome is the policy's
   * decision on the store, and a chosen doctor is always booked, its count
   * raised by one and nothing else changed.
   */
  method Book(store: DoctorCollection, request: Option<string>) returns (outcome: Outcome)
    requires store.Valid() && CapacityInvariant(store.doctors)
    modifies store
    ensures store.Valid() && CapacityInvariant(store.doctors)
    ensures Evolves(old(store.doctors), store.doctors)
    ensures match Decide(request, old(store.doctors))
      case Reject(o) => outcome == o && store.doctors == old(store.doctors)
      case Chosen(d) =>
        && outcome == Booked(Incremented(d))
        && Incremented(d).currentAppointments <= d.maxDailyPatients
        && exists i :: 0 <= i < |old(store.doctors)| && old(store.doctors)[i] == d
             && store.doctors == old(store.doctors)[i := Incremented(d)]
    ensures outcome != Conflict
  {
    if IsAbsentOrBlank(request) {
      return InvalidInput;
    }
    var snapshot := store.doctors;
    var decision := Decide(request, snapshot);
    match decision
    case Reject(o) =>
      outcome := o;
    case Chosen(d) =>
      var i := ChosenIndex(request, snapshot);
      FindIndexOfMember(snapshot, i);
      outcome := Commit(store, d);
  }

  /** Where the chosen doctor sits in the snapshot it was chosen from. */
  lemma ChosenIndex(request: Option<string>, snapshot: seq<Doctor>) returns (i: nat)
    requires Decide(request, snapshot).Chosen?
    ensures i < |snapshot| && snapshot[i] == Decide(request, snapshot).doctor
  {
    var d := Decide(request, snapshot).doctor;
    i :| 0 <= i < |snapshot| && snapshot[i] == d;
  }

  /**
   * Another request's step against the store between this booking's read
   * and its commit: a whole other booking, a reset, a registration, or the
   * commit of a booking that read before this one and chose `id` then.
   * That late commit carries the capacity it read, which is the stored one
   * because capacities never change.
   */
  datatype StoreOp =
    | OtherBooking(request: Option<string>)
    | DailyReset
    | Registration(req: AddRequest)
    | OtherCommit(id: string)

  method Apply(store: DoctorCollection, op: StoreOp)
    requires store.Valid() && CapacityInvariant(store.doctors)
    modifies store
    ensures store.Valid() && CapacityInvariant(store.doctors)
    ensures Evolves(old(store.doctors), store.doctors)
  {
    match op
    case OtherBooking(request) =>
      var _ := Book(store, request);
    case DailyReset =>
      var _ := ResetDailyAppointments(store);
    case Registration(req) =>
      var _ := AddDoctor(store, req);
    case OtherCommit(id) =>
      var found := FindIndex(store.doctors, id);
      if found.Some? {
        var stale := store.doctors[found.value];
        StoredRecordKeepsCapacity(store.doctors, store.doctors, found.value);
        var _ := Commit(store, stale);
      }
  }

  /**
   * Booking while other requests race it: the decision is made on the
   * store as read, any sequence of other operations then runs, and the
   * commit is judged on the store as it is at the update (`atCommit`).
   * The chosen doctor is booked if it still has room, with its count as it
   * is then plus one; otherwise the outcome is a conflict and nothing
   * changes. Either way I1 holds for every doctor afterwards.
   */
  method BookContended(store: DoctorCollection, request: Option<string>, interleaved: seq<StoreOp>)
    returns (outcome: Outcome, ghost atCommit: seq<Doctor>)
    requires store.Valid() && CapacityInvariant(store.doctors)
    modifies store
    ensures store.Valid() && CapacityInvariant(store.doctors)
    ensures match Decide(request, old(store.doctors))
      case Reject(o) => outcome == o && store.doctors == old(store.doctors)
      case Chosen(d) =>
        && Evolves(old(store.doctors), atCommit)
        && exists i :: 0 <= i < |atCommit| && atCommit[i].doctorId == d.doctorId
             && if atCommit[i].currentAppointments < d.maxDailyPatients then
                  && outcome == Booked(Incremented(atCommit[i]))
                  && Incremented(atCommit[i]).currentAppointments <= d.maxDailyPatients
                  && store.doctors == atCommit[i := Incremented(atCommit[i])]
                else
                  outcome == Conflict && store.doctors == atCommit
  {
    atCommit := store.doctors;
    if IsAbsentOrBlank(request) {
      return InvalidInput, atCommit;
    }
    var snapshot := store.doctors;
    var decision := Decide(request, snapshot);
    match decision
    case Reject(o) =>
      outcome := o;
    case Chosen(d) =>
      var i := ChosenIndex(request, snapshot);
      outcome, atCommit := CommitAfterRace(store, interleaved, d, i);
  }

  /**
   * The part of a contended booking after the decision: the other
   * operations run, then `chosen`, read at position `i`, is committed with
   * the capacity read then.
   */
  method CommitAfterRace(store: DoctorCollection, interleaved: seq<StoreOp>, chosen: Doctor, ghost i: nat)
    returns (outcome: Outcome, ghost atCommit: seq<Doctor>)
    requires store.Valid() && CapacityInvariant(store.doctors)
    requires i < |store.doctors| && store.doctors[i] == chosen
    modifies store
    ensures store.Valid() && CapacityInvariant(store.doctors)
    ensures Evolves(old(store.doctors), atCommit) && i < |atCommit|
    ensures atCommit[i].doctorId == chosen.doctorId
    ensures
      if atCommit[i].currentAppointments < chosen.maxDailyPatients then
        && outcome == Booked(Incremented(atCommit[i]))
        && Incremented(atCommit[i]).currentAppointments <= chosen.maxDailyPatients
        && store.doctors == atCommit[i := Incremented(atCommit[i])]
      else
        outcome == Conflict && store.doctors == atCommit
  {
    ghost var snapshot := store.doctors;
    RunInterleaved(store, interleaved, snapshot);
    atCommit := store.doctors;
    StoredRecordKeepsCapacity(snapshot, atCommit, i);
    outcome := Commit(store, chosen);
  }

  /** The other operations, one after another, each keeping the store valid and only evolving it. */
  method RunInterleaved(store: DoctorCollection, interleaved: seq<StoreOp>, ghost snapshot: seq<Doctor>)
    requires store.Valid() && CapacityInvariant(store.doctors) && Evolves(snapshot, store.doctors)
    modifies store
    ensures store.Valid() && CapacityInvariant(store.doctors) && Evolves(snapshot, store.doctors)
  {
    for k := 0 to |interleaved|
      invariant store.Valid() && CapacityInvariant(store.doctors)
      invariant Evolves(snapshot, store.doctors)
    {
      ghost var previous := store.doctors;
      Apply(store, interleaved[k]);
      EvolvesTransitive(snapshot, previous, store.doctors);
    }
  }

  /**
   * A record read earlier is still found at its position by its key, and
   * the capacity read then is still the stored one.
   */
  lemma StoredRecordKeepsCapacity(snapshot: seq<Doctor>, later: seq<Doctor>, i: nat)
    requires UniqueIds(later) && Evolves(snapshot, later) && i < |snapshot|
    ensures FindIndex(later, snapshot[i].doctorId) == Some(i)
    ensures CapacityAsStored(later, snapshot[i])
  {
    FindIndexOfMember(later, i);
    forall j | 0 <= j < |later| && later[j].doctorId == snapshot[i].doctorId
      ensures later[j].maxDailyPatients == snapshot[i].maxDailyPatients
    {
      FindIndexOfMember(later, j);
    }
  }

  /**
   * The conflict path: a doctor with a single slot is chosen, a second
   * booking for the same specialization takes that slot before the commit,
   * and the first booking ends in a conflict instead of a stale success,
   * leaving the doctor at its capacity.
   */
  method RacedBookingConflicts(store: DoctorCollection, id: string, specialization: string) returns (outcome: Outcome)
    requires !IsBlank(id) && !IsBlank(specialization) && Trimmed(id) && Trimmed(specialization)
    requires store.doctors == [Doctor(id, specialization, 1, 0)]
    modifies store
    ensures outcome == Conflict
    ensures store.doctors == [Doctor(id, specialization, 1, 1)]
  {
    var d := store.doctors[0];
    OnlyDoctorChosen(d);
    var decision := Decide(Some(specialization), store.doctors);
    var other := Book(store, Some(specialization));
    assert store.doctors == [Incremented(d)];
    outcome := Commit(store, decision.doctor);
  }

  /** The only doctor of the store, available and asked for by its own specialization, is chosen. */
  lemma OnlyDoctorChosen(d: Doctor)
    requires !IsBlank(d.specialization) && Trimmed(d.specialization) && IsAvailable(d)
    ensures Decide(Some(d.specialization), [d]) == Chosen(d)
  {
    TrimOfTrimmed(d.specialization);
    assert Matches(d, Trim(d.specialization)) && d in [d];
  }
}
