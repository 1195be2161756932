/**
 * The Doctor record of the registry, the constraints its schema declares,
 * and the store-wide invariants the rest of the model keeps.
 */
module DoctorModel {
  import opened Text
  import opened Wrappers

  /** One stored doctor. Counts are unbounded integers; the schema's bounds are in SchemaValid. */
  datatype Doctor = Doctor(
    doctorId: string,
    specialization: string,
    maxDailyPatients: int,
    currentAppointments: int)

  /**
   * What the schema enforces on a saved record: both strings required
   * (non-empty) and stored trimmed, a capacity of at least 1 and a
   * non-negative count. It does NOT bound the count by the capacity.
   */
  predicate SchemaValid(d: Doctor) {
    && d.doctorId != [] && Trimmed(d.doctorId)
    && d.specialization != [] && Trimmed(d.specialization)
    && d.maxDailyPatients >= 1
    && d.currentAppointments >= 0
  }

  /** The booking invariant: the count lies between 0 and the capacity. */
  predicate WithinCapacity(d: Doctor) {
    0 <= d.currentAppointments <= d.maxDailyPatients
  }

  /** The doctor still has a free slot today. */
  predicate IsAvailable(d: Doctor) {
    d.currentAppointments < d.maxDailyPatients
  }

  /**
   * A new document as the schema builds it: both strings trimmed by the
   * `trim` setters, the count at its default of 0. Built from non-blank
   * strings and a capacity of at least 1 it passes the schema and is
   * available.
   */
  function NewDoctor(doctorId: string, specialization: string, maxDailyPatients: int): (d: Doctor)
    ensures d.doctorId == Trim(doctorId) && d.specialization == Trim(specialization)
    ensures d.maxDailyPatients == maxDailyPatients && d.currentAppointments == 0
    ensures !IsBlank(doctorId) && !IsBlank(specialization) && maxDailyPatients >= 1 ==>
      SchemaValid(d) && WithinCapacity(d) && IsAvailable(d)
  {
    Doctor(Trim(doctorId), Trim(specialization), maxDailyPatients, 0)
  }

  /** The unique index on doctorId. */
  predicate UniqueIds(ds: seq<Doctor>) {
    forall i, j :: 0 <= i < j < |ds| ==> ds[i].doctorId != ds[j].doctorId
  }

  predicate AllSchemaValid(ds: seq<Doctor>) {
    forall i :: 0 <= i < |ds| ==> SchemaValid(ds[i])
  }

  /** Invariant I1 over the whole store. */
  predicate CapacityInvariant(ds: seq<Doctor>) {
    forall i :: 0 <= i < |ds| ==> WithinCapacity(ds[i])
  }

  /** Position of the record with the given id, as a lookup by the unique key finds it. */
  function FindIndex(ds: seq<Doctor>, id: string): (r: Option<nat>)
    ensures r.Some? ==> r.value < |ds| && ds[r.value].doctorId == id
    ensures r.None? <==> forall i :: 0 <= i < |ds| ==> ds[i].doctorId != id
  {
    if ds == [] then None
    else if ds[|ds| - 1].doctorId == id then Some(|ds| - 1)
    else FindIndex(ds[..|ds| - 1], id)
  }

  /** With unique ids the lookup finds every record at its own position. */
  lemma {:induction false} FindIndexOfMember(ds: seq<Doctor>, i: nat)
    requires UniqueIds(ds) && i < |ds|
    ensures FindIndex(ds, ds[i].doctorId) == Some(i)
  {
    if i != |ds| - 1 {
      FindIndexOfMember(ds[..|ds| - 1], i);
    }
  }

  /** The part of a record no operation changes once it is stored: id, specialization, capacity. */
  predicate SameIdentity(a: Doctor, b: Doctor) {
    a.doctorId == b.doctorId && a.specialization == b.specialization && a.maxDailyPatients == b.maxDailyPatients
  }

  /**
   * How the store may move between two observations: records are never
   * deleted or reordered, new ones are appended, and only counts change.
   */
  predicate Evolves(before: seq<Doctor>, after: seq<Doctor>) {
    |before| <= |after| && forall i :: 0 <= i < |before| ==> SameIdentity(before[i], after[i])
  }

  /** The doctors of `ds` that satisfy `keep`, in store order. */
  function Filter(ds: seq<Doctor>, keep: Doctor -> bool): (r: seq<Doctor>)
    ensures |r| <= |ds|
    ensures forall d :: d in r <==> d in ds && keep(d)
    ensures multiset(r) <= multiset(ds)
  {
    if ds == [] then []
    else
      var rest := Filter(ds[1..], keep);
      assert ds == [ds[0]] + ds[1..];
      if keep(ds[0]) then [ds[0]] + rest else rest
  }

  /**
   * Every record with its count set back to 0, as the daily reset leaves
   * it: the same records in the same order, each within capacity and
   * available again.
   */
  function ResetCounts(ds: seq<Doctor>): (r: seq<Doctor>)
    ensures |r| == |ds| && Evolves(ds, r)
    ensures forall i :: 0 <= i < |r| ==> r[i].currentAppointments == 0
    ensures AllSchemaValid(ds) ==>
      AllSchemaValid(r) && CapacityInvariant(r) && forall i :: 0 <= i < |r| ==> IsAvailable(r[i])
  {
    seq(|ds|, i requires 0 <= i < |ds| => ds[i].(currentAppointments := 0))
  }

  /** Set one record's count one higher: the effect of `$inc: { currentAppointments: 1 }`. */
  function Incremented(d: Doctor): Doctor {
    d.(currentAppointments := d.currentAppointments + 1)
  }

  /**
   * The guard `currentAppointments < limit` keeps I1 exactly because the
   * limit is the record's own capacity: the increment stays within it.
   */
  lemma IncrementKeepsCapacity(ds: seq<Doctor>, i: nat, limit: int)
    requires CapacityInvariant(ds) && i < |ds|
    requires ds[i].currentAppointments < limit <= ds[i].maxDailyPatients
    ensures CapacityInvariant(ds[i := Incremented(ds[i])])
    ensures Evolves(ds, ds[i := Incremented(ds[i])])
  {
  }

  /** A guard with a limit above the capacity would let a full doctor be booked past it. */
  lemma GuardAboveCapacityOverbooks()
    ensures var d := Doctor("D1", "Cardiology", 2, 2);
      d.currentAppointments < 3 && !WithinCapacity(Incremented(d))
  {
  }

  lemma EvolvesTransitive(a: seq<Doctor>, b: seq<Doctor>, c: seq<Doctor>)
    requires Evolves(a, b) && Evolves(b, c)
    ensures Evolves(a, c)
  {
  }
}
