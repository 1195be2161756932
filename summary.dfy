/**
 * The per-specialization summary: one entry per distinct stored
 * specialization string (compared exactly, case included), in ascending
 * code-point order, with the group's doctor count, booked slots, capacity
 * and number of doctors still available.
 */
module Summary {
  import opened Text
  import opened DoctorModel

  datatype SpecializationSummary = SpecializationSummary(
    specialization: string,
    totalDoctors: nat,
    totalAppointments: int,
    totalCapacity: int,
    availableDoctors: nat)

  predicate StrictlyAscending(xs: seq<string>) {
    forall i, j :: 0 <= i < j < |xs| ==> LexLess(xs[i], xs[j])
  }

  /** The distinct specialization strings present in the store. */
  function SpecializationSet(ds: seq<Doctor>): set<string> {
    set d | d in ds :: d.specialization
  }

  /** Adds `s` to an ascending list of distinct strings, keeping it ascending and distinct. */
  function InsertName(xs: seq<string>, s: string): (r: seq<string>)
    requires StrictlyAscending(xs)
    ensures StrictlyAscending(r)
    ensures forall t :: t in r <==> t in xs || t == s
  {
    if xs == [] then [s]
    else if s == xs[0] then xs
    else if LexLess(s, xs[0]) then
      forall k | 0 < k < |xs| ensures LexLess(s, xs[k]) {
        LexLessTransitive(s, xs[0], xs[k]);
      }
      [s] + xs
    else
      LexLessTotal(s, xs[0]);
      var rest := InsertName(xs[1..], s);
      assert xs == [xs[0]] + xs[1..];
      assert forall t :: t in rest ==> LexLess(xs[0], t);
      [xs[0]] + rest
  }

  /** The group keys in the order of `$sort: { specialization: 1 }`. */
  function Specializations(ds: seq<Doctor>): (r: seq<string>)
    ensures StrictlyAscending(r)
    ensures forall t :: t in r <==> t in SpecializationSet(ds)
  {
    if ds == [] then []
    else
      var rest := Specializations(ds[1..]);
      assert ds == [ds[0]] + ds[1..];
      InsertName(rest, ds[0].specialization)
  }

  /** The doctors of one group: those whose specialization is exactly `s`. */
  function Group(ds: seq<Doctor>, s: string): seq<Doctor> {
    Filter(ds, (d: Doctor) => d.specialization == s)
  }

  /** `$sum: "$currentAppointments"`. */
  function SumAppointments(ds: seq<Doctor>): int {
    if ds == [] then 0 else ds[0].currentAppointments + SumAppointments(ds[1..])
  }

  /** `$sum: "$maxDailyPatients"`. */
  function SumCapacity(ds: seq<Doctor>): int {
    if ds == [] then 0 else ds[0].maxDailyPatients + SumCapacity(ds[1..])
  }

  /** `$sum` of 1 for each doctor with `currentAppointments < maxDailyPatients`: never more than the group. */
  function CountAvailable(ds: seq<Doctor>): (r: nat)
    ensures r <= |ds|
    ensures r == 0 <==> forall d :: d in ds ==> !IsAvailable(d)
  {
    if ds == [] then 0
    else
      assert ds == [ds[0]] + ds[1..];
      (if IsAvailable(ds[0]) then 1 else 0) + CountAvailable(ds[1..])
  }

  /** Within capacity, the booked slots of a group never exceed its capacity. */
  lemma {:induction false} AppointmentsWithinCapacity(ds: seq<Doctor>)
    requires CapacityInvariant(ds)
    ensures 0 <= SumAppointments(ds) <= SumCapacity(ds)
  {
    if ds != [] {
      AppointmentsWithinCapacity(ds[1..]);
    }
  }

  /** Every schema-valid doctor contributes at least one slot of capacity. */
  lemma {:induction false} CapacityAtLeastDoctors(ds: seq<Doctor>)
    requires AllSchemaValid(ds)
    ensures SumCapacity(ds) >= |ds|
  {
    if ds != [] {
      CapacityAtLeastDoctors(ds[1..]);
    }
  }

  function SummaryOf(ds: seq<Doctor>, s: string): SpecializationSummary {
    var g := Group(ds, s);
    SpecializationSummary(s, |g|, SumAppointments(g), SumCapacity(g), CountAvailable(g))
  }

  /**
   * The aggregation: entries in strictly ascending order of specialization
   * (so no specialization twice), one for each specialization in the store
   * and none other, each holding its group's count and sums.
   */
  function Summarize(ds: seq<Doctor>): (r: seq<SpecializationSummary>)
    ensures forall i, j :: 0 <= i < j < |r| ==> LexLess(r[i].specialization, r[j].specialization)
    ensures forall i :: 0 <= i < |r| ==> r[i].specialization in SpecializationSet(ds)
    ensures forall d :: d in ds ==> exists i :: 0 <= i < |r| && r[i].specialization == d.specialization
    ensures forall i :: 0 <= i < |r| ==>
      var g := Group(ds, r[i].specialization);
      && r[i].totalDoctors == |g| >= 1
      && r[i].totalAppointments == SumAppointments(g)
      && r[i].totalCapacity == SumCapacity(g)
      && r[i].availableDoctors == CountAvailable(g) <= r[i].totalDoctors
  {
    var keys := Specializations(ds);
    var r := seq(|keys|, i requires 0 <= i < |keys| => SummaryOf(ds, keys[i]));
    forall i | 0 <= i < |r| ensures |Group(ds, r[i].specialization)| >= 1 {
      assert keys[i] in keys;
      var d :| d in ds && d.specialization == keys[i];
      assert d in Group(ds, keys[i]);
    }
    forall d | d in ds ensures exists i :: 0 <= i < |r| && r[i].specialization == d.specialization {
      assert d.specialization in SpecializationSet(ds);
      var i :| 0 <= i < |keys| && keys[i] == d.specialization;
      assert r[i].specialization == d.specialization;
    }
    r
  }

  /** On a store that keeps I1 and the schema, each entry's slots lie between 0 and its capacity, which is at least its doctor count. */
  lemma SummaryTotalsBounded(ds: seq<Doctor>)
    requires AllSchemaValid(ds) && CapacityInvariant(ds)
    ensures var r := Summarize(ds);
      forall i :: 0 <= i < |r| ==>
        0 <= r[i].totalAppointments <= r[i].totalCapacity && r[i].totalDoctors <= r[i].totalCapacity
  {
    var r := Summarize(ds);
    forall i | 0 <= i < |r|
      ensures 0 <= r[i].totalAppointments <= r[i].totalCapacity && r[i].totalDoctors <= r[i].totalCapacity
    {
      GroupBounded(ds, r[i].specialization);
    }
  }

  lemma GroupBounded(ds: seq<Doctor>, s: string)
    requires AllSchemaValid(ds) && CapacityInvariant(ds)
    ensures var g := Group(ds, s);
      0 <= SumAppointments(g) <= SumCapacity(g) && |g| <= SumCapacity(g)
  {
    var g := Group(ds, s);
    forall k | 0 <= k < |g| ensures WithinCapacity(g[k]) && SchemaValid(g[k]) {
      assert g[k] in ds;
    }
    AppointmentsWithinCapacity(g);
    CapacityAtLeastDoctors(g);
  }

  /** Two doctors of one specialization, capacity 10 with 3 booked and capacity 5 full. */
  lemma SummaryOfTwoDoctors()
    ensures Summarize([Doctor("A", "X", 10, 3), Doctor("B", "X", 5, 5)])
      == [SpecializationSummary("X", 2, 8, 15, 1)]
  {
    var ds := [Doctor("A", "X", 10, 3), Doctor("B", "X", 5, 5)];
    assert Specializations(ds) == ["X"];
    assert Group(ds, "X") == ds;
  }
}
