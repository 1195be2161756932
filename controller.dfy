/**
 * The registry operations of the doctor controller, without their HTTP
 * wrapping: registering a doctor, the daily reset and the listing ordered
 * by load.
 */
module Controller {
  import opened Text
  import opened Wrappers
  import opened DoctorModel
  import opened Registry

  /**
   * The capacity field of a registration as the controller sees it:
   * absent, the empty string, something `isNaN` rejects, something `isNaN`
   * accepts but `parseInt(_, 10)` cannot read (`null`, `true`, `false`,
   * blank text: `parseInt` yields NaN), or the integer `parseInt(_, 10)`
   * reads from it.
   */
  datatype CapacityInput = Absent | EmptyText | NotANumber | Unreadable | Parsed(value: int)

  /**
   * A registration request; a field that is `undefined` or `null` is None,
   * and any other JSON value stands for its `toString()` text.
   */
  datatype AddRequest = AddRequest(
    doctorId: Option<string>,
    specialization: Option<string>,
    maxDailyPatients: CapacityInput)

  /** Why a registration is refused (400, 409, or the schema's own 400). */
  datatype AddError = MissingFields | InvalidCapacity | DuplicateId(doctorId: string) | SchemaRejected

  /**
   * The controller's checks before touching the store: all three fields
   * present, the capacity numeric and at least 1; on success the document
   * it builds, with trimmed strings and the default count of 0. A capacity
   * that passes both checks but that `parseInt` cannot read puts NaN in the
   * document, and the schema's Number cast refuses it when it is saved,
   * before the unique index is consulted: the schema's rejection.
   */
  function ValidateAdd(req: AddRequest): (r: Result<Doctor, AddError>)
    ensures r == Failure(MissingFields) <==>
      IsAbsentOrBlank(req.doctorId) || IsAbsentOrBlank(req.specialization)
      || req.maxDailyPatients.Absent? || req.maxDailyPatients.EmptyText?
    ensures r == Failure(InvalidCapacity) <==>
      && !IsAbsentOrBlank(req.doctorId) && !IsAbsentOrBlank(req.specialization)
      && (req.maxDailyPatients.NotANumber? || (req.maxDailyPatients.Parsed? && req.maxDailyPatients.value < 1))
    ensures r == Failure(SchemaRejected) <==>
      !IsAbsentOrBlank(req.doctorId) && !IsAbsentOrBlank(req.specialization) && req.maxDailyPatients.Unreadable?
    ensures r.Failure? ==> r.error == MissingFields || r.error == InvalidCapacity || r.error == SchemaRejected
    ensures r.Success? ==>
      && req.doctorId.Some? && req.specialization.Some? && req.maxDailyPatients.Parsed?
      && r.value.doctorId == Trim(req.doctorId.value)
      && r.value.specialization == Trim(req.specialization.value)
      && r.value.maxDailyPatients == req.maxDailyPatients.value
      && r.value.currentAppointments == 0
      && SchemaValid(r.value) && IsAvailable(r.value)
  {
    if IsAbsentOrBlank(req.doctorId) || IsAbsentOrBlank(req.specialization)
      || req.maxDailyPatients.Absent? || req.maxDailyPatients.EmptyText?
    then
      Failure(MissingFields)
    else if req.maxDailyPatients.NotANumber? || (req.maxDailyPatients.Parsed? && req.maxDailyPatients.value < 1) then
      Failure(InvalidCapacity)
    else if req.maxDailyPatients.Unreadable? then
      Failure(SchemaRejected)
    else
      Success(NewDoctor(req.doctorId.value, req.specialization.value, req.maxDailyPatients.value))
  }

  /** A registration with trimmed, non-blank fields and capacity 1 builds exactly that record. */
  lemma AcceptedRegistration(id: string, specialization: string)
    requires !IsBlank(id) && !IsBlank(specialization) && Trimmed(id) && Trimmed(specialization)
    ensures ValidateAdd(AddRequest(Some(id), Some(specialization), Parsed(1))) == Success(Doctor(id, specialization, 1, 0))
  {
    TrimOfTrimmed(id);
    TrimOfTrimmed(specialization);
  }

  /**
   * Registers a doctor: refuses an invalid request or an id already in the
   * store, leaving the store unchanged; otherwise appends the new record.
   * The schema's own validation refuses only a capacity `parseInt` cannot
   * read, and never anything ValidateAdd accepted.
   */
  method AddDoctor(store: DoctorCollection, req: AddRequest) returns (r: Result<Doctor, AddError>)
    requires store.Valid() && CapacityInvariant(store.doctors)
    modifies store
    ensures store.Valid() && CapacityInvariant(store.doctors)
    ensures Evolves(old(store.doctors), store.doctors)
    ensures match ValidateAdd(req)
      case Failure(e) => r == Failure(e) && store.doctors == old(store.doctors)
      case Success(d) =>
        if FindIndex(old(store.doctors), d.doctorId).Some? then
          r == Failure(DuplicateId(d.doctorId)) && store.doctors == old(store.doctors)
        else
          r == Success(d) && store.doctors == old(store.doctors) + [d]
    ensures r == Failure(SchemaRejected) ==> req.maxDailyPatients.Unreadable?
  {
    var checked := ValidateAdd(req);
    if checked.Failure? {
      return checked;
    }
    var doc := checked.value;
    ValidatedIsNormalized(req, doc);
    ghost var before := store.doctors;
    var saved := store.Save(doc);
    match saved
    case Saved(d) =>
      AppendKeepsInvariants(before, doc);
      r := Success(d);
    case DuplicateKey =>
      r := Failure(DuplicateId(doc.doctorId));
    case ValidationError =>
      r := Failure(SchemaRejected);
  }

  /** A document ValidateAdd builds passes the schema unchanged. */
  lemma ValidatedIsNormalized(req: AddRequest, doc: Doctor)
    requires ValidateAdd(req) == Success(doc)
    ensures Normalized(doc) == doc && SchemaValid(doc) && WithinCapacity(doc)
  {
    var id, sp := req.doctorId.value, req.specialization.value;
    assert doc.doctorId == Trim(id) && doc.specialization == Trim(sp);
    TrimIdempotent(id);
    TrimIdempotent(sp);
  }

  /** Appending a record within its capacity keeps I1 and is an evolution. */
  lemma AppendKeepsInvariants(before: seq<Doctor>, doc: Doctor)
    requires CapacityInvariant(before) && WithinCapacity(doc)
    ensures CapacityInvariant(before + [doc]) && Evolves(before, before + [doc])
  {
    var after := before + [doc];
    forall k | 0 <= k < |after| ensures WithinCapacity(after[k]) {
      if k < |before| {
        assert after[k] == before[k];
      }
    }
  }

  /**
   * The daily reset: every count back to 0, every other field and the set
   * of records unchanged, so every doctor is available again. The count it
   * reports is the number of stored doctors (see `ResetAll`).
   */
  method ResetDailyAppointments(store: DoctorCollection) returns (modifiedCount: nat)
    requires store.Valid()
    modifies store
    ensures store.Valid() && CapacityInvariant(store.doctors)
    ensures Evolves(old(store.doctors), store.doctors) && |store.doctors| == |old(store.doctors)|
    ensures forall i :: 0 <= i < |store.doctors| ==>
      store.doctors[i] == old(store.doctors)[i].(currentAppointments := 0) && IsAvailable(store.doctors[i])
    ensures modifiedCount == |old(store.doctors)|
  {
    modifiedCount := store.ResetAll();
  }

  /** `a` has a load ratio no greater than `b`'s, compared without division. */
  predicate LoadAtMost(a: Doctor, b: Doctor) {
    a.currentAppointments * b.maxDailyPatients <= b.currentAppointments * a.maxDailyPatients
  }

  /** For positive capacities the integer comparison is exactly the comparison of the ratios. */
  lemma LoadAtMostIsRatioOrder(a: Doctor, b: Doctor)
    requires a.maxDailyPatients >= 1 && b.maxDailyPatients >= 1
    ensures LoadAtMost(a, b) <==>
      (a.currentAppointments as real) / (a.maxDailyPatients as real)
      <= (b.currentAppointments as real) / (b.maxDailyPatients as real)
  {
    var ma, mb := a.maxDailyPatients as real, b.maxDailyPatients as real;
    var ra, rb := (a.currentAppointments as real) / ma, (b.currentAppointments as real) / mb;
    assert ra * ma == a.currentAppointments as real;
    assert rb * mb == b.currentAppointments as real;
    assert ra <= rb <==> ra * (ma * mb) <= rb * (ma * mb);
    assert ra * (ma * mb) == (a.currentAppointments * b.maxDailyPatients) as real;
    assert rb * (ma * mb) == (b.currentAppointments * a.maxDailyPatients) as real;
  }

  lemma LoadAtMostTransitive(a: Doctor, b: Doctor, c: Doctor)
    requires a.maxDailyPatients >= 1 && b.maxDailyPatients >= 1 && c.maxDailyPatients >= 1
    requires LoadAtMost(a, b) && LoadAtMost(b, c)
    ensures LoadAtMost(a, c)
  {
    var ac, am, bc, bm, cc, cm :=
      a.currentAppointments, a.maxDailyPatients, b.currentAppointments, b.maxDailyPatients,
      c.currentAppointments, c.maxDailyPatients;
    MulMonotone(ac * bm, bc * am, cm);
    MulMonotone(bc * cm, cc * bm, am);
    assert (ac * cm) * bm <= (cc * am) * bm by {
      assert (ac * cm) * bm == (ac * bm) * cm;
      assert (bc * am) * cm == (bc * cm) * am;
      assert (cc * bm) * am == (cc * am) * bm;
    }
    MulCancel(ac * cm, cc * am, bm);
  }

  lemma MulMonotone(x: int, y: int, k: int)
    requires x <= y && k >= 0
    ensures x * k <= y * k
  {
  }

  lemma MulCancel(x: int, y: int, k: int)
    requires x * k <= y * k && k > 0
    ensures x <= y
  {
  }

  /** Ascending by load ratio. */
  predicate SortedByLoad(s: seq<Doctor>) {
    forall i, j :: 0 <= i < j < |s| ==> LoadAtMost(s[i], s[j])
  }

  /** Insertion sort of the fetched array by load ratio, in place (`doctors.sort(...)`). */
  method SortByLoad(a: array<Doctor>)
    requires PositiveCapacities(a[..])
    modifies a
    ensures SortedByLoad(a[..])
    ensures multiset(a[..]) == multiset(old(a[..]))
  {
    var i := 0;
    while i < a.Length
      invariant 0 <= i <= a.Length
      invariant SortedByLoad(a[..i])
      invariant multiset(a[..]) == multiset(old(a[..]))
      invariant PositiveCapacities(a[..])
    {
      InsertLast(a, i);
      i := i + 1;
    }
    assert a[..a.Length] == a[..];
  }

  /** Every capacity in `s` is positive, so load ratios are defined. */
  predicate PositiveCapacities(s: seq<Doctor>) {
    forall k :: 0 <= k < |s| ==> s[k].maxDailyPatients >= 1
  }

  /**
   * The state of one insertion step on `s[..i + 1]`: the element being
   * moved sits at `j`; all other pairs are in order, and the moved element
   * is no greater than everything after it.
   */
  predicate Inserting(s: seq<Doctor>, j: nat, i: nat)
    requires j <= i < |s|
  {
    && (forall p, q :: 0 <= p < q <= i && p != j && q != j ==> LoadAtMost(s[p], s[q]))
    && (forall q :: j < q <= i ==> LoadAtMost(s[j], s[q]))
  }

  lemma InsertingStep(s: seq<Doctor>, j: nat, i: nat)
    requires 0 < j <= i < |s| && Inserting(s, j, i)
    requires !LoadAtMost(s[j - 1], s[j])
    ensures Inserting(s[j - 1 := s[j]][j := s[j - 1]], j - 1, i)
  {
  }

  lemma InsertingDone(s: seq<Doctor>, j: nat, i: nat)
    requires j <= i < |s| && Inserting(s, j, i) && PositiveCapacities(s)
    requires j == 0 || LoadAtMost(s[j - 1], s[j])
    ensures SortedByLoad(s[..i + 1])
  {
    forall p | 0 <= p < j - 1
      ensures LoadAtMost(s[p], s[j])
    {
      LoadAtMostTransitive(s[p], s[j - 1], s[j]);
    }
  }

  lemma SwapPermutes(s: seq<Doctor>, j: nat)
    requires 0 < j < |s|
    ensures multiset(s[j - 1 := s[j]][j := s[j - 1]]) == multiset(s)
    ensures PositiveCapacities(s) ==> PositiveCapacities(s[j - 1 := s[j]][j := s[j - 1]])
  {
  }

  /** Moves `a[i]` down into the sorted prefix `a[..i]`, leaving `a[..i + 1]` sorted. */
  method InsertLast(a: array<Doctor>, i: nat)
    requires i < a.Length
    requires SortedByLoad(a[..i]) && PositiveCapacities(a[..])
    modifies a
    ensures SortedByLoad(a[..i + 1]) && PositiveCapacities(a[..])
    ensures multiset(a[..]) == multiset(old(a[..]))
  {
    var j := i;
    while j > 0 && !LoadAtMost(a[j - 1], a[j])
      invariant 0 <= j <= i
      invariant Inserting(a[..], j, i)
      invariant multiset(a[..]) == multiset(old(a[..]))
      invariant PositiveCapacities(a[..])
    {
      ghost var s := a[..];
      InsertingStep(s, j, i);
      a[j - 1], a[j] := a[j], a[j - 1];
      assert a[..] == s[j - 1 := s[j]][j := s[j - 1]];
      SwapPermutes(s, j);
      j := j - 1;
    }
    InsertingDone(a[..], j, i);
  }

  /** The listing: every stored doctor exactly once, least loaded (by ratio) first. */
  method GetAllDoctors(store: DoctorCollection) returns (listed: seq<Doctor>)
    requires store.Valid()
    ensures multiset(listed) == multiset(store.doctors)
    ensures SortedByLoad(listed)
  {
    var found := store.doctors;
    var a := new Doctor[|found|](k requires 0 <= k < |found| => found[k]);
    assert a[..] == found;
    SortByLoad(a);
    listed := a[..];
  }
}
