/**
 * The allocation policy of the booking service, as pure functions of the
 * request and a snapshot of the store: input validation, the
 * case-insensitive whole-string match, the availability filter and the
 * minimum-load choice with its deterministic tie-break by doctor id.
 */
module Allocation {
  import opened Text
  import opened Wrappers
  import opened DoctorModel

  /** What a booking request ends in. */
  datatype Outcome =
    | Booked(doctor: Doctor)          // the record after its count was incremented
    | InvalidInput                    // missing or blank specialization
    | NotFound(requested: string)     // no doctor has that specialization
    | AllFull(requested: string, matchingCount: nat)  // doctors exist, every one is at capacity
    | Conflict                        // the chosen doctor filled up before the update

  /** The policy's verdict on a snapshot, before anything is written. */
  datatype Decision = Reject(outcome: Outcome) | Chosen(doctor: Doctor)

  /** The stored specialization equals the (trimmed) request, ignoring case, as a whole string. */
  predicate Matches(d: Doctor, requested: string) {
    EqualsIgnoreCase(d.specialization, requested)
  }

  function MatchingDoctors(ds: seq<Doctor>, requested: string): (r: seq<Doctor>)
    ensures forall d :: d in r <==> d in ds && Matches(d, requested)
  {
    Filter(ds, (d: Doctor) => Matches(d, requested))
  }

  function AvailableDoctors(ds: seq<Doctor>): (r: seq<Doctor>)
    ensures forall d :: d in r <==> d in ds && IsAvailable(d)
  {
    Filter(ds, IsAvailable)
  }

  /** The sort order of the service: fewer appointments first, then the smaller doctor id. */
  predicate LessLoaded(a: Doctor, b: Doctor) {
    a.currentAppointments < b.currentAppointments
    || (a.currentAppointments == b.currentAppointments && IdLess(a.doctorId, b.doctorId))
  }

  lemma LessLoadedTransitive(a: Doctor, b: Doctor, c: Doctor)
    requires LessLoaded(a, b) && LessLoaded(b, c)
    ensures LessLoaded(a, c)
  {
    if a.currentAppointments == b.currentAppointments == c.currentAppointments {
      IdLessTransitive(a.doctorId, b.doctorId, c.doctorId);
    }
  }

  /** Two doctors with different ids are always ordered one way or the other. */
  lemma LessLoadedTotal(a: Doctor, b: Doctor)
    requires a.doctorId != b.doctorId
    ensures LessLoaded(a, b) || LessLoaded(b, a)
  {
    IdLessTotal(a.doctorId, b.doctorId);
  }

  /** `d` is in `ds` and no doctor of `ds` sorts before it. */
  predicate IsLeastLoaded(d: Doctor, ds: seq<Doctor>) {
    d in ds && forall e :: e in ds ==> !LessLoaded(e, d)
  }

  /** The head of the sorted candidates: the least loaded doctor, ties going to the smaller id. */
  function LeastLoaded(ds: seq<Doctor>): (r: Doctor)
    requires ds != []
    ensures IsLeastLoaded(r, ds)
  {
    if |ds| == 1 then
      LessLoadedIrreflexive(ds[0]);
      assert ds == [ds[0]];
      ds[0]
    else
      var rest := LeastLoaded(ds[1..]);
      assert ds == [ds[0]] + ds[1..];
      if LessLoaded(ds[0], rest) then
        assert forall e :: e in ds[1..] ==> !LessLoaded(e, ds[0]) by {
          forall e | e in ds[1..] && LessLoaded(e, ds[0]) ensures false {
            LessLoadedTransitive(e, ds[0], rest);
          }
        }
        LessLoadedIrreflexive(ds[0]);
        ds[0]
      else
        rest
  }

  lemma LessLoadedIrreflexive(a: Doctor)
    ensures !LessLoaded(a, a)
  {
    IdLessIrreflexive(a.doctorId);
  }

  /** Within the set, a doctor is the only record with its id (true of any subset of a store with unique ids). */
  predicate IdsIdentify(ds: seq<Doctor>) {
    forall d, e :: d in ds && e in ds && d.doctorId == e.doctorId ==> d == e
  }

  lemma UniqueIdsIdentify(ds: seq<Doctor>)
    requires UniqueIds(ds)
    ensures IdsIdentify(ds)
  {
    forall d, e | d in ds && e in ds && d.doctorId == e.doctorId ensures d == e {
      var i :| 0 <= i < |ds| && ds[i] == d;
      var j :| 0 <= j < |ds| && ds[j] == e;
      assert i == j;
    }
  }

  /** When ids identify records there is exactly one least loaded doctor. */
  lemma LeastLoadedIsUnique(ds: seq<Doctor>, x: Doctor, y: Doctor)
    requires IdsIdentify(ds)
    requires IsLeastLoaded(x, ds) && IsLeastLoaded(y, ds)
    ensures x == y
  {
    if x != y {
      LessLoadedTotal(x, y);
    }
  }

  /**
   * Determinism of the policy: the choice depends only on which doctors
   * are candidates, not on the order the store returns them in.
   */
  lemma LeastLoadedIgnoresOrder(ds: seq<Doctor>, es: seq<Doctor>)
    requires ds != [] && IdsIdentify(ds)
    requires multiset(ds) == multiset(es)
    ensures es != [] && LeastLoaded(ds) == LeastLoaded(es)
  {
    assert forall d :: d in ds <==> d in es by {
      forall d ensures d in ds <==> d in es {
        assert d in ds <==> d in multiset(ds);
        assert d in es <==> d in multiset(es);
      }
    }
    assert es != [] by {
      assert ds[0] in es;
    }
    LeastLoadedIsUnique(ds, LeastLoaded(ds), LeastLoaded(es));
  }

  /**
   * The service's decision on a snapshot of the store: a blank request is
   * rejected, an unknown specialization is not found, a specialization
   * whose doctors are all at capacity is all full (with their number),
   * and otherwise the least loaded available doctor is chosen.
   */
  function Decide(request: Option<string>, snapshot: seq<Doctor>): (r: Decision)
    ensures IsAbsentOrBlank(request) <==> r == Reject(InvalidInput)
    ensures (r.Reject? && r.outcome.NotFound?) <==>
      !IsAbsentOrBlank(request) && forall d :: d in snapshot ==> !Matches(d, Trim(request.value))
    ensures r.Reject? && r.outcome.NotFound? ==> r.outcome.requested == request.value
    ensures (r.Reject? && r.outcome.AllFull?) <==>
      && !IsAbsentOrBlank(request)
      && (exists d :: d in snapshot && Matches(d, Trim(request.value)))
      && (forall d :: d in snapshot && Matches(d, Trim(request.value)) ==> !IsAvailable(d))
    ensures r.Reject? && r.outcome.AllFull? ==> r.outcome.requested == request.value
    ensures r.Reject? && r.outcome.AllFull? ==>
      r.outcome.matchingCount == |MatchingDoctors(snapshot, Trim(request.value))| >= 1
    ensures r.Reject? ==> !r.outcome.Booked? && !r.outcome.Conflict?
    ensures r.Chosen? ==>
      && !IsAbsentOrBlank(request)
      && var d := r.doctor;
      && d in snapshot && Matches(d, Trim(request.value)) && IsAvailable(d)
      && forall e :: e in snapshot && Matches(e, Trim(request.value)) && IsAvailable(e) ==> !LessLoaded(e, d)
  {
    if IsAbsentOrBlank(request) then Reject(InvalidInput)
    else
      var requested := Trim(request.value);
      var matching := MatchingDoctors(snapshot, requested);
      if matching == [] then
        Reject(NotFound(request.value))
      else
        assert matching[0] in snapshot && Matches(matching[0], requested);
        var available := AvailableDoctors(matching);
        if available == [] then
          Reject(AllFull(request.value, |matching|))
        else
          var d := LeastLoaded(available);
          assert d in snapshot && Matches(d, requested) && IsAvailable(d);
          Chosen(d)
  }

  /** The multiplicity of each doctor in a filtered sequence depends only on its multiplicity before. */
  lemma {:induction false} FilterCount(ds: seq<Doctor>, keep: Doctor -> bool, x: Doctor)
    ensures multiset(Filter(ds, keep))[x] == if keep(x) then multiset(ds)[x] else 0
  {
    if ds != [] {
      var rest := Filter(ds[1..], keep);
      FilterCount(ds[1..], keep, x);
      assert ds == [ds[0]] + ds[1..];
      assert multiset(ds)[x] == multiset([ds[0]])[x] + multiset(ds[1..])[x];
      if keep(ds[0]) {
        assert Filter(ds, keep) == [ds[0]] + rest;
        assert multiset(Filter(ds, keep))[x] == multiset([ds[0]])[x] + multiset(rest)[x];
      } else {
        assert Filter(ds, keep) == rest;
      }
    }
  }

  /** Filtering two orderings of the same doctors yields two orderings of the same result. */
  lemma FilterPermutation(ds: seq<Doctor>, es: seq<Doctor>, keep: Doctor -> bool)
    requires multiset(ds) == multiset(es)
    ensures multiset(Filter(ds, keep)) == multiset(Filter(es, keep))
  {
    forall x ensures multiset(Filter(ds, keep))[x] == multiset(Filter(es, keep))[x] {
      FilterCount(ds, keep, x);
      FilterCount(es, keep, x);
    }
  }

  /**
   * Determinism under a fixed snapshot: the decision does not depend on
   * the order in which the store returns its records.
   */
  lemma DecideIgnoresOrder(request: Option<string>, ds: seq<Doctor>, es: seq<Doctor>)
    requires UniqueIds(ds) && multiset(ds) == multiset(es)
    ensures Decide(request, ds) == Decide(request, es)
  {
    if !IsAbsentOrBlank(request) {
      var requested := Trim(request.value);
      var keep := (d: Doctor) => Matches(d, requested);
      FilterPermutation(ds, es, keep);
      var md, me := MatchingDoctors(ds, requested), MatchingDoctors(es, requested);
      assert |md| == |multiset(md)| == |multiset(me)| == |me|;
      if md != [] {
        FilterPermutation(md, me, IsAvailable);
        var ad, ae := AvailableDoctors(md), AvailableDoctors(me);
        assert |ad| == |multiset(ad)| == |multiset(ae)| == |ae|;
        if ad != [] {
          UniqueIdsIdentify(ds);
          assert IdsIdentify(ad) by {
            forall d | d in ad ensures d in ds {
              assert d in md;
            }
          }
          LeastLoadedIgnoresOrder(ad, ae);
        }
      }
    }
  }

  /**
   * After the daily reset a specialization that was all full is bookable
   * again: the decision chooses one of its doctors, at load 0.
   */
  lemma ResetMakesFullSpecializationBookable(request: Option<string>, ds: seq<Doctor>)
    requires AllSchemaValid(ds)
    requires Decide(request, ds).Reject? && Decide(request, ds).outcome.AllFull?
    ensures Decide(request, ResetCounts(ds)).Chosen?
    ensures Decide(request, ResetCounts(ds)).doctor.currentAppointments == 0
  {
    var requested := Trim(request.value);
    var d :| d in ds && Matches(d, requested);
    var i :| 0 <= i < |ds| && ds[i] == d;
    var reset := ResetCounts(ds);
    assert reset[i] in reset && Matches(reset[i], requested) && IsAvailable(reset[i]);
  }

  /** A request for a specialization no doctor has is not found. */
  lemma UnknownSpecializationNotFound()
    ensures Decide(Some("Neurology"), [Doctor("C1", "Cardiology", 5, 0)]) == Reject(NotFound("Neurology"))
  {
    assert !IsBlank("Neurology") by {
      assert !IsWhitespace("Neurology"[0]);
    }
    assert Trim("Neurology") == "Neurology" by {
      assert !IsWhitespace("Neurology"[8]);
    }
    assert Lower("Cardiology")[0] != Lower("Neurology")[0];
  }

  /** Equal loads go to the smaller id; the request is matched ignoring case and surrounding spaces. */
  lemma TieGoesToSmallerId(request: string, d1: Doctor, d2: Doctor)
    requires request == " cardiology "
    requires d1 == Doctor("D1", "Cardiology", 5, 1) && d2 == Doctor("D2", "Cardiology", 5, 1)
    ensures Decide(Some(request), [d2, d1]) == Chosen(d1)
    ensures Decide(Some(request), [d1, d2]) == Chosen(d1)
  {
    SmallerIdChosenFromSecondPlace(request, d1, d2);
    assert UniqueIds([d2, d1]) && multiset([d2, d1]) == multiset([d1, d2]);
    DecideIgnoresOrder(Some(request), [d2, d1], [d1, d2]);
  }

  /** The tie case with the smaller id stored second. */
  lemma SmallerIdChosenFromSecondPlace(request: string, d1: Doctor, d2: Doctor)
    requires request == " cardiology "
    requires d1 == Doctor("D1", "Cardiology", 5, 1) && d2 == Doctor("D2", "Cardiology", 5, 1)
    ensures Decide(Some(request), [d2, d1]) == Chosen(d1)
  {
    PaddedRequestMatches(request);
    LowerIdFirst(d1.doctorId, d2.doctorId);
    var c := Decide(Some(request), [d2, d1]);
    assert d1 in [d2, d1] && IsAvailable(d1) && Matches(d1, Trim(request));
    assert c.Chosen?;
    assert c.doctor == d1;
  }

  /** "D1" comes before "D2" in the identifier order. */
  lemma LowerIdFirst(a: string, b: string)
    requires a == "D1" && b == "D2"
    ensures IdLess(a, b)
  {
    assert Lower(a) == "d1" && Lower(b) == "d2";
    assert LexLess("d1"[1..], "d2"[1..]);
  }

  lemma PaddedRequestMatches(request: string)
    requires request == " cardiology "
    ensures !IsBlank(request) && Trim(request) == "cardiology"
    ensures EqualsIgnoreCase("Cardiology", "cardiology")
  {
    assert !IsWhitespace(request[1]);
    assert Trim(request) == Trim("cardiology ") by {
      assert IsWhitespace(request[0]) && request[1..] == "cardiology ";
    }
    assert Trim("cardiology ") == "cardiology" by {
      assert !IsWhitespace("cardiology "[0]) && IsWhitespace("cardiology "[10]);
      forall k | 0 <= k < 10 ensures "cardiology "[..10][k] == "cardiology"[k] {
      }
      assert "cardiology "[..10] == "cardiology";
      assert !IsWhitespace("cardiology"[0]) && !IsWhitespace("cardiology"[9]);
    }
    assert Lower("Cardiology") == Lower("cardiology");
  }
}
