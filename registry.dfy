/**
 * The doctors collection: the stored records and the three store
 * operations the rest of the system performs on them (insert of a new
 * document, conditional increment of one record, bulk reset). Each
 * operation here is one step against the store; the bulk reset is
 * atomic per document in the database, and one step in this model.
 */
module Registry {
  import opened Text
  import opened Wrappers
  import opened DoctorModel

  /** How `save` of a new document ends. */
  datatype SaveResult = Saved(doctor: Doctor) | ValidationError | DuplicateKey

  /** A document as the schema's `trim` setters store it. */
  function Normalized(doc: Doctor): Doctor {
    doc.(doctorId := Trim(doc.doctorId), specialization := Trim(doc.specialization))
  }

  class DoctorCollection {
    /** The records, in insertion order. */
    var doctors: seq<Doctor>

    /** What the database itself enforces: the schema on every record and the unique index on doctorId. */
    ghost predicate Valid()
      reads this
    {
      AllSchemaValid(doctors) && UniqueIds(doctors)
    }

    constructor ()
      ensures Valid() && doctors == []
    {
      doctors := [];
    }

    /**
     * `save` of a new document: the schema's `trim` setters apply, then
     * validation, then the unique index. Nothing is stored on failure.
     */
    method Save(doc: Doctor) returns (r: SaveResult)
      requires Valid()
      modifies this
      ensures Valid()
      ensures
        if !SchemaValid(Normalized(doc)) then r == ValidationError && doctors == old(doctors)
        else if FindIndex(old(doctors), Normalized(doc).doctorId).Some? then r == DuplicateKey && doctors == old(doctors)
        else r == Saved(Normalized(doc)) && doctors == old(doctors) + [Normalized(doc)]
    {
      var stored := Normalized(doc);
      if !SchemaValid(stored) {
        r := ValidationError;
      } else if FindIndex(doctors, stored.doctorId).Some? {
        r := DuplicateKey;
      } else {
        doctors := doctors + [stored];
        r := Saved(stored);
      }
    }

    /**
     * `findOneAndUpdate({doctorId: id, currentAppointments: {$lt: limit}},
     * {$inc: {currentAppointments: 1}}, {new: true})`: finds the record by
     * its key and increments its count only if the count is still below
     * `limit` at this moment; returns the updated record, or nothing when
     * no record satisfies the filter.
     */
    method FindOneAndIncrement(id: string, limit: int) returns (updated: Option<Doctor>)
      requires Valid()
      modifies this
      ensures Valid()
      ensures match FindIndex(old(doctors), id)
        case Some(i) =>
          if old(doctors)[i].currentAppointments < limit then
            updated == Some(Incremented(old(doctors)[i])) && doctors == old(doctors)[i := Incremented(old(doctors)[i])]
          else
            updated == None && doctors == old(doctors)
        case None => updated == None && doctors == old(doctors)
    {
      var found := FindIndex(doctors, id);
      match found
      case Some(i) =>
        if doctors[i].currentAppointments < limit {
          var d := Incremented(doctors[i]);
          doctors := doctors[i := d];
          updated := Some(d);
        } else {
          updated := None;
        }
      case None =>
        updated := None;
    }

    /**
     * `updateMany({}, {$set: {currentAppointments: 0}})`: every count back
     * to 0; returns how many records it modified. The schema keeps
     * timestamps, so the update also sets `updatedAt` on every record and
     * every record counts as modified, whatever its count was.
     */
    method ResetAll() returns (modifiedCount: nat)
      requires Valid()
      modifies this
      ensures Valid()
      ensures doctors == ResetCounts(old(doctors))
      ensures modifiedCount == |old(doctors)|
    {
      modifiedCount := |doctors|;
      doctors := ResetCounts(doctors);
    }
  }
}
