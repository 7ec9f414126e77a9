/** The registry of `HospitalManagementSystem`: a dictionary from patient ID
    to record that keeps insertion order, the add and edit dialogs reduced to
    one round of answers each, and the sort menu entry. */
module Registry {
  import opened Text
  import opened Patients
  import opened Sorting
  import opened Partition

  /** The records for `ids`, in the order of `ids`. */
  function ValuesOf(ids: seq<string>, m: map<string, Patient>): seq<Patient>
    requires forall i :: 0 <= i < |ids| ==> ids[i] in m
  {
    seq(|ids|, i requires 0 <= i < |ids| => m[ids[i]])
  }

  /** `ids` lists every key of `m` exactly once, and each record is filed
      under its own ID. */
  ghost predicate WellIndexed(ids: seq<string>, m: map<string, Patient>)
  {
    (forall i :: 0 <= i < |ids| ==> ids[i] in m) &&
    (forall id :: id in m ==> id in ids) &&
    (forall i, j :: 0 <= i < j < |ids| ==> ids[i] != ids[j]) &&
    (forall id :: id in m ==> m[id].id == id)
  }

  /** Filing a record under a new ID appends it to the values. */
  lemma FileNew(ids: seq<string>, m: map<string, Patient>, p: Patient)
    requires WellIndexed(ids, m) && p.id !in m
    ensures WellIndexed(ids + [p.id], m[p.id := p])
    ensures ValuesOf(ids + [p.id], m[p.id := p]) == ValuesOf(ids, m) + [p]
  {
    var ids', m' := ids + [p.id], m[p.id := p];
    forall i | 0 <= i < |ids|
      ensures ids'[i] == ids[i] && ids[i] != p.id
    {
    }
    assert ValuesOf(ids', m') == ValuesOf(ids, m) + [p];
  }

  /** Replacing the record under an existing ID by one with the same ID
      keeps the index and the order. */
  lemma RefileExisting(ids: seq<string>, m: map<string, Patient>, p: Patient)
    requires WellIndexed(ids, m) && p.id in m
    ensures WellIndexed(ids, m[p.id := p])
    ensures m[p.id := p].Keys == m.Keys
  {
  }

  /** What one pass through the edit dialog did. */
  datatype EditOutcome = NotFound | Refused(error: FieldError) | Updated(patient: Patient)

  class HospitalSystem {
    /** The keys of `self.patients` in insertion order: the order in which
        `values()` yields the records. */
    var ids: seq<string>
    /** `self.patients` as a mapping. */
    var records: map<string, Patient>

    /** `ids` lists every key exactly once, and each record is filed under
        its own ID. */
    ghost predicate Valid()
      reads this
    {
      WellIndexed(ids, records)
    }

    /** `list(self.patients.values())` */
    function Values(): seq<Patient>
      reads this
      requires Valid()
    {
      ValuesOf(ids, records)
    }

    constructor()
      ensures Valid()
      ensures ids == [] && records == map[]
    {
      ids := [];
      records := map[];
    }

    /** `add_patient` with one answer per prompt: an accepted record is
        filed under its ID and appended to the insertion order; a refused
        answer leaves the registry as it was. */
    method AddPatient(id: string, name: string, ageAnswer: string, illness: string,
                      score: ScoreText, logicExpr: string) returns (r: Result<Patient, FieldError>)
      requires Valid()
      modifies this
      ensures Valid()
      ensures r == NewRecord(id, old(records).Keys, name, ageAnswer, illness, score, logicExpr)
      ensures r.Err? ==> ids == old(ids) && records == old(records)
      ensures r.Ok? ==> ids == old(ids) + [id] && records == old(records)[id := r.value]
      ensures r.Ok? ==> Values() == old(Values()) + [r.value]
    {
      r := NewRecord(id, records.Keys, name, ageAnswer, illness, score, logicExpr);
      if r.Ok? {
        Store(r.value);
      }
    }

    /** `self.patients[p.id] = p` for an ID not yet present: the record is
        filed and its ID goes to the end of the insertion order. */
    method Store(p: Patient)
      requires Valid() && p.id !in records
      modifies this
      ensures Valid()
      ensures ids == old(ids) + [p.id] && records == old(records)[p.id := p]
      ensures Values() == old(Values()) + [p]
    {
      FileNew(ids, records, p);
      ids := ids + [p.id];
      records := records[p.id := p];
    }

    /** `edit_patient` with one answer per prompt: an unknown ID changes
        nothing; otherwise the record is replaced by its edited form unless
        an answer is refused. The ID and the set of keys never change. */
    method EditPatient(id: string, answers: EditAnswers) returns (outcome: EditOutcome)
      requires Valid()
      modifies this
      ensures Valid()
      ensures ids == old(ids) && records.Keys == old(records).Keys
      ensures id !in old(records) ==> outcome == NotFound && records == old(records)
      ensures id in old(records) && ApplyEdit(old(records)[id], answers).Err? ==>
        outcome == Refused(ApplyEdit(old(records)[id], answers).error) && records == old(records)
      ensures id in old(records) && ApplyEdit(old(records)[id], answers).Ok? ==>
        outcome == Updated(ApplyEdit(old(records)[id], answers).value) &&
        records == old(records)[id := outcome.patient]
      ensures outcome.Updated? ==> outcome.patient.id == id
      ensures forall other :: other in old(records) && other != id ==> records[other] == old(records)[other]
    {
      if id !in records {
        return NotFound;
      }
      var patient := records[id];
      match ApplyEdit(patient, answers)
      case Err(e) =>
        outcome := Refused(e);
      case Ok(updated) =>
        RefileExisting(ids, records, updated);
        records := records[id := updated];
        outcome := Updated(updated);
    }

    /** `sort_patients`: the menu answer picks the key, the chosen algorithm
        ranks a copy of the records by it, and the stable pass on
        `not logic` moves the logic-true records to the front. The registry
        itself is left alone, and the listing printed afterwards is the
        registry in insertion order, not the ranking. Both algorithms give
        the same ranking. */
    method SortPatients(algorithm: string, choice: string, logic: Patient -> bool)
      returns (sortedData: seq<Patient>, shown: seq<Patient>)
      requires Valid()
      ensures sortedData == LogicFirst(Ranked(Values(), KeyOf(KeyFromChoice(choice))), logic)
      ensures shown == Values()
    {
      var key := KeyOf(KeyFromChoice(choice));
      var data := Values();
      if algorithm == "bubble" {
        var a := new Patient[|data|](i requires 0 <= i < |data| => data[i]);
        assert a[..] == data;
        BubbleSort(a, key);
        sortedData := a[..];
      } else {
        sortedData := MergeSort(data, key);
      }
      sortedData := LogicFirst(sortedData, logic);
      shown := Values();
    }
  }
}
