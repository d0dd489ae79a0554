/**
 * The patients page: the list of records it keeps, the handlers that edit
 * it, and the search filter and due column it renders.
 */
module PatientsPage {
  import opened Wrappers
  import opened Ledger
  import Lists
  import Text

  /** Records whose id is not `id`: what `handleDelete` keeps. */
  function KeepOtherPatient(id: string): PatientData -> bool
  {
    (p: PatientData) => p.id != id
  }

  /** The map of the edit branch: the submitted record in place of every record with its id. */
  function ReplaceSameId(d: PatientData): PatientData -> PatientData
  {
    (p: PatientData) => if p.id == d.id then d else p
  }

  /**
   * The search condition: the lowercased term occurs in the lowercased name,
   * e-mail or treatment type, or the raw term occurs in the mobile number.
   */
  function Matches(p: PatientData, term: string): (found: bool)
    ensures term == "" ==> found
    ensures Text.Includes(p.mobile, term) ==> found
  {
    || Text.Includes(Text.Lower(p.name), Text.Lower(term))
    || Text.Includes(p.mobile, term)
    || Text.Includes(Text.Lower(p.email), Text.Lower(term))
    || Text.Includes(Text.Lower(p.treatmentType), Text.Lower(term))
  }

  function MatchesTerm(term: string): PatientData -> bool
  {
    (p: PatientData) => Matches(p, term)
  }

  /** `filteredPatients`: the records matching the term, in list order. */
  function FilteredPatients(patients: seq<PatientData>, term: string): (shown: seq<PatientData>)
    ensures |shown| <= |patients|
    ensures forall k :: 0 <= k < |shown| ==> Matches(shown[k], term)
  {
    Lists.Filter(patients, MatchesTerm(term))
  }

  /**
   * The filter shows a subsequence of the list, keeps exactly the matching
   * records, and keeps every record for the empty term.
   */
  lemma FilteredPatientsSpec(patients: seq<PatientData>, term: string)
    ensures Lists.SubsequenceOf(FilteredPatients(patients, term), patients)
    ensures forall p :: p in FilteredPatients(patients, term) <==> p in patients && Matches(p, term)
    ensures term == "" ==> FilteredPatients(patients, term) == patients
  {
    Lists.FilterIsSubsequence(patients, MatchesTerm(term));
    forall p
      ensures p in FilteredPatients(patients, term) <==> p in patients && Matches(p, term)
    {
      Lists.FilterMembers(patients, MatchesTerm(term), p);
    }
    if term == "" {
      forall k | 0 <= k < |patients|
        ensures Matches(patients[k], term)
      {
        assert Text.Lower(term) == [];
      }
      Lists.FilterKeepsAll(patients, MatchesTerm(term));
    }
  }

  /** A search term that occurs in a record's mobile number always finds the record, whatever its case. */
  lemma MobileSearchFinds(patients: seq<PatientData>, term: string, p: PatientData)
    requires p in patients && Text.Includes(p.mobile, term)
    ensures p in FilteredPatients(patients, term)
  {
    Lists.FilterMembers(patients, MatchesTerm(term), p);
  }

  class PatientList {
    var patients: seq<PatientData>
    var editingPatient: Option<PatientData>
    var showForm: bool
    var deleteId: Option<string>

    constructor ()
      ensures patients == [] && editingPatient == None && !showForm && deleteId == None
    {
      patients := [];
      editingPatient := None;
      showForm := false;
      deleteId := None;
    }

    /**
     * `handleAddPatient`: in edit mode every record with the submitted id is
     * replaced by it in place; otherwise the record is appended. The form closes.
     */
    method HandleAddPatient(d: PatientData)
      modifies this
      ensures old(editingPatient).Some?
              ==> && patients == Lists.Map(old(patients), ReplaceSameId(d))
                  && |patients| == |old(patients)|
                  && (forall k :: 0 <= k < |patients| ==> patients[k] == if old(patients)[k].id == d.id then d else old(patients)[k])
      ensures old(editingPatient).None? ==> patients == old(patients) + [d]
      ensures editingPatient == None && !showForm && deleteId == old(deleteId)
    {
      if editingPatient.Some? {
        forall k | 0 <= k < |patients|
          ensures Lists.Map(patients, ReplaceSameId(d))[k] == if patients[k].id == d.id then d else patients[k]
        {
          Lists.MapAt(patients, ReplaceSameId(d), k);
        }
        patients := Lists.Map(patients, ReplaceSameId(d));
        editingPatient := None;
      } else {
        patients := patients + [d];
      }
      showForm := false;
    }

    /** `handleDelete(id)`: drop every record with that id, keeping the others in order. */
    method HandleDelete(id: string)
      modifies this
      ensures patients == Lists.Filter(old(patients), KeepOtherPatient(id))
      ensures forall p :: p in patients <==> p in old(patients) && p.id != id
      ensures Lists.SubsequenceOf(patients, old(patients))
      ensures deleteId == None && editingPatient == old(editingPatient) && showForm == old(showForm)
    {
      forall p
        ensures p in Lists.Filter(patients, KeepOtherPatient(id)) <==> p in patients && p.id != id
      {
        Lists.FilterMembers(patients, KeepOtherPatient(id), p);
      }
      Lists.FilterIsSubsequence(patients, KeepOtherPatient(id));
      patients := Lists.Filter(patients, KeepOtherPatient(id));
      deleteId := None;
    }
  }
}
