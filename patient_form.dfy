/**
 * The patient form component: its state (`formData`, the staged images,
 * the payment being entered) and the handlers that update it, plus the
 * submit-time validation and the assembly of the record handed to the page.
 * Strings use "" for an absent value (both are falsy wherever the form tests
 * them); numbers and lists that may be absent are `Option`s.
 */
module PatientForm {
  import opened Wrappers
  import opened Ledger
  import Lists

  const MaxImages := 10
  const MaxImageBytes := 500 * 1024

  /** A picked file: its name, its size in bytes and the data URL it reads as. */
  datatype ImageFile = ImageFile(name: string, size: int, dataUrl: string)

  /** The editable fields of `formData` (a `Partial<PatientData>`). */
  datatype FormData = FormData(
    name: string,
    mobile: string,
    email: string,
    treatmentType: string,
    description: string,
    startDate: Option<int>,
    totalFee: Option<int>,
    paidFee: Option<int>,
    payments: Option<seq<Payment>>)

  /** `newPayment`: the payment dialog's input. */
  datatype PaymentDraft = PaymentDraft(amount: Option<int>, date: Option<int>, paymentMethod: string, notes: Option<string>)

  /** The dialog's reset state: amount 0, today, Cash, no notes. */
  function FreshDraft(today: int): PaymentDraft
  {
    PaymentDraft(Some(0), Some(today), "Cash", Some(""))
  }

  /** The form prefilled from the record being edited. */
  function FormOf(p: PatientData): FormData
  {
    FormData(p.name, p.mobile, p.email, p.treatmentType, p.description, p.startDate,
             Some(p.totalFee), Some(p.paidFee), Some(p.payments))
  }

  const EmptyForm := FormData("", "", "", "", "", None, Some(0), Some(0), Some([]))

  /** `calculateDue()`: missing fee, paid fee or payments read as 0. */
  function FormDue(f: FormData): (due: int)
    ensures f.payments.GetOr([]) == [] ==> due == f.totalFee.GetOr(0) - f.paidFee.GetOr(0)
    ensures f.totalFee.None? && f.paidFee.None? && f.payments.None? ==> due == 0
  {
    Due(f.totalFee.GetOr(0), f.paidFee.GetOr(0), f.payments.GetOr([]))
  }

  /** Absent figures count as zero in the due amount. */
  lemma FormDueMissingIsZero(f: FormData)
    ensures FormDue(f.(totalFee := None)) == FormDue(f.(totalFee := Some(0)))
    ensures FormDue(f.(paidFee := None)) == FormDue(f.(paidFee := Some(0)))
    ensures FormDue(f.(payments := None)) == FormDue(f.(payments := Some([])))
    ensures FormDue(f.(totalFee := None, paidFee := None, payments := None)) == 0
  {
  }

  /** The size filter of the upload handler: at most 500 KB. */
  predicate WithinSizeLimit(f: ImageFile)
  {
    f.size <= MaxImageBytes
  }

  /** The data URLs of the files, in order (what the file readers append to the previews). */
  function DataUrls(files: seq<ImageFile>): (urls: seq<string>)
    ensures |urls| == |files|
  {
    if files == [] then [] else [files[0].dataUrl] + DataUrls(files[1..])
  }

  predicate IsDigit(c: char)
  {
    '0' <= c <= '9'
  }

  /** `s` matches `\d{n}` in full. */
  function Digits(s: string, n: nat): (matched: bool)
    ensures matched ==> |s| == n
  {
    if n == 0 then s == [] else s != [] && IsDigit(s[0]) && Digits(s[1..], n - 1)
  }

  /** `/^[6-9]\d{9}$/.test(s)`. */
  function MobilePattern(s: string): (matched: bool)
    ensures matched ==> |s| == 10 && '6' <= s[0] <= '9'
  {
    s != [] && '6' <= s[0] <= '9' && Digits(s[1..], 9)
  }

  lemma {:induction false} DigitsShape(s: string, n: nat)
    ensures Digits(s, n) <==> |s| == n && forall i :: 0 <= i < |s| ==> IsDigit(s[i])
  {
    if n > 0 && s != [] {
      DigitsShape(s[1..], n - 1);
      assert forall i :: 1 <= i < |s| ==> s[i] == s[1..][i - 1];
    }
  }

  /** The mobile rule: exactly ten decimal digits, the first one 6, 7, 8 or 9. */
  lemma MobilePatternShape(s: string)
    ensures MobilePattern(s)
            <==> |s| == 10 && '6' <= s[0] <= '9' && forall i :: 1 <= i < 10 ==> IsDigit(s[i])
  {
    if s != [] {
      DigitsShape(s[1..], 9);
      assert forall i :: 1 <= i < |s| ==> s[i] == s[1..][i - 1];
    }
  }

  /** The submit-time validation: required fields present and the mobile number well formed. */
  function SubmitAccepted(f: FormData): (accepted: bool)
    ensures accepted ==> f.name != "" && f.treatmentType != "" && |f.mobile| == 10
  {
    f.name != "" && f.mobile != "" && f.treatmentType != "" && MobilePattern(f.mobile)
  }

  /**
   * The form component stays mounted while the page runs: the page renders it
   * unconditionally and without a `key`, so its state is initialised once,
   * from the `editingPatient` of the first render, and a later change of that
   * prop reaches only the prop itself.
   */
  class FormState {
    var editingPatient: Option<PatientData>
    var formData: FormData
    var imageFiles: seq<ImageFile>
    var previewImages: seq<string>
    var newPayment: PaymentDraft
    var showPaymentDialog: bool

    /** The initial state: the edited record, or an empty form. */
    constructor (editing: Option<PatientData>, today: int)
      ensures editingPatient == editing
      ensures formData == if editing.Some? then FormOf(editing.value) else EmptyForm
      ensures previewImages == if editing.Some? then editing.value.images else []
      ensures imageFiles == [] && newPayment == FreshDraft(today) && !showPaymentDialog
    {
      editingPatient := editing;
      formData := if editing.Some? then FormOf(editing.value) else EmptyForm;
      previewImages := if editing.Some? then editing.value.images else [];
      imageFiles := [];
      newPayment := FreshDraft(today);
      showPaymentDialog := false;
    }

    /**
     * A re-render with another `editingPatient` (the page's `handleEdit`, or
     * closing the form): the prop changes, the form's state does not.
     */
    method ReceiveEditingPatient(editing: Option<PatientData>)
      modifies this
      ensures editingPatient == editing
      ensures formData == old(formData) && previewImages == old(previewImages) && imageFiles == old(imageFiles)
      ensures newPayment == old(newPayment) && showPaymentDialog == old(showPaymentDialog)
    {
      editingPatient := editing;
    }

    /**
     * Opening the form on `editing` as the component evidently intends (what a
     * remount keyed on the record would do): every field starts afresh from it.
     */
    method Open(editing: Option<PatientData>, today: int)
      modifies this
      ensures editingPatient == editing
      ensures formData == if editing.Some? then FormOf(editing.value) else EmptyForm
      ensures previewImages == if editing.Some? then editing.value.images else []
      ensures imageFiles == [] && newPayment == FreshDraft(today) && !showPaymentDialog
    {
      editingPatient := editing;
      formData := if editing.Some? then FormOf(editing.value) else EmptyForm;
      previewImages := if editing.Some? then editing.value.images else [];
      imageFiles := [];
      newPayment := FreshDraft(today);
      showPaymentDialog := false;
    }

    /**
     * `handleImageUpload`: a batch that would take the previews past ten is
     * refused whole; otherwise the files within 500 KB are staged, in order,
     * after the existing ones.
     */
    method HandleImageUpload(files: seq<ImageFile>) returns (accepted: bool)
      modifies this
      ensures accepted <==> |old(previewImages)| + |files| <= MaxImages
      ensures !accepted ==> previewImages == old(previewImages) && imageFiles == old(imageFiles)
      ensures accepted
              ==> && imageFiles == old(imageFiles) + Lists.Filter(files, WithinSizeLimit)
                  && previewImages == old(previewImages) + DataUrls(Lists.Filter(files, WithinSizeLimit))
                  && |previewImages| <= MaxImages
      ensures accepted ==> forall f :: f in imageFiles[|old(imageFiles)|..] <==> f in files && WithinSizeLimit(f)
      ensures formData == old(formData) && newPayment == old(newPayment) && showPaymentDialog == old(showPaymentDialog)
      ensures editingPatient == old(editingPatient)
    {
      if |previewImages| + |files| > MaxImages {
        return false;
      }
      var validFiles := Lists.Filter(files, WithinSizeLimit);
      forall f
        ensures f in validFiles <==> f in files && WithinSizeLimit(f)
      {
        Lists.FilterMembers(files, WithinSizeLimit, f);
      }
      assert (imageFiles + validFiles)[|imageFiles|..] == validFiles;
      previewImages := previewImages + DataUrls(validFiles);
      imageFiles := imageFiles + validFiles;
      accepted := true;
    }

    /** `removeImage(index)`: drop position `index` from both staged lists. */
    method RemoveImage(index: int)
      modifies this
      ensures previewImages == Lists.RemoveAt(old(previewImages), index)
      ensures imageFiles == Lists.RemoveAt(old(imageFiles), index)
      ensures 0 <= index < |old(previewImages)|
              ==> previewImages == old(previewImages)[..index] + old(previewImages)[index + 1..]
      ensures formData == old(formData) && newPayment == old(newPayment) && showPaymentDialog == old(showPaymentDialog)
      ensures editingPatient == old(editingPatient)
    {
      Lists.RemoveAtSlices(previewImages, index);
      previewImages := Lists.RemoveAt(previewImages, index);
      imageFiles := Lists.RemoveAt(imageFiles, index);
    }

    /**
     * `addPayment`: a missing, zero or negative amount changes nothing;
     * otherwise one payment is appended and the dialog is reset and closed.
     */
    method AddPayment(stamp: string, today: int) returns (added: bool)
      modifies this
      ensures added <==> old(newPayment).amount.Some? && old(newPayment).amount.value > 0
      ensures !added
              ==> formData == old(formData) && newPayment == old(newPayment) && showPaymentDialog == old(showPaymentDialog)
      ensures added
              ==> var draft := old(newPayment);
                  var p := Payment(stamp, draft.amount.value, draft.date.GetOr(today),
                                   if draft.paymentMethod == "" then "Cash" else draft.paymentMethod, draft.notes);
                  && formData == old(formData).(payments := Some(old(formData).payments.GetOr([]) + [p]))
                  && newPayment == FreshDraft(today)
                  && !showPaymentDialog
                  && FormDue(formData) == FormDue(old(formData)) - draft.amount.value
      ensures previewImages == old(previewImages) && imageFiles == old(imageFiles)
      ensures editingPatient == old(editingPatient)
    {
      if newPayment.amount.None? || newPayment.amount.value <= 0 {
        return false;
      }
      var p := Payment(stamp, newPayment.amount.value, newPayment.date.GetOr(today),
                       if newPayment.paymentMethod == "" then "Cash" else newPayment.paymentMethod, newPayment.notes);
      var f := formData;
      DueAfterPayment(f.totalFee.GetOr(0), f.paidFee.GetOr(0), f.payments.GetOr([]), p);
      formData := formData.(payments := Some(formData.payments.GetOr([]) + [p]));
      newPayment := FreshDraft(today);
      showPaymentDialog := false;
      added := true;
    }

    /** `removePayment(id)`: drop every payment with that id, keeping the rest in order. */
    method RemovePayment(id: string)
      modifies this
      ensures formData == old(formData).(payments := Some(Lists.Filter(old(formData).payments.GetOr([]), KeepOtherId(id))))
      ensures forall p :: p in formData.payments.value <==> p in old(formData).payments.GetOr([]) && p.id != id
      ensures Lists.SubsequenceOf(formData.payments.value, old(formData).payments.GetOr([]))
      ensures FormDue(formData) == FormDue(old(formData)) + Sum(Lists.Filter(old(formData).payments.GetOr([]), HasId(id)))
      ensures previewImages == old(previewImages) && imageFiles == old(imageFiles) && newPayment == old(newPayment)
      ensures showPaymentDialog == old(showPaymentDialog) && editingPatient == old(editingPatient)
    {
      var before := formData.payments.GetOr([]);
      forall p
        ensures p in Lists.Filter(before, KeepOtherId(id)) <==> p in before && p.id != id
      {
        Lists.FilterMembers(before, KeepOtherId(id), p);
      }
      Lists.FilterIsSubsequence(before, KeepOtherId(id));
      DueAfterRemoval(formData.totalFee.GetOr(0), formData.paidFee.GetOr(0), before, id);
      formData := formData.(payments := Some(Lists.Filter(before, KeepOtherId(id))));
    }

    /**
     * `handleSubmit`: refuses a form missing a name, mobile or treatment type,
     * or with a mobile number outside the pattern; otherwise assembles the
     * record (keeping the edited record's id and creation time).
     */
    method HandleSubmit(stamp: string, now: int) returns (record: Option<PatientData>)
      ensures record.None? <==> !SubmitAccepted(formData)
      ensures record.Some? ==> |record.value.mobile| == 10 && '6' <= record.value.mobile[0] <= '9'
      ensures record.Some?
              ==> var r := record.value;
                  && r.name == formData.name && r.mobile == formData.mobile
                  && r.treatmentType == formData.treatmentType
                  && r.email == formData.email && r.description == formData.description
                  && r.startDate == formData.startDate
                  && r.totalFee == formData.totalFee.GetOr(0) && r.paidFee == formData.paidFee.GetOr(0)
                  && r.payments == formData.payments.GetOr([])
                  && r.images == previewImages
      ensures record.Some? && editingPatient.Some?
              ==> && record.value.createdAt == editingPatient.value.createdAt
                  && record.value.id == if editingPatient.value.id != "" then editingPatient.value.id else stamp
      ensures record.Some? && editingPatient.None? ==> record.value.id == stamp && record.value.createdAt == now
      ensures record.Some? ==> CalculateDue(record.value) == FormDue(formData)
    {
      if formData.name == "" || formData.mobile == "" || formData.treatmentType == "" {
        return None;
      }
      if !MobilePattern(formData.mobile) {
        return None;
      }
      MobilePatternShape(formData.mobile);
      var id := if editingPatient.Some? && editingPatient.value.id != "" then editingPatient.value.id else stamp;
      var createdAt := if editingPatient.Some? then editingPatient.value.createdAt else now;
      record := Some(PatientData(
        id, formData.name, formData.mobile, formData.email, formData.treatmentType, formData.description,
        formData.startDate, formData.totalFee.GetOr(0), formData.paidFee.GetOr(0),
        previewImages, formData.payments.GetOr([]), createdAt));
    }
  }

  /**
   * The edit flow as written: the form is mounted with no record, then the page
   * passes record `p` for editing. The form still shows the empty fields, and
   * submitting it unchanged is refused, whatever `p` holds.
   */
  method EditWithoutRemount(p: PatientData, today: int, stamp: string, now: int)
    returns (shown: FormData, record: Option<PatientData>)
    ensures shown == EmptyForm
    ensures SubmitAccepted(FormOf(p)) ==> shown != FormOf(p)
    ensures record.None?
  {
    var form := new FormState(None, today);
    form.ReceiveEditingPatient(Some(p));
    shown := form.formData;
    record := form.HandleSubmit(stamp, now);
  }

  /**
   * The edit flow with the form opened on `p`: it shows `p`, and submitting it
   * unchanged gives back `p` itself (a fresh id only if `p` had none), exactly
   * when `p` passes the submit checks.
   */
  method EditWithRemount(form: FormState, p: PatientData, today: int, stamp: string, now: int)
    returns (shown: FormData, record: Option<PatientData>)
    modifies form
    ensures shown == FormOf(p)
    ensures record.Some? <==> SubmitAccepted(FormOf(p))
    ensures record.Some? ==> record.value == p.(id := if p.id != "" then p.id else stamp)
  {
    form.Open(Some(p), today);
    shown := form.formData;
    record := form.HandleSubmit(stamp, now);
  }
}
