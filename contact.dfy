/**
 * The contact form's component state (src/components/Contact.tsx): the field
 * values, the published error map, the loading flag and the submit status.
 *
 * The e-mail dispatch is not modelled; its outcome is a parameter. The submit
 * handler awaits it, so it is split into the part before the await
 * (BeginSubmit) and the part after it settles (SettleSend).
 */
module Contact {
  import opened Wrappers
  import opened Validation

  datatype SubmitStatus = Idle | Success | Failed

  class ContactForm {
    var formData: FormData
    var errors: map<Field, string>
    var isLoading: bool
    var submitStatus: SubmitStatus

    /** The initial state of the hooks: empty fields, no errors, not loading, idle. */
    constructor ()
      ensures formData == EmptyForm && errors == map[] && !isLoading && submitStatus == Idle
    {
      formData := EmptyForm;
      errors := map[];
      isLoading := false;
      submitStatus := Idle;
    }

    /** An input's change handler: field `f` takes the value `v`; the other two fields are kept. */
    method SetField(f: Field, v: string)
      modifies this`formData
      ensures formData.Get(f) == v
      ensures forall g :: g != f ==> formData.Get(g) == old(formData).Get(g)
    {
      formData := formData.With(f, v);
    }

    /** validateForm: publish the error map of the current fields; true exactly when it is empty. */
    method ValidateForm() returns (ok: bool)
      modifies this`errors
      ensures errors == ErrorsOf(formData)
      ensures ok <==> FormValid(formData)
    {
      var newErrors := BuildErrors(formData);
      ErrorsOfMeaning(formData);
      errors := newErrors;
      ok := |newErrors| == 0;
    }

    /**
     * handleSubmit up to the await. An invalid form only publishes its errors.
     * A valid one clears them, sets the loading flag, resets the status to idle
     * and hands the fields to the dispatcher (`payload`).
     */
    method BeginSubmit() returns (payload: Option<FormData>)
      modifies this`errors, this`isLoading, this`submitStatus
      ensures errors == ErrorsOf(formData)
      ensures payload.Some? <==> FormValid(formData)
      ensures payload.Some? ==> payload.value == formData && errors == map[] && isLoading && submitStatus == Idle
      ensures payload.None? ==> isLoading == old(isLoading) && submitStatus == old(submitStatus)
    {
      var ok := ValidateForm();
      if !ok {
        payload := None;
        return;
      }
      isLoading := true;
      submitStatus := Idle;
      payload := Some(formData);
    }

    /**
     * handleSubmit after the dispatch settles: on success the status is
     * "success" and the fields are emptied; on failure the status is "error"
     * and the fields are kept. Either way loading ends.
     */
    method SettleSend(succeeded: bool)
      modifies this`formData, this`isLoading, this`submitStatus
      ensures !isLoading
      ensures submitStatus == if succeeded then Success else Failed
      ensures formData == if succeeded then EmptyForm else old(formData)
    {
      if succeeded {
        submitStatus := Success;
        formData := EmptyForm;
      } else {
        submitStatus := Failed;
      }
      isLoading := false;
    }

    /** handleSubmit as a whole, with the dispatch's outcome given. */
    method HandleSubmit(succeeded: bool) returns (payload: Option<FormData>)
      modifies this`formData, this`errors, this`isLoading, this`submitStatus
      ensures payload.Some? <==> FormValid(old(formData))
      ensures payload.None? ==> errors == ErrorsOf(formData) && formData == old(formData)
      ensures payload.None? ==> isLoading == old(isLoading) && submitStatus == old(submitStatus)
      ensures payload.Some? ==> payload.value == old(formData) && errors == map[] && !isLoading
      ensures payload.Some? ==> submitStatus == (if succeeded then Success else Failed)
      ensures payload.Some? ==> formData == (if succeeded then EmptyForm else old(formData))
    {
      payload := BeginSubmit();
      if payload.Some? {
        SettleSend(succeeded);
      }
    }
  }
}
