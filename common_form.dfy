/**
 * The generic form of the persons page: its field values and error messages
 * as two maps of strings, typing into a field, re-initialisation when the
 * page passes new initial data, and the validation gate in front of the
 * submit callback.
 */
module CommonForm {
  import opened Js

  class Component {
    /** The `form` state: the value of every field typed or passed in. */
    var form: Fields
    /** The `errors` state: a message per field, "" once the field is edited. */
    var errors: Fields
    /** The `validate` property: the error map of a form, empty when the form is acceptable. */
    const validate: Fields -> Fields

    /** `useState(initialData)` and `useState({})`. */
    constructor (initialData: Fields, validate: Fields -> Fields)
      ensures form == initialData && errors == map[]
      ensures this.validate == validate
    {
      form := initialData;
      errors := map[];
      this.validate := validate;
    }

    /** The effect on `initialData`: the form is replaced; the errors stay. */
    method InitialDataChanged(initialData: Fields)
      modifies this`form
      ensures form == initialData
    {
      form := initialData;
    }

    /**
     * `handleChange`: the edited field takes the new value and its error is
     * cleared; every other field and every other error is as before.
     */
    method HandleChange(name: string, value: string)
      modifies this`form, this`errors
      ensures name in form && form[name] == value
      ensures name in errors && errors[name] == "" && !ErrorShown(name)
      ensures forall k :: k != name ==> (k in form <==> k in old(form)) && (k in form ==> form[k] == old(form)[k])
      ensures forall k :: k != name ==> (k in errors <==> k in old(errors)) && (k in errors ==> errors[k] == old(errors)[k])
      ensures form.Keys == old(form).Keys + {name} && errors.Keys == old(errors).Keys + {name}
    {
      form := form[name := value];
      errors := errors[name := ""];
    }

    /**
     * `handleSubmit`: the form is passed to `onSubmit` (the result) exactly
     * when `validate` reports no error; otherwise the errors become exactly
     * what `validate` reported. The form itself never changes.
     */
    method HandleSubmit() returns (submitted: Option<Fields>)
      modifies this`errors
      ensures submitted.Some? <==> |validate(form).Keys| == 0
      ensures submitted.Some? ==> submitted.value == form && errors == old(errors)
      ensures submitted.None? ==> errors == validate(form)
    {
      var validationErrors := validate(form);
      if |validationErrors.Keys| > 0 {
        errors := validationErrors;
        return None;
      }
      submitted := Some(form);
    }

    /** `form[field.name] || ""`: the text an input shows. */
    function DisplayValue(name: string): (v: string)
      reads this
      ensures v == "" <==> name !in form || form[name] == ""
      ensures name in form ==> v == form[name]
    {
      if name in form && form[name] != "" then form[name] else ""
    }

    /** `errors[field.name] && <p>…</p>`: a message is shown for a field with a non-empty error. */
    predicate ErrorShown(name: string)
      reads this
      ensures ErrorShown(name) ==> name in errors.Keys && |errors[name]| > 0
    {
      name in errors && errors[name] != ""
    }
  }
}
