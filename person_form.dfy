/**
 * The fixed person form: a name and a department, both required to be
 * non-blank after trimming before the form is submitted.
 */
module PersonForm {
  import opened Js

  const NameMessage: string := "Name is required"
  const DepartmentMessage: string := "Department is required"

  /**
   * What a submit leads to: `onSubmit(form)`, the errors being shown, or a
   * TypeError from `.trim()` on a field the form does not hold.
   */
  datatype Outcome = Submitted(data: Fields) | Rejected | Threw

  class Component {
    var form: Fields
    var errors: Fields

    constructor (initialData: Fields)
      ensures form == initialData && errors == map[]
    {
      form := initialData;
      errors := map[];
    }

    /** The effect on `initialData`: the form is replaced; the errors stay. */
    method InitialDataChanged(initialData: Fields)
      modifies this`form
      ensures form == initialData
    {
      form := initialData;
    }

    /** `handleChange`: only the edited field changes, and only its error is cleared. */
    method HandleChange(name: string, value: string)
      modifies this`form, this`errors
      ensures form == old(form)[name := value]
      ensures errors == old(errors)[name := ""]
      ensures forall k :: k != name && k in old(form) ==> k in form && form[k] == old(form)[k]
      ensures forall k :: k != name && k in old(errors) ==> k in errors && errors[k] == old(errors)[k]
    {
      form := form[name := value];
      errors := errors[name := ""];
    }

    /**
     * `handleSubmit`: both fields are checked, so a blank name and a blank
     * department are reported together; the form is submitted only when
     * neither is blank. A missing field makes `.trim()` throw before anything
     * changes.
     */
    method HandleSubmit() returns (outcome: Outcome)
      modifies this`errors
      ensures outcome.Threw? <==> "name" !in form || "department" !in form
      ensures outcome.Submitted? <==>
        && "name" in form && !AllWhiteSpace(form["name"])
        && "department" in form && !AllWhiteSpace(form["department"])
      ensures outcome.Submitted? ==> outcome.data == form
      ensures outcome.Rejected? ==>
        && ("name" in errors <==> AllWhiteSpace(form["name"]))
        && ("department" in errors <==> AllWhiteSpace(form["department"]))
        && ("name" in errors ==> errors["name"] == NameMessage)
        && ("department" in errors ==> errors["department"] == DepartmentMessage)
        && errors.Keys <= {"name", "department"}
      ensures !outcome.Rejected? ==> errors == old(errors)
    {
      var tempErrors: Fields := map[];
      if "name" !in form {
        return Threw;
      }
      TrimEmptyIff(form["name"]);
      if Trim(form["name"]) == [] {
        tempErrors := tempErrors["name" := NameMessage];
      }
      if "department" !in form {
        return Threw;
      }
      TrimEmptyIff(form["department"]);
      if Trim(form["department"]) == [] {
        tempErrors := tempErrors["department" := DepartmentMessage];
      }
      if |tempErrors.Keys| > 0 {
        errors := tempErrors;
        return Rejected;
      }
      outcome := Submitted(form);
    }
  }
}
