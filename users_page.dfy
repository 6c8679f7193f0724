/**
 * The persons page: the table of persons with their embedding status, the
 * add/edit dialog and its validation, the choice between updating and
 * registering a person, deletion, and the single embedding dialog.
 *
 * Every request is abstracted to the request it issues and a success flag;
 * `window.confirm` answers are parameters.
 */
module Users {
  import opened Js
  import CommonForm

  /** A value the backend may hold in an embedding field. */
  datatype Embedding = Null | ArrayValue(length: nat) | Scalar(truthy: bool)

  /** A person as `/users/users` returns it (the fields the page reads). */
  datatype Person = Person(
    id: int, name: Option<string>, department: Option<string>,
    face_embedding: Embedding, body_embedding: Embedding)

  /** JavaScript truthiness of an embedding value; every array is truthy. */
  predicate Truthy(v: Embedding) {
    match v
    case Null => false
    case ArrayValue(_) => true
    case Scalar(t) => t
  }

  /** `v && Array.isArray(v) && v.length > 0`. */
  predicate ArrayWithElements(v: Embedding) {
    Truthy(v) && v.ArrayValue? && v.length > 0
  }

  /** The condition of the embeddings badge. */
  predicate EmbeddingsAdded(u: Person) {
    ArrayWithElements(u.face_embedding) || ArrayWithElements(u.body_embedding)
  }

  /** The badge reads "Added" exactly when the face or the body embedding is a non-empty array. */
  function BadgeText(u: Person): (t: string)
    ensures t == "Added" <==>
      (u.face_embedding.ArrayValue? && u.face_embedding.length > 0)
      || (u.body_embedding.ArrayValue? && u.body_embedding.length > 0)
    ensures t == "Added" || t == "Not added"
  {
    if EmbeddingsAdded(u) then "Added" else "Not added"
  }

  /** A cell of the persons table. */
  datatype Cell =
    | Value(text: Option<string>)
    | Badge(caption: string)
    /** The embeddings, edit and delete buttons, each acting on this person. */
    | Actions(person: Person)

  /** The cells of one table row. */
  function Row(u: Person): seq<Cell> {
    [Value(u.name), Value(u.department), Badge(BadgeText(u)), Actions(u)]
  }

  /**
   * `tableData`: one row of four cells per person, in the order of `users`:
   * the name, the department, the embeddings badge and the buttons for that
   * person.
   */
  function TableData(users: seq<Person>): (rows: seq<seq<Cell>>)
    ensures |rows| == |users|
    ensures forall i :: 0 <= i < |rows| ==> |rows[i]| == 4
    ensures forall i :: 0 <= i < |rows| ==>
      rows[i][0] == Value(users[i].name) && rows[i][1] == Value(users[i].department)
    ensures forall i :: 0 <= i < |rows| ==>
      rows[i][2] == Badge(if EmbeddingsAdded(users[i]) then "Added" else "Not added")
    ensures forall i :: 0 <= i < |rows| ==> rows[i][3] == Actions(users[i])
  {
    if users == [] then [] else [Row(users[0])] + TableData(users[1..])
  }

  /** `!form.f?.trim()`: the field is absent or white space only. */
  ghost predicate Blank(form: Fields, f: string) {
    f !in form || AllWhiteSpace(form[f])
  }

  /** `!form.f?.trim()` tested through `trim`: the trimmed field is empty exactly when it is blank. */
  lemma TrimmedBlank(form: Fields, f: string)
    ensures (f !in form || Trim(form[f]) == []) <==> Blank(form, f)
  {
    if f in form {
      TrimEmptyIff(form[f]);
    }
  }

  /**
   * The rule of the `validate` closure: an error for each of name and
   * department that is blank, with its message, and no other key; empty
   * exactly when both are filled in.
   */
  function Required(form: Fields): (e: Fields)
    ensures "name" in e <==> Blank(form, "name")
    ensures "department" in e <==> Blank(form, "department")
    ensures "name" in e ==> e["name"] == "Name is required"
    ensures "department" in e ==> e["department"] == "Department is required"
    ensures e.Keys <= {"name", "department"}
    ensures |e.Keys| == 0 <==> !Blank(form, "name") && !Blank(form, "department")
  {
    TrimmedBlank(form, "name");
    TrimmedBlank(form, "department");
    var withName: Fields :=
      if "name" !in form || Trim(form["name"]) == [] then map["name" := "Name is required"] else map[];
    var e := if "department" !in form || Trim(form["department"]) == []
      then withName["department" := "Department is required"] else withName;
    assert "name" in e ==> |e.Keys| > 0;
    assert "department" in e ==> |e.Keys| > 0;
    e
  }

  /** The `validate` closure: fills the error object field by field, as `Required` describes. */
  method Validate(form: Fields) returns (e: Fields)
    ensures e == Required(form)
  {
    e := map[];
    if "name" !in form || Trim(form["name"]) == [] {
      e := e["name" := "Name is required"];
    }
    if "department" !in form || Trim(form["department"]) == [] {
      e := e["department" := "Department is required"];
    }
  }

  /** The request `handleSubmit` issues. */
  datatype Request = UpdatePerson(id: int, data: Fields) | RegisterPerson(data: Fields)

  /** The string fields of a person, as the edit dialog is initialised with them. */
  function PersonFields(u: Person): (f: Fields)
    ensures "name" in f <==> u.name.Some?
    ensures "department" in f <==> u.department.Some?
    ensures u.name.Some? ==> f["name"] == u.name.value
    ensures u.department.Some? ==> f["department"] == u.department.value
  {
    var withName: Fields := if u.name.Some? then map["name" := u.name.value] else map[];
    if u.department.Some? then withName["department" := u.department.value] else withName
  }

  /** `selectedUser || { name: "", department: "" }`. */
  function InitialFormData(selected: Option<Person>): (f: Fields)
    ensures selected.None? ==> f == map["name" := "", "department" := ""]
    ensures selected.Some? ==> f == PersonFields(selected.value)
  {
    if selected.Some? then PersonFields(selected.value) else map["name" := "", "department" := ""]
  }

  /** The dialog title: an update when a person is selected, a registration otherwise. */
  function FormTitle(selected: Option<Person>): (t: string)
    ensures t == "Update  Person" <==> selected.Some?
    ensures t == "Person Registration" <==> selected.None?
  {
    if selected.Some? then "Update  Person" else "Person Registration"
  }

  /** The add/edit dialog: a generic form over the initial data, gated by the page's rule. */
  method OpenPersonForm(selected: Option<Person>) returns (f: CommonForm.Component)
    ensures fresh(f)
    ensures f.form == InitialFormData(selected) && f.errors == map[]
    ensures f.validate == Required
  {
    f := new CommonForm.Component(InitialFormData(selected), Required);
  }

  /** Submitting the page's form: `onSubmit` receives it exactly when name and department are both filled in. */
  method SubmitPersonForm(f: CommonForm.Component) returns (submitted: Option<Fields>)
    requires f.validate == Required
    modifies f`errors
    ensures submitted.Some? <==> !Blank(f.form, "name") && !Blank(f.form, "department")
    ensures submitted.Some? ==> submitted.value == f.form
    ensures submitted.None? ==> f.errors == Required(f.form)
  {
    submitted := f.HandleSubmit();
  }

  class Page {
    var users: seq<Person>
    /** The person being edited; None while adding. */
    var selectedUser: Option<Person>
    /** The add/edit dialog is shown. */
    var modalOpen: bool
    /** The person of the embedding dialog. */
    var modalUser: Option<Person>
    var isModalOpen: bool

    /** The embedding dialog is open exactly when it has a person. */
    ghost predicate Valid()
      reads this
    {
      isModalOpen <==> modalUser.Some?
    }

    /** The embedding dialog is rendered: `isModalOpen && modalUser`. */
    predicate EmbeddingDialogShown()
      reads this
      ensures EmbeddingDialogShown() ==> modalUser.Some?
      ensures Valid() ==> (EmbeddingDialogShown() <==> isModalOpen)
    {
      isModalOpen && modalUser.Some?
    }

    /** The initial values of the state hooks. */
    constructor ()
      ensures Valid()
      ensures users == [] && selectedUser.None? && !modalOpen && modalUser.None? && !isModalOpen
    {
      users := [];
      selectedUser := None;
      modalOpen := false;
      modalUser := None;
      isModalOpen := false;
    }

    /** `setUsers(res.data)` after a successful `loadUsers`. */
    method UsersLoaded(fetched: seq<Person>)
      modifies this`users
      ensures users == fetched
    {
      users := fetched;
    }

    /** `handleAdd`: nobody selected, dialog open. */
    method HandleAdd()
      modifies this`selectedUser, this`modalOpen
      ensures selectedUser.None? && modalOpen
    {
      selectedUser := None;
      modalOpen := true;
    }

    /** `handleEdit(u)`: u selected, dialog open. */
    method HandleEdit(u: Person)
      modifies this`selectedUser, this`modalOpen
      ensures selectedUser == Some(u) && modalOpen
    {
      selectedUser := Some(u);
      modalOpen := true;
    }

    /** The add/edit dialog's close button. */
    method CloseFormModal()
      modifies this`modalOpen
      ensures !modalOpen
    {
      modalOpen := false;
    }

    /** `handleEmbedding(u)`: the embedding dialog opens for u. */
    method HandleEmbedding(u: Person)
      requires Valid()
      modifies this`modalUser, this`isModalOpen
      ensures Valid()
      ensures modalUser == Some(u) && isModalOpen && EmbeddingDialogShown()
    {
      modalUser := Some(u);
      isModalOpen := true;
    }

    /** The embedding dialog's `onClose`: it closes, forgets its person, and the users are reloaded. */
    method CloseEmbedding() returns (reload: bool)
      requires Valid()
      modifies this`modalUser, this`isModalOpen
      ensures Valid()
      ensures !isModalOpen && modalUser.None? && !EmbeddingDialogShown()
      ensures reload
    {
      isModalOpen := false;
      modalUser := None;
      reload := true;
    }

    /**
     * `handleSubmit(data)`: an update of the selected person when one is
     * selected, a registration otherwise; on success the users are reloaded
     * and the dialog closes, on failure nothing changes.
     */
    method HandleSubmit(data: Fields, ok: bool) returns (request: Request, reload: bool)
      modifies this`modalOpen
      ensures request.data == data
      ensures request.UpdatePerson? <==> selectedUser.Some?
      ensures request.UpdatePerson? ==> request.id == selectedUser.value.id
      ensures reload == ok
      ensures modalOpen == if ok then false else old(modalOpen)
    {
      if selectedUser.Some? {
        request := UpdatePerson(selectedUser.value.id, data);
      } else {
        request := RegisterPerson(data);
      }
      reload := ok;
      if ok {
        modalOpen := false;
      }
    }

    /**
     * `handleDelete(id)`: the delete request is sent only when the user
     * confirms, and the users are reloaded only when it succeeds.
     */
    method HandleDelete(id: int, userConfirms: bool, ok: bool) returns (deleted: Option<int>, reload: bool)
      ensures deleted.Some? <==> userConfirms
      ensures deleted.Some? ==> deleted.value == id
      ensures reload <==> userConfirms && ok
    {
      if !userConfirms {
        return None, false;
      }
      deleted := Some(id);
      reload := ok;
    }
  }
}
