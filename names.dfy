/**
 * The `{ firstName, lastName }` pair both dashboard forms edit: the add-member modal of the
 * table and each member row of the new-group form.
 */
module NameForms {
  import opened Text

  /** A guest's name as typed into a form, before any trimming. */
  datatype NameForm = NameForm(firstName: string, lastName: string)

  /** `{ firstName: '', lastName: '' }`. */
  const EmptyNames := NameForm("", "")

  /** Which of the two inputs an edit comes from. */
  datatype NameField = FirstName | LastName

  /** `{ ...form, [field]: value }`: the named input takes the value, the other keeps its text. */
  function SetName(form: NameForm, field: NameField, value: string): (r: NameForm)
    ensures field == FirstName ==> r.firstName == value && r.lastName == form.lastName
    ensures field == LastName ==> r.lastName == value && r.firstName == form.firstName
  {
    match field
    case FirstName => form.(firstName := value)
    case LastName => form.(lastName := value)
  }

  /** Reading the input back after typing into it gives what was typed. */
  function NameOf(form: NameForm, field: NameField): string {
    match field
    case FirstName => form.firstName
    case LastName => form.lastName
  }

  /** The last value typed into an input is the one it holds; the other input is not affected. */
  lemma SetNameThenRead(form: NameForm, field: NameField, other: NameField, value: string)
    ensures NameOf(SetName(form, field, value), field) == value
    ensures other != field ==> NameOf(SetName(form, field, value), other) == NameOf(form, other)
    ensures SetName(SetName(form, field, value), field, value) == SetName(form, field, value)
  {
  }

  /** `firstName.trim() && lastName.trim()`: both names hold a character other than white space. */
  predicate NamesPresent(form: NameForm) {
    Trim(form.firstName) != "" && Trim(form.lastName) != ""
  }

  /** A form that passes the check has non-empty trimmed names, which the schema's `required` accepts. */
  lemma NamesPresentTrimmed(form: NameForm)
    ensures NamesPresent(form) <==> !IsBlank(form.firstName) && !IsBlank(form.lastName)
    ensures NamesPresent(form) ==> |Trim(form.firstName)| > 0 && |Trim(form.lastName)| > 0
    ensures !NamesPresent(EmptyNames)
  {
    TrimMeaning(form.firstName);
    TrimMeaning(form.lastName);
    TrimMeaning("");
  }
}
