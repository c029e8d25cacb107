/**
 * The dashboard table's component state and the handlers that replace it: the fetch, the
 * expand/collapse set, the inline edit of one guest, the delete, and the add-member modal.
 * Network replies, `confirm` and the clock arrive as parameters; alerts are returned.
 */
module Dashboard {
  import opened Wrappers
  import opened Text
  import opened Sequences
  import opened IndividualModel
  import opened NameForms
  import opened Grouping

  // ---------------------------------------------------------------------------------------
  // Expand / collapse
  // ---------------------------------------------------------------------------------------

  /** The expanded set after clicking a group's code: the code's membership flips, nothing else changes. */
  function Toggled(expanded: set<string>, code: string): (r: set<string>)
    ensures code in r <==> code !in expanded
    ensures forall c :: c != code ==> (c in r <==> c in expanded)
  {
    if code in expanded then expanded - {code} else expanded + {code}
  }

  /** Clicking the same code twice restores the expanded set. */
  lemma ToggleTwice(expanded: set<string>, code: string)
    ensures Toggled(Toggled(expanded, code), code) == expanded
  {
    var once := Toggled(expanded, code);
    assert forall c :: c in Toggled(once, code) <==> c in expanded;
  }

  // ---------------------------------------------------------------------------------------
  // Editing one guest
  // ---------------------------------------------------------------------------------------

  /** The `editForm` object: a field is present once the edit has started; `{}` has none. */
  datatype EditForm = EditForm(
    firstName: Option<string>,
    lastName: Option<string>,
    rsvpStatus: Option<RsvpStatus>,
    dietaryRestrictions: Option<seq<string>>,
    comments: Option<string>
  )

  /** `{}`. */
  const EmptyForm := EditForm(None, None, None, None, None)

  /** The inputs of the edit row, each writing one field of the form. */
  datatype FormChange =
    | SetFirstName(first: string)
    | SetLastName(last: string)
    | SetStatus(status: RsvpStatus)
    | SetDietary(restrictions: seq<string>)
    | SetComments(text: string)

  /** The form as `startEdit` fills it from a guest: the stored values, absent comments as ''. */
  function FormOf(ind: Individual): (f: EditForm)
    ensures f != EmptyForm
  {
    EditForm(Some(ind.firstName), Some(ind.lastName), Some(ind.rsvpStatus), Some(ind.dietaryRestrictions),
             Some(ind.comments.GetOr("")))
  }

  /** `{ ...editForm, field: value }`. */
  function ChangeForm(f: EditForm, change: FormChange): (r: EditForm)
    ensures r != EmptyForm
  {
    match change
    case SetFirstName(v) => f.(firstName := Some(v))
    case SetLastName(v) => f.(lastName := Some(v))
    case SetStatus(v) => f.(rsvpStatus := Some(v))
    case SetDietary(v) => f.(dietaryRestrictions := Some(v))
    case SetComments(v) => f.(comments := Some(v))
  }

  /**
   * `{ ...ind, ...editForm, updatedAt: now }`: the form's fields overwrite the guest's, the save
   * time becomes `updatedAt`, and identity, code, group, email and creation time stay.
   */
  function ApplyEdit(ind: Individual, f: EditForm, now: int): (r: Individual)
    ensures r.id == ind.id && r.invitationCode == ind.invitationCode && r.groupName == ind.groupName
    ensures r.email == ind.email && r.createdAt == ind.createdAt && r.updatedAt == now
    ensures f.firstName.Some? ==> r.firstName == f.firstName.value
    ensures f.firstName.None? ==> r.firstName == ind.firstName
    ensures f.lastName.Some? ==> r.lastName == f.lastName.value
    ensures f.lastName.None? ==> r.lastName == ind.lastName
    ensures f.rsvpStatus.Some? ==> r.rsvpStatus == f.rsvpStatus.value
    ensures f.rsvpStatus.None? ==> r.rsvpStatus == ind.rsvpStatus
    ensures f.dietaryRestrictions.Some? ==> r.dietaryRestrictions == f.dietaryRestrictions.value
    ensures f.dietaryRestrictions.None? ==> r.dietaryRestrictions == ind.dietaryRestrictions
    ensures f.comments.Some? ==> r.comments == f.comments
    ensures f.comments.None? ==> r.comments == ind.comments
    ensures f == EmptyForm ==> r == ind.(updatedAt := now)
  {
    ind.(firstName := f.firstName.GetOr(ind.firstName),
         lastName := f.lastName.GetOr(ind.lastName),
         rsvpStatus := f.rsvpStatus.GetOr(ind.rsvpStatus),
         dietaryRestrictions := f.dietaryRestrictions.GetOr(ind.dietaryRestrictions),
         comments := if f.comments.Some? then f.comments else ind.comments,
         updatedAt := now)
  }

  /** Saving a form nobody changed only stamps the time and turns absent comments into ''. */
  lemma UnchangedEditIsTouch(ind: Individual, now: int)
    ensures ApplyEdit(ind, FormOf(ind), now) == ind.(comments := Some(ind.comments.GetOr("")), updatedAt := now)
  {
  }

  /** The value typed into an input of the edit row is the value the saved row carries. */
  lemma InputReachesSavedRow(ind: Individual, f: EditForm, change: FormChange, now: int)
    ensures var r := ApplyEdit(ind, ChangeForm(f, change), now);
      match change
      case SetFirstName(v) => r.firstName == v
      case SetLastName(v) => r.lastName == v
      case SetStatus(v) => r.rsvpStatus == v
      case SetDietary(v) => r.dietaryRestrictions == v
      case SetComments(v) => r.comments == Some(v)
  {
  }

  /** The guest list after a successful save: every row with the id merged with the form, every other row as it was. */
  function PatchById(xs: seq<Individual>, id: nat, f: EditForm, now: int): (r: seq<Individual>)
    ensures |r| == |xs|
    ensures forall i :: 0 <= i < |xs| && xs[i].id != id ==> r[i] == xs[i]
    ensures forall i :: 0 <= i < |xs| && xs[i].id == id ==> r[i] == ApplyEdit(xs[i], f, now)
  {
    if xs == [] then []
    else
      var last := xs[|xs| - 1];
      PatchById(xs[..|xs| - 1], id, f, now) + [if last.id == id then ApplyEdit(last, f, now) else last]
  }

  /** An id no row carries leaves the list as it was. */
  lemma PatchUnknownIdChangesNothing(xs: seq<Individual>, id: nat, f: EditForm, now: int)
    requires forall x :: x in xs ==> x.id != id
    ensures PatchById(xs, id, f, now) == xs
  {
    assert forall i :: 0 <= i < |xs| ==> xs[i] in xs;
  }

  /** Editing never moves a guest between groups: the codes, their order and each group's size stay. */
  lemma {:induction false} EditKeepsGroups(xs: seq<Individual>, id: nat, f: EditForm, now: int)
    ensures DistinctCodes(PatchById(xs, id, f, now)) == DistinctCodes(xs)
    ensures CodesOf(PatchById(xs, id, f, now)) == CodesOf(xs)
    ensures forall c :: |MembersWith(PatchById(xs, id, f, now), c)| == |MembersWith(xs, c)|
  {
    if xs != [] {
      var init, x := xs[..|xs| - 1], xs[|xs| - 1];
      var r := PatchById(xs, id, f, now);
      var y := r[|r| - 1];
      assert xs == init + [x];
      assert r == PatchById(init, id, f, now) + [y];
      EditKeepsGroups(init, id, f, now);
      assert r[..|r| - 1] == PatchById(init, id, f, now);
      CodesOfSnoc(init, x);
      CodesOfSnoc(PatchById(init, id, f, now), y);
      forall c
        ensures |MembersWith(r, c)| == |MembersWith(xs, c)|
      {
        MembersWithSnoc(init, x, c);
        MembersWithSnoc(PatchById(init, id, f, now), y, c);
      }
    }
  }

  // ---------------------------------------------------------------------------------------
  // Deleting one guest
  // ---------------------------------------------------------------------------------------

  /** The test "has this id". */
  function HasId(id: nat): Individual -> bool {
    (x: Individual) => x.id == id
  }

  /** `individuals.filter(ind => ind._id !== id)`. */
  function RemoveById(xs: seq<Individual>, id: nat): (r: seq<Individual>)
    ensures |r| <= |xs|
    ensures forall x :: x in r ==> x.id != id
  {
    FilterMembership(xs, Not(HasId(id)));
    Filter(xs, Not(HasId(id)))
  }

  /**
   * A delete removes exactly the rows with that id: the rest stay, in their order, and the list
   * shrinks by the number of rows removed.
   */
  lemma RemoveByIdMeaning(xs: seq<Individual>, id: nat)
    ensures forall x :: x in RemoveById(xs, id) <==> x in xs && x.id != id
    ensures IsSubsequence(RemoveById(xs, id), xs)
    ensures |RemoveById(xs, id)| == |xs| - |Filter(xs, HasId(id))|
  {
    FilterMembership(xs, Not(HasId(id)));
    FilterIsSubsequence(xs, Not(HasId(id)));
    FilterSplit(xs, HasId(id));
    assert |multiset(xs)| == |xs|;
  }

  /** Deleting and then grouping gives each group with that row taken out. */
  lemma DeleteThenGroup(xs: seq<Individual>, id: nat, code: string)
    ensures MembersWith(RemoveById(xs, id), code) == RemoveById(MembersWith(xs, code), id)
  {
    FilterCommutes(xs, Not(HasId(id)), HasCode(code));
  }

  // ---------------------------------------------------------------------------------------
  // The component
  // ---------------------------------------------------------------------------------------

  /** The reply to `GET /api/rsvp`: a body that may lack `individuals`, a non-ok status, or a thrown error. */
  datatype FetchReply = Fetched(body: Option<seq<Individual>>) | FetchNotOk | FetchThrew(message: string)

  /** The reply to a PUT, DELETE or POST request: ok, a non-ok status with the body's message, or a thrown error. */
  datatype Reply<T> = Ok(value: T) | NotOk(message: string) | Threw

  /** The edit form's status choices, in the order the select lists them. */
  const EditStatusOptions: seq<string> := ["Pending", "Accepted", "Declined", "No Response"]

  /** The edit form's dietary choices. */
  const EditDietaryOptions: seq<string> := ["Vegetarian", "Vegan", "Gluten-free", "Dairy-free", "Nut-free", "Halal", "Kosher"]

  /** The edit row offers exactly the schema's statuses, and only dietary values the schema accepts (seven of the fourteen). */
  lemma EditOptionsMatchSchema()
    ensures forall o :: o in EditStatusOptions <==> o in RsvpStatusValues
    ensures forall o :: o in EditStatusOptions ==> ParseStatus(o).Some?
    ensures forall o :: o in EditDietaryOptions ==> o in DietaryOptions
    ensures "Diabetic" in DietaryOptions && "Diabetic" !in EditDietaryOptions
  {
  }

  class Dashboard {
    var individuals: seq<Individual>
    var loading: bool
    var error: Option<string>
    var expandedGroups: set<string>
    var searchTerm: string
    var editingIndividual: Option<nat>
    var editForm: EditForm
    var showAddMemberModal: bool
    var selectedGroupCode: Option<string>
    var addMemberForm: NameForm

    /** A row is being edited exactly when the edit form is filled; the modal is open exactly when a group is selected. */
    ghost predicate Valid()
      reads this
    {
      && (editingIndividual.None? <==> editForm == EmptyForm)
      && (showAddMemberModal <==> selectedGroupCode.Some?)
    }

    /** The initial state: nothing fetched yet, loading, no error, nothing expanded, searched, edited or selected. */
    constructor()
      ensures Valid()
      ensures individuals == [] && loading && error.None? && expandedGroups == {} && searchTerm == ""
      ensures editingIndividual.None? && editForm == EmptyForm
      ensures !showAddMemberModal && selectedGroupCode.None? && addMemberForm == EmptyNames
    {
      individuals := [];
      loading := true;
      error := None;
      expandedGroups := {};
      searchTerm := "";
      editingIndividual := None;
      editForm := EmptyForm;
      showAddMemberModal := false;
      selectedGroupCode := None;
      addMemberForm := EmptyNames;
    }

    /**
     * `fetchIndividuals`: the fetched list (or [] when the body has none) replaces the local one;
     * a non-ok status records 'Failed to fetch data', a thrown error its message; loading ends
     * either way. A successful fetch does not clear an earlier error.
     */
    method FetchIndividuals(reply: FetchReply)
      requires Valid()
      modifies this
      ensures Valid()
      ensures !loading
      ensures reply.Fetched? ==> individuals == reply.body.GetOr([]) && error == old(error)
      ensures reply.FetchNotOk? ==> individuals == old(individuals) && error == Some("Failed to fetch data")
      ensures reply.FetchThrew? ==> individuals == old(individuals) && error == Some(reply.message)
      ensures expandedGroups == old(expandedGroups) && searchTerm == old(searchTerm)
      ensures editingIndividual == old(editingIndividual) && editForm == old(editForm)
      ensures showAddMemberModal == old(showAddMemberModal) && selectedGroupCode == old(selectedGroupCode)
      ensures addMemberForm == old(addMemberForm)
    {
      loading := true;
      match reply {
        case Fetched(body) =>
          individuals := body.GetOr([]);
        case FetchNotOk =>
          error := Some("Failed to fetch data");
        case FetchThrew(message) =>
          error := Some(message);
      }
      loading := false;
    }

    /** Typing into the search box. */
    method SetSearchTerm(term: string)
      requires Valid()
      modifies this
      ensures Valid()
      ensures searchTerm == term
      ensures individuals == old(individuals) && expandedGroups == old(expandedGroups)
      ensures loading == old(loading) && error == old(error)
      ensures editingIndividual == old(editingIndividual) && editForm == old(editForm)
      ensures showAddMemberModal == old(showAddMemberModal) && selectedGroupCode == old(selectedGroupCode)
      ensures addMemberForm == old(addMemberForm)
    {
      searchTerm := term;
    }

    /** `toggleGroup`: a copy of the expanded set with the code added or deleted replaces it. */
    method ToggleGroup(invitationCode: string)
      requires Valid()
      modifies this
      ensures Valid()
      ensures expandedGroups == Toggled(old(expandedGroups), invitationCode)
      ensures individuals == old(individuals) && searchTerm == old(searchTerm)
      ensures loading == old(loading) && error == old(error)
      ensures editingIndividual == old(editingIndividual) && editForm == old(editForm)
      ensures showAddMemberModal == old(showAddMemberModal) && selectedGroupCode == old(selectedGroupCode)
      ensures addMemberForm == old(addMemberForm)
    {
      var newExpanded := expandedGroups;
      if invitationCode in newExpanded {
        newExpanded := newExpanded - {invitationCode};
      } else {
        newExpanded := newExpanded + {invitationCode};
      }
      expandedGroups := newExpanded;
    }

    /** `startEdit`: the guest's row becomes the one being edited, its values fill the form. */
    method StartEdit(individual: Individual)
      requires Valid()
      modifies this
      ensures Valid()
      ensures editingIndividual == Some(individual.id) && editForm == FormOf(individual)
      ensures individuals == old(individuals) && expandedGroups == old(expandedGroups) && searchTerm == old(searchTerm)
      ensures loading == old(loading) && error == old(error)
      ensures showAddMemberModal == old(showAddMemberModal) && selectedGroupCode == old(selectedGroupCode)
      ensures addMemberForm == old(addMemberForm)
    {
      editingIndividual := Some(individual.id);
      editForm := FormOf(individual);
    }

    /** An input of the edit row changes one field of the form; the inputs exist only while a row is edited. */
    method ChangeEditForm(change: FormChange)
      requires Valid() && editingIndividual.Some?
      modifies this
      ensures Valid()
      ensures editForm == ChangeForm(old(editForm), change)
      ensures editingIndividual == old(editingIndividual)
      ensures individuals == old(individuals) && expandedGroups == old(expandedGroups) && searchTerm == old(searchTerm)
      ensures loading == old(loading) && error == old(error)
      ensures showAddMemberModal == old(showAddMemberModal) && selectedGroupCode == old(selectedGroupCode)
      ensures addMemberForm == old(addMemberForm)
    {
      editForm := ChangeForm(editForm, change);
    }

    /**
     * `saveEdit`: after an ok reply to the PUT, the rows with that id are merged with the form and
     * stamped with `now`, and editing ends. Otherwise the list and the editing state stay and an
     * alert is returned.
     */
    method SaveEdit(individualId: nat, reply: Reply<()>, now: int) returns (alert: Option<string>)
      requires Valid()
      modifies this
      ensures Valid()
      ensures reply.Ok? ==> && individuals == PatchById(old(individuals), individualId, old(editForm), now)
                            && editingIndividual.None? && editForm == EmptyForm && alert.None?
      ensures reply.NotOk? ==> && individuals == old(individuals) && editingIndividual == old(editingIndividual)
                               && editForm == old(editForm) && alert == Some("Failed to update individual")
      ensures reply.Threw? ==> && individuals == old(individuals) && editingIndividual == old(editingIndividual)
                               && editForm == old(editForm) && alert == Some("Error updating individual")
      ensures expandedGroups == old(expandedGroups) && searchTerm == old(searchTerm)
      ensures loading == old(loading) && error == old(error)
      ensures showAddMemberModal == old(showAddMemberModal) && selectedGroupCode == old(selectedGroupCode)
      ensures addMemberForm == old(addMemberForm)
    {
      match reply
      case Ok(_) =>
        individuals := PatchById(individuals, individualId, editForm, now);
        editingIndividual := None;
        editForm := EmptyForm;
        alert := None;
      case NotOk(_) =>
        alert := Some("Failed to update individual");
      case Threw =>
        alert := Some("Error updating individual");
    }

    /** `cancelEdit`: editing ends and the form is emptied; the list is untouched. */
    method CancelEdit()
      requires Valid()
      modifies this
      ensures Valid()
      ensures editingIndividual.None? && editForm == EmptyForm
      ensures individuals == old(individuals) && expandedGroups == old(expandedGroups) && searchTerm == old(searchTerm)
      ensures loading == old(loading) && error == old(error)
      ensures showAddMemberModal == old(showAddMemberModal) && selectedGroupCode == old(selectedGroupCode)
      ensures addMemberForm == old(addMemberForm)
    {
      editingIndividual := None;
      editForm := EmptyForm;
    }

    /**
     * `deleteIndividual`: nothing happens unless the user confirms; after an ok reply to the
     * DELETE the rows with that id leave the list; otherwise the list stays and an alert is
     * returned (with the server's message for a non-ok reply).
     */
    method DeleteIndividual(individualId: nat, confirmed: bool, reply: Reply<()>) returns (alert: Option<string>)
      requires Valid()
      modifies this
      ensures Valid()
      ensures !confirmed ==> individuals == old(individuals) && alert.None?
      ensures confirmed && reply.Ok? ==> individuals == RemoveById(old(individuals), individualId) && alert.None?
      ensures confirmed && reply.NotOk? ==>
                individuals == old(individuals) && alert == Some("Failed to delete individual: " + reply.message)
      ensures confirmed && reply.Threw? ==> individuals == old(individuals) && alert == Some("Error deleting individual")
      ensures expandedGroups == old(expandedGroups) && searchTerm == old(searchTerm)
      ensures loading == old(loading) && error == old(error)
      ensures editingIndividual == old(editingIndividual) && editForm == old(editForm)
      ensures showAddMemberModal == old(showAddMemberModal) && selectedGroupCode == old(selectedGroupCode)
      ensures addMemberForm == old(addMemberForm)
    {
      if !confirmed {
        return None;
      }
      match reply
      case Ok(_) =>
        individuals := RemoveById(individuals, individualId);
        alert := None;
      case NotOk(message) =>
        alert := Some("Failed to delete individual: " + message);
      case Threw =>
        alert := Some("Error deleting individual");
    }

    /** `openAddMemberModal`: the group is selected, the name form emptied and the modal shown. */
    method OpenAddMemberModal(invitationCode: string)
      requires Valid()
      modifies this
      ensures Valid()
      ensures showAddMemberModal && selectedGroupCode == Some(invitationCode) && addMemberForm == EmptyNames
      ensures individuals == old(individuals) && expandedGroups == old(expandedGroups) && searchTerm == old(searchTerm)
      ensures loading == old(loading) && error == old(error)
      ensures editingIndividual == old(editingIndividual) && editForm == old(editForm)
    {
      selectedGroupCode := Some(invitationCode);
      addMemberForm := EmptyNames;
      showAddMemberModal := true;
    }

    /** `closeAddMemberModal`: the modal is hidden, no group selected, the name form emptied. */
    method CloseAddMemberModal()
      requires Valid()
      modifies this
      ensures Valid()
      ensures !showAddMemberModal && selectedGroupCode.None? && addMemberForm == EmptyNames
      ensures individuals == old(individuals) && expandedGroups == old(expandedGroups) && searchTerm == old(searchTerm)
      ensures loading == old(loading) && error == old(error)
      ensures editingIndividual == old(editingIndividual) && editForm == old(editForm)
    {
      showAddMemberModal := false;
      selectedGroupCode := None;
      addMemberForm := EmptyNames;
    }

    /** Typing into one of the modal's two inputs. */
    method ChangeAddMemberForm(field: NameField, value: string)
      requires Valid()
      modifies this
      ensures Valid()
      ensures addMemberForm == SetName(old(addMemberForm), field, value)
      ensures individuals == old(individuals) && expandedGroups == old(expandedGroups) && searchTerm == old(searchTerm)
      ensures loading == old(loading) && error == old(error)
      ensures editingIndividual == old(editingIndividual) && editForm == old(editForm)
      ensures showAddMemberModal == old(showAddMemberModal) && selectedGroupCode == old(selectedGroupCode)
    {
      addMemberForm := SetName(addMemberForm, field, value);
    }

    /**
     * `addMemberToGroup`: a blank first or last name raises an alert and sends nothing. Otherwise
     * the POST is sent; an ok reply appends the new guest at the end of the list and closes the
     * modal, any other reply leaves everything but an alert.
     */
    method AddMemberToGroup(reply: Reply<Individual>) returns (sent: bool, alert: Option<string>)
      requires Valid()
      modifies this
      ensures Valid()
      ensures sent <==> NamesPresent(old(addMemberForm))
      ensures !sent ==> && alert == Some("Please enter both first and last name.")
                        && individuals == old(individuals) && addMemberForm == old(addMemberForm)
                        && showAddMemberModal == old(showAddMemberModal) && selectedGroupCode == old(selectedGroupCode)
      ensures sent && reply.Ok? ==> && individuals == old(individuals) + [reply.value] && alert.None?
                                    && !showAddMemberModal && selectedGroupCode.None? && addMemberForm == EmptyNames
      ensures sent && reply.NotOk? ==> && individuals == old(individuals) && addMemberForm == old(addMemberForm)
                                       && showAddMemberModal == old(showAddMemberModal)
                                       && selectedGroupCode == old(selectedGroupCode)
                                       && alert == Some("Failed to add member: " + reply.message)
      ensures sent && reply.Threw? ==> && individuals == old(individuals) && addMemberForm == old(addMemberForm)
                                       && showAddMemberModal == old(showAddMemberModal)
                                       && selectedGroupCode == old(selectedGroupCode)
                                       && alert == Some("Error adding member")
      ensures expandedGroups == old(expandedGroups) && searchTerm == old(searchTerm)
      ensures loading == old(loading) && error == old(error)
      ensures editingIndividual == old(editingIndividual) && editForm == old(editForm)
    {
      if Trim(addMemberForm.firstName) == "" || Trim(addMemberForm.lastName) == "" {
        return false, Some("Please enter both first and last name.");
      }
      sent := true;
      match reply
      case Ok(newMember) =>
        individuals := individuals + [newMember];
        CloseAddMemberModal();
        alert := None;
      case NotOk(message) =>
        alert := Some("Failed to add member: " + message);
      case Threw =>
        alert := Some("Error adding member");
    }
  }

  /** A guest added to a group's code lands at the end of that group and nowhere else. */
  lemma AddedMemberJoinsItsGroup(xs: seq<Individual>, added: Individual, code: string)
    ensures added.invitationCode == code ==> MembersWith(xs + [added], code) == MembersWith(xs, code) + [added]
    ensures added.invitationCode != code ==> MembersWith(xs + [added], code) == MembersWith(xs, code)
  {
    MembersWithSnoc(xs, added, code);
  }
}
