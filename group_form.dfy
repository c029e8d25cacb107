/**
 * The "Add New Group" form of the dashboard page: a group name, a list of member name rows
 * that grows, shrinks and is edited row by row, the check run before submitting, the request
 * body sent to `POST /api/rsvp`, and the reset after the server reports success.
 */
module GroupForm {
  import opened Wrappers
  import opened Text
  import opened IndividualModel
  import opened NameForms
  import opened GroupCreation

  /** `members.filter((_, i) => i !== idx)`: every row except the one at position `idx`. */
  function RemoveAt(members: seq<NameForm>, idx: int): (r: seq<NameForm>)
    ensures 0 <= idx < |members| ==> r == members[..idx] + members[idx + 1..]
    ensures !(0 <= idx < |members|) ==> r == members
  {
    if members == [] then []
    else
      var n := |members| - 1;
      var init := members[..n];
      assert members == init + [members[n]];
      RemoveAt(init, idx) + (if n != idx then [members[n]] else [])
  }

  /** `members.map((m, i) => (i === idx ? { ...m, [field]: value } : m))`. */
  function ChangeAt(members: seq<NameForm>, idx: int, field: NameField, value: string): (r: seq<NameForm>)
    ensures 0 <= idx < |members| ==> r == members[idx := SetName(members[idx], field, value)]
    ensures !(0 <= idx < |members|) ==> r == members
  {
    seq(|members|, i requires 0 <= i < |members| => if i == idx then SetName(members[i], field, value) else members[i])
  }

  /** A row can only be removed while at least two are shown, so the list never becomes empty. */
  lemma RemoveKeepsARow(members: seq<NameForm>, idx: int)
    requires |members| > 1
    ensures |RemoveAt(members, idx)| >= 1
    ensures 0 <= idx < |members| ==> |RemoveAt(members, idx)| == |members| - 1
  {
  }

  /** Adding a row and removing it again gives back the rows that were there. */
  lemma AddThenRemove(members: seq<NameForm>)
    ensures RemoveAt(members + [EmptyNames], |members|) == members
  {
    assert (members + [EmptyNames])[..|members|] == members;
  }

  /** `groupName.trim() && members.every(m => m.firstName.trim() && m.lastName.trim())`. */
  predicate CanSubmit(groupName: string, members: seq<NameForm>)
    ensures CanSubmit(groupName, members) <==>
              !IsBlank(groupName) && forall i :: 0 <= i < |members| ==> NamesPresent(members[i])
  {
    TrimMeaning(groupName);
    Trim(groupName) != "" && forall i :: 0 <= i < |members| ==> NamesPresent(members[i])
  }

  /** `members.map(member => ({ ...member, groupName }))`: each row with the untrimmed group name, nothing else. */
  function Payload(groupName: string, members: seq<NameForm>): (r: seq<MemberInput>)
    ensures |r| == |members|
    ensures forall i :: 0 <= i < |members| ==>
              && r[i].firstName == Some(members[i].firstName) && r[i].lastName == Some(members[i].lastName)
              && r[i].groupName == Some(groupName)
    ensures forall i :: 0 <= i < |members| ==>
              r[i].email.None? && r[i].dietaryRestrictions.None? && r[i].comments.None?
  {
    seq(|members|, i requires 0 <= i < |members| =>
      MemberInput(Some(members[i].firstName), Some(members[i].lastName), Some(groupName), None, None, None))
  }

  /**
   * A form that passes the check sends members the server accepts: under any non-empty code
   * every entry normalises and validates, so with no database failure the whole request is
   * saved and the reply is 201.
   */
  lemma SubmittedFormIsAccepted(code: string, groupName: string, members: seq<NameForm>)
    requires code != ""
    requires CanSubmit(groupName, members)
    ensures forall i :: 0 <= i < |members| ==> Admissible(code, Payload(groupName, members)[i])
    ensures SavesUpTo(code, Payload(groupName, members), None, |members|)
  {
    var payload := Payload(groupName, members);
    forall i | 0 <= i < |members|
      ensures Admissible(code, payload[i])
    {
      NamesPresentTrimmed(members[i]);
      AdmissibleExactly(code, payload[i]);
    }
  }

  /** A form whose group name or some member name is blank is refused before anything is sent. */
  lemma BlankNameBlocksSubmit(groupName: string, members: seq<NameForm>, i: nat)
    requires i < |members|
    requires IsBlank(groupName) || IsBlank(members[i].firstName) || IsBlank(members[i].lastName)
    ensures !CanSubmit(groupName, members)
  {
    TrimMeaning(groupName);
    NamesPresentTrimmed(members[i]);
  }

  /** What the submit request produced: a JSON body whose `message` may be missing, or an exception. */
  datatype SubmitReply = Replied(message: Option<string>) | Threw

  const NamesMissingAlert := "Please make sure all members have both first and last names."
  const FailedAlert := "Failed to add invitation"
  const ErrorAlert := "There was an error submitting the invitation"

  /** The dashboard page's state for the "Add New Group" modal and the invitation counter. */
  class GroupFormPage {
    var invited: int
    var showModal: bool
    var groupName: string
    var members: seq<NameForm>

    /** The form always shows at least one member row. */
    ghost predicate Valid()
      reads this
    {
      |members| >= 1
    }

    /** The page's initial state: 50 invited, the modal closed, an empty name and one empty row. */
    constructor()
      ensures Valid()
      ensures invited == 50 && !showModal && groupName == "" && members == [EmptyNames]
    {
      invited := 50;
      showModal := false;
      groupName := "";
      members := [EmptyNames];
    }

    /** "Add New Group" opens the modal. */
    method OpenModal()
      requires Valid()
      modifies this
      ensures Valid()
      ensures showModal
      ensures invited == old(invited) && groupName == old(groupName) && members == old(members)
    {
      showModal := true;
    }

    /** Closing the modal keeps whatever was typed. */
    method CloseModal()
      requires Valid()
      modifies this
      ensures Valid()
      ensures !showModal
      ensures invited == old(invited) && groupName == old(groupName) && members == old(members)
    {
      showModal := false;
    }

    /** Typing into the group name input. */
    method SetGroupName(value: string)
      requires Valid()
      modifies this
      ensures Valid()
      ensures groupName == value
      ensures invited == old(invited) && showModal == old(showModal) && members == old(members)
    {
      groupName := value;
    }

    /** `handleAddMember`: one more empty row at the end. */
    method AddMember()
      requires Valid()
      modifies this
      ensures Valid()
      ensures members == old(members) + [EmptyNames]
      ensures invited == old(invited) && showModal == old(showModal) && groupName == old(groupName)
    {
      members := members + [EmptyNames];
    }

    /** `handleRemoveMember`: the row's × button, shown only while there are at least two rows. */
    method RemoveMember(idx: int)
      requires Valid() && |members| > 1
      modifies this
      ensures Valid()
      ensures members == RemoveAt(old(members), idx)
      ensures invited == old(invited) && showModal == old(showModal) && groupName == old(groupName)
    {
      RemoveKeepsARow(members, idx);
      members := RemoveAt(members, idx);
    }

    /** `handleMemberChange`: typing into one name input of one row. */
    method MemberChange(idx: int, field: NameField, value: string)
      requires Valid()
      modifies this
      ensures Valid()
      ensures members == ChangeAt(old(members), idx, field, value)
      ensures invited == old(invited) && showModal == old(showModal) && groupName == old(groupName)
    {
      members := ChangeAt(members, idx, field, value);
    }

    /**
     * `handleAddInvitation`. A form that fails the check raises the names alert and sends
     * nothing. Otherwise the payload is sent; on the server's success message the counter goes
     * up, the form is reset, the modal closes and the table is asked to refresh. Any other
     * message raises 'Failed to add invitation', an exception the generic error alert; in both
     * cases the form keeps its contents.
     */
    method AddInvitation(reply: SubmitReply) returns (sent: Option<seq<MemberInput>>, alert: Option<string>, refresh: bool)
      requires Valid()
      modifies this
      ensures Valid()
      ensures sent.Some? <==> CanSubmit(old(groupName), old(members))
      ensures sent.Some? ==> sent.value == Payload(old(groupName), old(members))
      ensures sent.None? ==> alert == Some(NamesMissingAlert)
      ensures refresh <==> sent.Some? && reply == Replied(Some(Created.message))
      ensures refresh ==> && alert.None? && invited == old(invited) + 1 && !showModal
                          && groupName == "" && members == [EmptyNames]
      ensures !refresh ==> && invited == old(invited) && showModal == old(showModal)
                           && groupName == old(groupName) && members == old(members)
      ensures sent.Some? && reply.Threw? ==> alert == Some(ErrorAlert)
      ensures sent.Some? && reply.Replied? && !refresh ==> alert == Some(FailedAlert)
    {
      refresh := false;
      if !CanSubmit(groupName, members) {
        return None, Some(NamesMissingAlert), false;
      }
      sent := Some(Payload(groupName, members));
      match reply {
        case Threw =>
          alert := Some(ErrorAlert);
        case Replied(message) =>
          if message == Some(Created.message) {
            invited := invited + 1;
            groupName := "";
            members := [EmptyNames];
            showModal := false;
            alert := None;
            refresh := true;
          } else {
            alert := Some(FailedAlert);
          }
      }
    }
  }

  /** A successful submission leaves a form that cannot be submitted again until names are typed. */
  lemma ResetFormCannotSubmit()
    ensures !CanSubmit("", [EmptyNames])
  {
    NamesPresentTrimmed(EmptyNames);
  }
}
