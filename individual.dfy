/**
 * The guest record: one Individual document, its enumerations, the defaults the schema
 * fills in and what the schema's validators accept before a save.
 */
module IndividualModel {
  import opened Wrappers

  /** The four RSVP states a guest can be in. */
  datatype RsvpStatus = Accepted | Declined | Pending | NoResponse

  /** The schema's `enum` for `rsvpStatus`, in declaration order. */
  const RsvpStatusValues: seq<string> := ["Accepted", "Declined", "Pending", "No Response"]

  /** The status a new record gets when none is given. */
  const DefaultStatus: RsvpStatus := Pending

  /** The schema's `enum` for entries of `dietaryRestrictions`: the fourteen accepted values. */
  const DietaryOptions: seq<string> := [
    "Dairy-free", "Diabetic", "Egg-free", "Gluten-free", "Halal", "Keto", "Kosher",
    "Lactose intolerant", "No spicy food", "Nut-free", "Shellfish-free", "Soy-free",
    "Vegan", "Vegetarian"
  ]

  /** The string a status is stored and shown as. */
  function StatusName(s: RsvpStatus): (name: string)
    ensures name in RsvpStatusValues
  {
    match s
    case Accepted => "Accepted"
    case Declined => "Declined"
    case Pending => "Pending"
    case NoResponse => "No Response"
  }

  /** The schema's enum check on a status string: accepted exactly when it is one of the four names. */
  function ParseStatus(name: string): (r: Option<RsvpStatus>)
    ensures r.Some? <==> name in RsvpStatusValues
    ensures r.Some? ==> StatusName(r.value) == name
  {
    if name == "Accepted" then Some(Accepted)
    else if name == "Declined" then Some(Declined)
    else if name == "Pending" then Some(Pending)
    else if name == "No Response" then Some(NoResponse)
    else None
  }

  /** Every status survives being written as its name and read back. */
  lemma StatusNameRoundTrip(s: RsvpStatus)
    ensures ParseStatus(StatusName(s)) == Some(s)
  {
  }

  /** One stored guest. `email` and `comments` are optional; timestamps are milliseconds. */
  datatype Individual = Individual(
    id: nat,
    invitationCode: string,
    firstName: string,
    lastName: string,
    groupName: string,
    email: Option<string>,
    rsvpStatus: RsvpStatus,
    dietaryRestrictions: seq<string>,
    comments: Option<string>,
    createdAt: int,
    updatedAt: int
  )

  /**
   * The plain object given to `new Individual(...)`: every path a caller may set, an absent
   * path as None. The status is already an enum member here; see ParseStatus for the cast.
   */
  datatype Fields = Fields(
    invitationCode: Option<string>,
    firstName: Option<string>,
    lastName: Option<string>,
    groupName: Option<string>,
    email: Option<string>,
    rsvpStatus: Option<RsvpStatus>,
    dietaryRestrictions: Option<seq<string>>,
    comments: Option<string>
  )

  /** Mongoose's `required` check on a String path: present and not the empty string. */
  predicate RequiredPresent(s: Option<string>) {
    s.Some? && s.value != ""
  }

  /** What the schema's validators accept: the four required paths set, every dietary entry from the vocabulary. */
  predicate Valid(f: Fields) {
    && RequiredPresent(f.invitationCode)
    && RequiredPresent(f.firstName)
    && RequiredPresent(f.lastName)
    && RequiredPresent(f.groupName)
    && (forall d :: d in f.dietaryRestrictions.GetOr([]) ==> d in DietaryOptions)
  }

  /** The shape every stored document keeps: required strings non-empty, dietary entries from the vocabulary. */
  predicate Conforms(ind: Individual) {
    && ind.invitationCode != ""
    && ind.firstName != ""
    && ind.lastName != ""
    && ind.groupName != ""
    && (forall d :: d in ind.dietaryRestrictions ==> d in DietaryOptions)
  }

  /**
   * `new Individual(f)` at time `now` with identity `id`: absent paths take the schema defaults
   * (status Pending, no dietary restrictions, both timestamps `now`). A document that passes
   * validation conforms to the schema and keeps every value it was given.
   */
  function Construct(f: Fields, id: nat, now: int): (r: Individual)
    ensures r.id == id && r.createdAt == now && r.updatedAt == now
    ensures f.rsvpStatus.None? ==> r.rsvpStatus == DefaultStatus
    ensures f.rsvpStatus.Some? ==> r.rsvpStatus == f.rsvpStatus.value
    ensures f.dietaryRestrictions.None? ==> r.dietaryRestrictions == []
    ensures f.dietaryRestrictions.Some? ==> r.dietaryRestrictions == f.dietaryRestrictions.value
    ensures Valid(f) ==> Conforms(r)
    ensures Valid(f) ==> (&& Some(r.invitationCode) == f.invitationCode && Some(r.firstName) == f.firstName
                          && Some(r.lastName) == f.lastName && Some(r.groupName) == f.groupName)
    ensures r.email == f.email && r.comments == f.comments
  {
    Individual(
      id,
      f.invitationCode.GetOr(""),
      f.firstName.GetOr(""),
      f.lastName.GetOr(""),
      f.groupName.GetOr(""),
      f.email,
      f.rsvpStatus.GetOr(DefaultStatus),
      f.dietaryRestrictions.GetOr([]),
      f.comments,
      now,
      now)
  }

  /** The `pre('save')` hook: stamps `updatedAt` with the save time and touches nothing else. */
  function Touch(doc: Individual, now: int): (r: Individual)
    ensures r.updatedAt == now
    ensures r.(updatedAt := doc.updatedAt) == doc
    ensures Conforms(doc) ==> Conforms(r)
  {
    doc.(updatedAt := now)
  }
}
