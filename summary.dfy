/** The per-group summary row and the whole-collection status widgets of the dashboard. */
module Summaries {
  import opened Sequences
  import opened IndividualModel

  /** The test "has this RSVP status". */
  function HasStatus(s: RsvpStatus): Individual -> bool {
    (x: Individual) => x.rsvpStatus == s
  }

  /** `members.filter(m => m.rsvpStatus === s).length`. */
  function CountStatus(members: seq<Individual>, s: RsvpStatus): (r: nat)
    ensures r <= |members|
    ensures r == 0 <==> forall i :: 0 <= i < |members| ==> members[i].rsvpStatus != s
  {
    var kept := Filter(members, HasStatus(s));
    FilterMembership(members, HasStatus(s));
    assert kept != [] ==> kept[0] in kept;
    assert forall i :: 0 <= i < |members| ==> members[i] in members;
    |kept|
  }

  /** Every member has exactly one of the four statuses, so the four counts add up to the list's length. */
  lemma {:induction false} StatusCountsPartition(members: seq<Individual>)
    ensures CountStatus(members, Accepted) + CountStatus(members, Declined)
          + CountStatus(members, Pending) + CountStatus(members, NoResponse) == |members|
  {
    if members != [] {
      var init := members[..|members| - 1];
      assert members == init + [members[|members| - 1]];
      StatusCountsPartition(init);
    }
  }

  /** What a group's header row shows. */
  datatype Summary = Summary(totalMembers: nat, acceptedCount: nat, declinedCount: nat, pendingCount: nat, groupName: string)

  /**
   * `getGroupSummary`: the group's size, its Accepted, Declined and Pending counts (which never add
   * up to more than the size; the rest are No Response), and the first member's group name, or
   * 'Unknown Group' when the list is empty or that name is the empty string.
   */
  function GroupSummary(members: seq<Individual>): (r: Summary)
    ensures r.totalMembers == |members|
    ensures r.acceptedCount == CountStatus(members, Accepted)
    ensures r.declinedCount == CountStatus(members, Declined)
    ensures r.pendingCount == CountStatus(members, Pending)
    ensures r.acceptedCount + r.declinedCount + r.pendingCount == r.totalMembers - CountStatus(members, NoResponse)
    ensures r.acceptedCount + r.declinedCount + r.pendingCount <= r.totalMembers
    ensures |members| > 0 && members[0].groupName != "" ==> r.groupName == members[0].groupName
    ensures |members| == 0 || members[0].groupName == "" ==> r.groupName == "Unknown Group"
  {
    StatusCountsPartition(members);
    Summary(
      |members|,
      CountStatus(members, Accepted),
      CountStatus(members, Declined),
      CountStatus(members, Pending),
      if |members| > 0 && members[0].groupName != "" then members[0].groupName else "Unknown Group")
  }

  /** The statuses of the summary widgets, in display order. */
  const WidgetStatuses: seq<RsvpStatus> := [Accepted, Declined, Pending, NoResponse]

  /** The whole-collection widgets: one count per status, in display order, adding up to the number of individuals. */
  function StatusTotals(individuals: seq<Individual>): (r: seq<nat>)
    ensures |r| == |WidgetStatuses|
    ensures forall i :: 0 <= i < |r| ==> r[i] == CountStatus(individuals, WidgetStatuses[i])
    ensures r[0] + r[1] + r[2] + r[3] == |individuals|
  {
    StatusCountsPartition(individuals);
    seq(|WidgetStatuses|, i requires 0 <= i < |WidgetStatuses| => CountStatus(individuals, WidgetStatuses[i]))
  }

  /** The widget labels are the schema's status names, in the schema's order. */
  lemma WidgetLabelsAreSchemaNames()
    ensures forall i :: 0 <= i < |WidgetStatuses| ==> StatusName(WidgetStatuses[i]) == RsvpStatusValues[i]
  {
  }
}
