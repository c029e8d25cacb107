/**
 * The `/api/rsvp` endpoint: a fresh five-character invitation code drawn until no stored guest
 * holds it, one normalised record saved per submitted member under that code, and the listing
 * of every stored guest, newest first. `Math.random` arrives as a list of draws, the database as
 * a `Store` whose saves may fail for reasons outside the model.
 */
module GroupCreation {
  import opened Wrappers
  import opened Text
  import opened Sequences
  import opened IndividualModel
  import opened Grouping

  // ---------------------------------------------------------------------------------------
  // Invitation codes
  // ---------------------------------------------------------------------------------------

  /** The alphabet codes are drawn from: the capital letters, then the digits. */
  const Characters: string := "ABCDEFGHIJKLMNOPQRSTUVWXYZ0123456789"

  /** The number of characters in a code. */
  const CodeLength: nat := 5

  /** A code of the generator's shape: five characters from the alphabet. */
  predicate IsCode(s: string) {
    |s| == CodeLength && forall i :: 0 <= i < |s| ==> s[i] in Characters
  }

  /** A value `Math.random()` may return. */
  predicate IsRandom(r: real) {
    0.0 <= r < 1.0
  }

  /** The draws one code consumes: one `Math.random()` value per character. */
  predicate IsDrawList(draws: seq<real>) {
    |draws| == CodeLength && forall i :: 0 <= i < |draws| ==> IsRandom(draws[i])
  }

  /** `Math.floor(r * characters.length)`: always a position inside the alphabet. */
  function CharIndex(r: real): (i: nat)
    requires IsRandom(r)
    ensures i < |Characters|
  {
    (r * |Characters| as real).Floor
  }

  /** The code a list of draws produces. */
  function CodeFromDraws(draws: seq<real>): (code: string)
    requires IsDrawList(draws)
    ensures IsCode(code)
  {
    seq(CodeLength, i requires 0 <= i < CodeLength => Characters[CharIndex(draws[i])])
  }

  /** `generateInvitationCode`: five characters appended one by one, each picked by one draw. */
  method GenerateInvitationCode(draws: seq<real>) returns (invitationCode: string)
    requires IsDrawList(draws)
    ensures invitationCode == CodeFromDraws(draws)
    ensures IsCode(invitationCode)
  {
    invitationCode := "";
    for i := 0 to CodeLength
      invariant invitationCode == CodeFromDraws(draws)[..i]
    {
      invitationCode := invitationCode + [Characters[CharIndex(draws[i])]];
    }
  }

  /** The first position at which a character occurs in a string. */
  function PositionIn(s: string, c: char): (k: nat)
    requires c in s
    ensures k < |s| && s[k] == c
  {
    if s[0] == c then 0 else 1 + PositionIn(s[1..], c)
  }

  /** A draw of `k / 36` picks the character at position `k`. */
  lemma DrawPicks(k: nat)
    requires k < |Characters|
    ensures IsRandom(k as real / |Characters| as real)
    ensures CharIndex(k as real / |Characters| as real) == k
  {
    var n := |Characters| as real;
    assert (k as real / n) * n == k as real;
  }

  /** Every five-character code over the alphabet is produced by some draws: the generator reaches all 36^5 codes. */
  lemma EveryCodeCanBeDrawn(code: string)
    requires IsCode(code)
    ensures exists draws :: IsDrawList(draws) && CodeFromDraws(draws) == code
  {
    var n := |Characters| as real;
    var draws := seq(CodeLength, i requires 0 <= i < CodeLength => PositionIn(Characters, code[i]) as real / n);
    forall i | 0 <= i < CodeLength
      ensures IsRandom(draws[i]) && Characters[CharIndex(draws[i])] == code[i]
    {
      DrawPicks(PositionIn(Characters, code[i]));
    }
    assert CodeFromDraws(draws) == code;
  }

  /** The first of the attempted codes that is not in `used`, if any. */
  function FirstFreshCode(attempts: seq<seq<real>>, used: set<string>): (r: Option<string>)
    requires forall i :: 0 <= i < |attempts| ==> IsDrawList(attempts[i])
    ensures r.Some? ==> IsCode(r.value) && r.value !in used
    ensures r.Some? ==> exists i :: && 0 <= i < |attempts| && CodeFromDraws(attempts[i]) == r.value
                                    && forall j :: 0 <= j < i ==> CodeFromDraws(attempts[j]) in used
    ensures r.None? <==> forall i :: 0 <= i < |attempts| ==> CodeFromDraws(attempts[i]) in used
  {
    if attempts == [] then None
    else
      var code := CodeFromDraws(attempts[0]);
      if code !in used then
        Some(code)
      else
        var rest := FirstFreshCode(attempts[1..], used);
        assert forall i :: 1 <= i < |attempts| ==> attempts[i] == attempts[1..][i - 1];
        if rest.Some? then
          var k :| && 0 <= k < |attempts[1..]| && CodeFromDraws(attempts[1..][k]) == rest.value
                   && forall j :: 0 <= j < k ==> CodeFromDraws(attempts[1..][j]) in used;
          assert CodeFromDraws(attempts[k + 1]) == rest.value;
          assert forall j :: 0 <= j < k + 1 ==> CodeFromDraws(attempts[j]) in used;
          rest
        else rest
  }

  /** `Individual.findOne({ invitationCode: code }) !== null`. */
  function CodeInUse(docs: seq<Individual>, code: string): (r: bool)
    ensures r <==> code in CodesOf(docs)
  {
    exists i | 0 <= i < |docs| :: docs[i].invitationCode == code
  }

  // ---------------------------------------------------------------------------------------
  // The store
  // ---------------------------------------------------------------------------------------

  /** The `Individual` collection: the stored documents in insertion order, and the next fresh id. */
  class Store {
    var docs: seq<Individual>
    var nextId: nat

    /** Ids are distinct and below `nextId`; every stored document passed the schema's validation. */
    ghost predicate Valid()
      reads this
    {
      && (forall i :: 0 <= i < |docs| ==> docs[i].id < nextId)
      && (forall i, j :: 0 <= i < j < |docs| ==> docs[i].id != docs[j].id)
      && (forall i :: 0 <= i < |docs| ==> Conforms(docs[i]))
    }

    /** An empty collection. */
    constructor()
      ensures Valid() && docs == [] && nextId == 0
    {
      docs := [];
      nextId := 0;
    }

    /**
     * `new Individual(f).save()` at time `now`: the document is built with the schema's defaults,
     * validated, stamped by the pre-save hook and appended. It is not stored when validation
     * rejects it or when the database fails (`ioFails`).
     */
    method Save(f: Fields, now: int, ioFails: bool) returns (saved: Option<Individual>)
      requires Valid()
      modifies this
      ensures Valid()
      ensures saved.Some? <==> IndividualModel.Valid(f) && !ioFails
      ensures saved.Some? ==> && saved.value == Touch(Construct(f, old(nextId), now), now)
                              && docs == old(docs) + [saved.value] && nextId == old(nextId) + 1
      ensures saved.None? ==> docs == old(docs) && nextId == old(nextId)
    {
      var doc := Construct(f, nextId, now);
      if !IndividualModel.Valid(f) || ioFails {
        return None;
      }
      doc := Touch(doc, now);
      docs := docs + [doc];
      nextId := nextId + 1;
      saved := Some(doc);
    }
  }

  // ---------------------------------------------------------------------------------------
  // Normalising one member
  // ---------------------------------------------------------------------------------------

  /** One entry of the request's `members`: every property may be missing. */
  datatype MemberInput = MemberInput(
    firstName: Option<string>,
    lastName: Option<string>,
    groupName: Option<string>,
    email: Option<string>,
    dietaryRestrictions: Option<seq<string>>,
    comments: Option<string>
  )

  /**
   * The `formData` built for one member: the code, trimmed names, the group name as given, the
   * email trimmed or '' when missing or empty, status 'Pending', the dietary list or [], the
   * comments or ''. None when a name is missing, where `.trim()` throws.
   */
  function Normalize(code: string, m: MemberInput): (r: Option<Fields>)
    ensures r.Some? <==> m.firstName.Some? && m.lastName.Some?
  {
    if m.firstName.None? || m.lastName.None? then None
    else
      Some(Fields(
        Some(code),
        Some(Trim(m.firstName.value)),
        Some(Trim(m.lastName.value)),
        m.groupName,
        Some(if m.email.Some? && m.email.value != "" then Trim(m.email.value) else ""),
        Some(Pending),
        Some(m.dietaryRestrictions.GetOr([])),
        Some(if m.comments.Some? && m.comments.value != "" then m.comments.value else "")))
  }

  /** Whether saving this member succeeds when the database does: its names exist and the record passes validation. */
  predicate Admissible(code: string, m: MemberInput)
    ensures Admissible(code, m) ==> code != "" && m.firstName.Some? && m.lastName.Some? && m.groupName.Some?
  {
    Normalize(code, m).Some? && Valid(Normalize(code, m).value)
  }

  /** The document stored for an accepted member: the given id and code, status Pending, created and updated at `now`. */
  function Stored(code: string, m: MemberInput, id: nat, now: int): (d: Individual)
    requires Normalize(code, m).Some?
    ensures d.id == id && d.invitationCode == code && d.rsvpStatus == Pending
    ensures d.createdAt == now && d.updatedAt == now
  {
    Touch(Construct(Normalize(code, m).value, id, now), now)
  }

  /**
   * What a stored member looks like: the request's code, trimmed names, its group, the trimmed
   * email or '', status Pending, the dietary list or [], the comments or '', both timestamps
   * `now`; and it conforms to the schema.
   */
  lemma StoredRecordShape(code: string, m: MemberInput, id: nat, now: int)
    requires Admissible(code, m)
    ensures var d := Stored(code, m, id, now);
            && d.id == id && d.invitationCode == code
            && d.firstName == Trim(m.firstName.value) && d.lastName == Trim(m.lastName.value)
            && Some(d.groupName) == m.groupName
            && d.email == Some(Trim(m.email.GetOr("")))
            && d.rsvpStatus == Pending
            && d.dietaryRestrictions == m.dietaryRestrictions.GetOr([])
            && d.comments == Some(m.comments.GetOr(""))
            && d.createdAt == now && d.updatedAt == now
            && Conforms(d)
  {
    assert Trim("") == "" by {
      assert IsBlank("");
    }
  }

  /**
   * Which members the schema accepts: exactly those with both names present and non-blank, a
   * non-empty group name, and dietary entries from the vocabulary.
   */
  lemma AdmissibleExactly(code: string, m: MemberInput)
    requires code != ""
    ensures Admissible(code, m) <==>
              && m.firstName.Some? && !IsBlank(m.firstName.value)
              && m.lastName.Some? && !IsBlank(m.lastName.value)
              && m.groupName.Some? && m.groupName.value != ""
              && (forall d :: d in m.dietaryRestrictions.GetOr([]) ==> d in DietaryOptions)
  {
    if m.firstName.Some? && m.lastName.Some? {
      TrimMeaning(m.firstName.value);
      TrimMeaning(m.lastName.value);
    }
  }

  // ---------------------------------------------------------------------------------------
  // POST and GET
  // ---------------------------------------------------------------------------------------

  /** A response: the HTTP status and the body's message. */
  datatype Response = Response(status: nat, message: string)

  /** The reply when every member was saved. */
  const Created := Response(201, "Invitation and members added successfully!")

  /** The reply when anything inside the handler threw. */
  const Failed := Response(500, "Failed to add invitation")

  /**
   * The do-while retry: codes are drawn until one is not in use. Each element of `attempts`
   * feeds one generation; the first fresh code is returned, or None when every attempt drew a
   * code in use (the source would keep drawing).
   */
  method UniqueInvitationCode(store: Store, attempts: seq<seq<real>>) returns (code: Option<string>)
    requires forall i :: 0 <= i < |attempts| ==> IsDrawList(attempts[i])
    ensures code == FirstFreshCode(attempts, CodesOf(store.docs))
    ensures code.Some? ==> IsCode(code.value) && code.value !in CodesOf(store.docs)
  {
    var used := CodesOf(store.docs);
    var i := 0;
    while i < |attempts|
      invariant 0 <= i <= |attempts|
      invariant FirstFreshCode(attempts, used) == FirstFreshCode(attempts[i..], used)
    {
      var candidate := GenerateInvitationCode(attempts[i]);
      assert attempts[i..][1..] == attempts[i + 1..];
      if !CodeInUse(store.docs, candidate) {
        return Some(candidate);
      }
      i := i + 1;
    }
    code := None;
  }

  /** The members before position `n` are all accepted by the schema. */
  predicate AllAdmissible(code: string, ms: seq<MemberInput>, n: nat)
    requires n <= |ms|
  {
    forall i :: 0 <= i < n ==> Admissible(code, ms[i])
  }

  /** The members before position `n` are all accepted and none of their saves fails. */
  predicate SavesUpTo(code: string, ms: seq<MemberInput>, failAt: Option<nat>, n: nat)
    requires n <= |ms|
  {
    AllAdmissible(code, ms, n) && (failAt.Some? ==> n <= failAt.value)
  }

  /** One more member saved keeps every earlier one saved. */
  lemma SavesUpToStep(code: string, ms: seq<MemberInput>, failAt: Option<nat>, n: nat)
    requires n < |ms|
    requires SavesUpTo(code, ms, failAt, n)
    requires Admissible(code, ms[n]) && failAt != Some(n)
    ensures SavesUpTo(code, ms, failAt, n + 1)
  {
  }

  /** The documents stored for the first `n` members, ids counting up from `start`. */
  function StoredPrefix(code: string, ms: seq<MemberInput>, start: nat, now: int, n: nat): (r: seq<Individual>)
    requires n <= |ms|
    requires AllAdmissible(code, ms, n)
    ensures |r| == n
  {
    if n == 0 then []
    else StoredPrefix(code, ms, start, now, n - 1) + [Stored(code, ms[n - 1], start + n - 1, now)]
  }

  /** Saving one more member extends the stored prefix by that member's document. */
  lemma StoredPrefixStep(code: string, ms: seq<MemberInput>, start: nat, now: int, n: nat)
    requires n < |ms|
    requires AllAdmissible(code, ms, n + 1)
    ensures StoredPrefix(code, ms, start, now, n + 1) == StoredPrefix(code, ms, start, now, n) + [Stored(code, ms[n], start + n, now)]
  {
  }

  /** Position `i` of the stored prefix is the document of member `i`, with id `start + i`. */
  lemma {:induction false} StoredPrefixAt(code: string, ms: seq<MemberInput>, start: nat, now: int, n: nat, i: nat)
    requires n <= |ms|
    requires AllAdmissible(code, ms, n)
    requires i < n
    ensures StoredPrefix(code, ms, start, now, n)[i] == Stored(code, ms[i], start + i, now)
  {
    if i < n - 1 {
      StoredPrefixAt(code, ms, start, now, n - 1, i);
    }
  }

  /**
   * One turn of the handler's loop: the member is normalised and saved. It is stored exactly
   * when it is admissible and the database does not fail, as the document `Stored` describes.
   */
  method SaveMember(store: Store, code: string, m: MemberInput, now: int, ioFails: bool) returns (saved: Option<Individual>)
    requires store.Valid()
    modifies store
    ensures store.Valid()
    ensures saved.Some? <==> Admissible(code, m) && !ioFails
    ensures saved.Some? ==> && saved.value == Stored(code, m, old(store.nextId), now)
                            && store.docs == old(store.docs) + [saved.value] && store.nextId == old(store.nextId) + 1
    ensures saved.None? ==> store.docs == old(store.docs) && store.nextId == old(store.nextId)
  {
    var formData := Normalize(code, m);
    if formData.None? {
      return None;
    }
    saved := store.Save(formData.value, now, ioFails);
  }

  /**
   * The handler's `for...of` loop: each member in request order is normalised and saved under
   * `code`. The first member that cannot be normalised, fails validation or meets a database
   * failure (`failAt`) stops the loop with `ok` false; the members saved before it stay stored.
   */
  method SaveMembers(store: Store, code: string, ms: seq<MemberInput>, now: int, failAt: Option<nat>)
    returns (ok: bool, added: seq<Individual>)
    requires store.Valid()
    modifies store
    ensures store.Valid()
    ensures store.docs == old(store.docs) + added
    ensures |added| <= |ms|
    ensures SavesUpTo(code, ms, failAt, |added|)
    ensures added == StoredPrefix(code, ms, old(store.nextId), now, |added|)
    ensures |added| < |ms| ==> !Admissible(code, ms[|added|]) || failAt == Some(|added|)
    ensures ok <==> |added| == |ms|
  {
    added := [];
    var start := store.nextId;
    for i := 0 to |ms|
      invariant store.Valid()
      invariant store.docs == old(store.docs) + added
      invariant |added| == i && store.nextId == start + i
      invariant SavesUpTo(code, ms, failAt, i)
      invariant added == StoredPrefix(code, ms, start, now, i)
    {
      var saved := SaveMember(store, code, ms[i], now, failAt == Some(i));
      if saved.None? {
        return false, added;
      }
      assert saved.value == Stored(code, ms[i], start + i, now);
      SavesUpToStep(code, ms, failAt, i);
      StoredPrefixStep(code, ms, start, now, i);
      added := added + [saved.value];
    }
    ok := true;
  }

  /**
   * `POST /api/rsvp`. A fresh code is drawn first; then the members are saved under it. The
   * reply is 201 when every member was saved, 500 'Failed to add invitation' when one could not
   * be (the earlier ones stay stored) or when the request has no `members`. No reply is
   * produced when every attempt drew a used code.
   */
  method Post(store: Store, members: Option<seq<MemberInput>>, attempts: seq<seq<real>>, now: int, failAt: Option<nat>)
    returns (reply: Option<Response>, code: Option<string>, added: seq<Individual>)
    requires store.Valid()
    requires forall i :: 0 <= i < |attempts| ==> IsDrawList(attempts[i])
    modifies store
    ensures store.Valid()
    ensures store.docs == old(store.docs) + added
    ensures code == FirstFreshCode(attempts, CodesOf(old(store.docs)))
    ensures reply.None? <==> code.None?
    ensures code.None? || members.None? ==> added == []
    ensures reply.Some? ==> reply.value == Created || reply.value == Failed
    ensures code.Some? && members.Some? ==>
              && |added| <= |members.value|
              && SavesUpTo(code.value, members.value, failAt, |added|)
              && added == StoredPrefix(code.value, members.value, old(store.nextId), now, |added|)
              && (|added| < |members.value| ==>
                    !Admissible(code.value, members.value[|added|]) || failAt == Some(|added|))
              && (reply == Some(Created) <==> |added| == |members.value|)
    ensures reply == Some(Created) ==> code.Some? && members.Some?
  {
    added := [];
    code := UniqueInvitationCode(store, attempts);
    if code.None? {
      return None, code, added;
    }
    if members.None? {
      return Some(Failed), code, added;
    }
    var ok;
    ok, added := SaveMembers(store, code.value, members.value, now, failAt);
    reply := Some(if ok then Created else Failed);
  }

  /** The records one POST stores are exactly the group of its code: the code was fresh, and all of them carry it. */
  lemma PostFormsOneGroup(before: seq<Individual>, added: seq<Individual>, code: string)
    requires code !in CodesOf(before)
    requires forall i :: 0 <= i < |added| ==> added[i].invitationCode == code
    ensures MembersWith(before + added, code) == added
  {
    FilterAppend(before, added, HasCode(code));
    MembersWithAbsent(before, code);
    FilterAll(added, HasCode(code));
  }

  /** Every document saved for a request carries its code and conforms to the schema. */
  lemma {:induction false} StoredPrefixCarriesCode(code: string, ms: seq<MemberInput>, failAt: Option<nat>, start: nat, now: int, n: nat)
    requires n <= |ms|
    requires SavesUpTo(code, ms, failAt, n)
    ensures forall i :: 0 <= i < n ==> StoredPrefix(code, ms, start, now, n)[i].invitationCode == code
    ensures forall i :: 0 <= i < n ==> Conforms(StoredPrefix(code, ms, start, now, n)[i])
  {
    forall i | 0 <= i < n
      ensures StoredPrefix(code, ms, start, now, n)[i].invitationCode == code
      ensures Conforms(StoredPrefix(code, ms, start, now, n)[i])
    {
      StoredPrefixAt(code, ms, start, now, n, i);
      StoredRecordShape(code, ms[i], start + i, now);
    }
  }

  /** After a POST with a fresh code, the group of that code is exactly the members it saved, in request order. */
  lemma SavedMembersFormNewGroup(before: seq<Individual>, code: string, ms: seq<MemberInput>, failAt: Option<nat>, start: nat, now: int, n: nat)
    requires code !in CodesOf(before)
    requires n <= |ms|
    requires SavesUpTo(code, ms, failAt, n)
    ensures MembersWith(before + StoredPrefix(code, ms, start, now, n), code) == StoredPrefix(code, ms, start, now, n)
  {
    StoredPrefixCarriesCode(code, ms, failAt, start, now, n);
    PostFormsOneGroup(before, StoredPrefix(code, ms, start, now, n), code);
  }

  /** Newest first: `createdAt` never increases along the list. */
  predicate NewestFirstOrder(s: seq<Individual>) {
    forall i, j :: 0 <= i < j < |s| ==> s[i].createdAt >= s[j].createdAt
  }

  /** Insert one document into a list, after every leading document at least as new. */
  function InsertByCreation(d: Individual, sorted: seq<Individual>): (r: seq<Individual>)
    ensures multiset(r) == multiset(sorted) + multiset{d}
    ensures r[0] == d || (sorted != [] && r[0] == sorted[0])
  {
    if sorted == [] || d.createdAt > sorted[0].createdAt then [d] + sorted
    else
      assert sorted == [sorted[0]] + sorted[1..];
      [sorted[0]] + InsertByCreation(d, sorted[1..])
  }

  /** Inserting into a newest-first list keeps it newest first. */
  lemma {:induction false} InsertByCreationOrdered(d: Individual, sorted: seq<Individual>)
    requires NewestFirstOrder(sorted)
    ensures NewestFirstOrder(InsertByCreation(d, sorted))
  {
    if sorted != [] && d.createdAt <= sorted[0].createdAt {
      InsertByCreationOrdered(d, sorted[1..]);
      var rest := InsertByCreation(d, sorted[1..]);
      assert sorted[0].createdAt >= rest[0].createdAt;
    }
  }

  /** `find({}).sort({ createdAt: -1 })`: the stored documents rearranged newest first. */
  function NewestFirst(docs: seq<Individual>): (r: seq<Individual>)
    ensures multiset(r) == multiset(docs)
    ensures NewestFirstOrder(r)
  {
    if docs == [] then []
    else
      assert docs == docs[..|docs| - 1] + [docs[|docs| - 1]];
      InsertByCreationOrdered(docs[|docs| - 1], NewestFirst(docs[..|docs| - 1]));
      InsertByCreation(docs[|docs| - 1], NewestFirst(docs[..|docs| - 1]))
  }

  /** The reply when the query threw. */
  const FetchFailed := Response(500, "Failed to fetch individuals")

  /** The reply to a GET: status 200 with the guests, or an error response. */
  datatype GetReply = Listed(individuals: seq<Individual>) | GetFailed(response: Response)

  /**
   * `GET /api/rsvp`: every stored guest, each once, newest first; 500 'Failed to fetch
   * individuals' when the query fails (`findFails`).
   */
  method Get(store: Store, findFails: bool) returns (reply: GetReply)
    ensures reply.GetFailed? <==> findFails
    ensures reply.GetFailed? ==> reply.response == FetchFailed
    ensures reply.Listed? ==> multiset(reply.individuals) == multiset(store.docs)
    ensures reply.Listed? ==> NewestFirstOrder(reply.individuals)
  {
    if findFails {
      return GetFailed(FetchFailed);
    }
    reply := Listed(NewestFirst(store.docs));
  }
}
