# Wedding RSVP: guest records, grouping and group creation

This project is a Dafny model of the guest-record logic of a wedding RSVP site. Each guest is one
`Individual` document. Guests who were invited together share a five-character invitation code.
The model covers three parts:

- the server endpoint `/api/rsvp`. Its POST draws a fresh code and saves one normalised record per
  submitted member. Its GET lists every guest, newest first.
- the dashboard table. It groups the fetched guests by code and filters the groups by a search
  term. It summarises each group and counts statuses over the whole list. Its handlers toggle a
  group open or shut, edit, delete and add guests.
- the dashboard's "Add New Group" form. It keeps a growing and shrinking list of name rows and
  validates them. It builds the request body and resets itself after success.

The record shape comes from the Mongoose schema: the four statuses, the 14-value dietary
vocabulary, the required paths, the defaults and the pre-save `updatedAt` stamp.

Modules and the source each one models:

- `Wrappers`, `Text` and `Sequences` hold the JavaScript behaviour the rest relies on:
  `Option`, `trim` with JavaScript's white-space set, ASCII `toLowerCase`, `includes`, and
  `Array.prototype.filter` with its order and membership facts.
- `IndividualModel` models `models/Individual.js`.
- `Grouping`, `KeyOrder`, `Search`, `Summaries` and `Dashboard` model
  `src/app/components/dashboard/table.js`.
  - `Dashboard.Dashboard` is a class whose fields are the component's state.
  - The grouping reduce is a method with a loop.
  - The search reduce is a method with a loop.
- `GroupCreation` models `src/app/api/rsvp/route.js`.
  - The code generator, the retry loop and the save loop are methods with loops.
  - The database is the class `Store`. Its `Save` appends a document.
- `NameForms` and `GroupForm` model `src/app/dashboard/page.js`. `GroupForm.GroupFormPage` is a
  class holding the page's state.

Outside inputs arrive as parameters:

- `Math.random()` draws, one list of five reals per attempted code;
- network replies to `fetch`;
- the answer to `confirm`;
- the clock value `now`;
- the position of a failing database save.

Alerts are returned as values.

A JavaScript object used as a dictionary is a `CodeTable`: the key list in insertion order plus
a map. `Object.entries` follows the language's enumeration order. Keys that are array indices
(a code such as `"12345"`) come first, in ascending numeric order. The other keys follow in
insertion order. So a numeric code can be listed before codes that were inserted earlier.

Two behaviours of the code are kept as written:

- A successful fetch does not clear an error recorded by an earlier fetch.
- The search decides "blank or not" on the trimmed term but matches with the untrimmed term.

## Model

| member | source | states |
|---|---|---|
| IndividualModel.StatusName | wedding-rsvp/models/Individual.js:11-15 | every status is written as one of the schema's four enum strings |
| IndividualModel.ParseStatus | wedding-rsvp/models/Individual.js:11-15 | a status string passes the enum check exactly when it is one of the four names, and then reads back as that status |
| IndividualModel.StatusNameRoundTrip | wedding-rsvp/models/Individual.js:11-15 | writing a status as its name and reading it back gives the status |
| IndividualModel.Construct | wedding-rsvp/models/Individual.js:5-24 | a new document gets status Pending and an empty dietary list when none is given and keeps the status and dietary list it is given, and both timestamps are `now`; a document that passes validation conforms to the schema and keeps the four required values it was given; email and comments are kept as given |
| IndividualModel.Touch | wedding-rsvp/models/Individual.js:27-30 | the pre-save hook sets `updatedAt` to the save time, changes nothing else and keeps a conforming document conforming |
| Text.Trim | wedding-rsvp/src/app/api/rsvp/route.js:38-39 | `trim` never lengthens a string (what it keeps is stated by `Text.TrimMeaning`) |
| Text.Contains | wedding-rsvp/src/app/components/dashboard/table.js:90-93 | `includes` finds a needle only when it is no longer than the string, and always finds the empty string |
| Text.TrimMeaning | wedding-rsvp/src/app/api/rsvp/route.js:38-41 | `trim` returns a block of the input that neither starts nor ends with white space, and it is empty exactly when the input is all white space |
| Text.TrimStartMeaning | wedding-rsvp/src/app/api/rsvp/route.js:38-39 | the leading-space cut keeps a suffix that does not start with white space and drops only white space |
| Text.TrimEndMeaning | wedding-rsvp/src/app/api/rsvp/route.js:38-39 | the trailing-space cut keeps a prefix that does not end with white space and drops only white space |
| Text.ToLower | wedding-rsvp/src/app/components/dashboard/table.js:90-93 | lower-casing keeps the length, turns each upper-case ASCII letter into its lower-case letter, leaves no upper-case letter and changes no other character |
| Text.ToLowerIdempotent | wedding-rsvp/src/app/components/dashboard/table.js:90-93 | lower-casing twice is lower-casing once |
| Sequences.Filter | wedding-rsvp/src/app/components/dashboard/table.js:89-94 | `filter` never returns more elements than it was given (which ones is stated by `Sequences.FilterMembership` and `Sequences.FilterIsSubsequence`) |
| Sequences.FilterMembership | wedding-rsvp/src/app/components/dashboard/table.js:89-94 | `filter` keeps exactly the elements of the input that pass the test |
| Sequences.FilterIsSubsequence | wedding-rsvp/src/app/components/dashboard/table.js:89-94 | `filter` keeps the input's order: its result embeds in the input at increasing positions |
| Sequences.FilterSplit | wedding-rsvp/src/app/components/dashboard/table.js:203 | the elements a filter keeps and those it drops together make up the input |
| Sequences.FilterCommutes | wedding-rsvp/src/app/components/dashboard/table.js:203 | two filters give the same list in either order |
| Grouping.DistinctCodes | wedding-rsvp/src/app/components/dashboard/table.js:73-80 | the grouped object's key list has no repeats and holds exactly the codes of the list |
| Grouping.FirstIndex | wedding-rsvp/src/app/components/dashboard/table.js:75-77 | the position where a code first occurs: the guest there carries the code and no earlier guest does |
| Grouping.DistinctCodesInOrder | wedding-rsvp/src/app/components/dashboard/table.js:73-80 | the codes are listed in first-occurrence order: a code listed earlier first occurs before any code listed later |
| Grouping.Grouped | wedding-rsvp/src/app/components/dashboard/table.js:73-80 | the reduce over the guests yields a table whose keys are distinct and each have a group |
| Grouping.GroupedMeaning | wedding-rsvp/src/app/components/dashboard/table.js:73-80 | the grouped object's keys are the distinct codes in first-occurrence order, and the group of a code is the list's guests with that code, in list order |
| Grouping.GroupByCode | wedding-rsvp/src/app/components/dashboard/table.js:73-80 | the loop that creates a group on a code's first sight and pushes each guest onto its group computes the grouped table |
| Grouping.GroupingPlacesEachIndividual | wedding-rsvp/src/app/components/dashboard/table.js:73-80 | every guest is in the group of its own code, and a group holds only guests of the list that carry its code |
| Grouping.GroupsKeepInputOrder | wedding-rsvp/src/app/components/dashboard/table.js:73-80 | every group lists its guests in the order they were fetched |
| Grouping.GroupingPartitions | wedding-rsvp/src/app/components/dashboard/table.js:73-80 | the groups, read in key order, hold each guest exactly as often as the fetched list does, so no guest is lost or duplicated |
| KeyOrder.EnumerationOrder | wedding-rsvp/src/app/components/dashboard/table.js:83 | `Object.entries` visits every key exactly once |
| KeyOrder.EnumerationOrderShape | wedding-rsvp/src/app/components/dashboard/table.js:83 | array-index keys come first in ascending numeric order, then the other keys in insertion order |
| Search.MatchesTerm | wedding-rsvp/src/app/components/dashboard/table.js:89-94 | the empty term matches every member (`includes('')` is true) |
| Search.MatchIgnoresTermCase | wedding-rsvp/src/app/components/dashboard/table.js:90-93 | a term and its lower-cased form match the same members, so the search ignores the term's case |
| Search.FilterEntries | wedding-rsvp/src/app/components/dashboard/table.js:83-102 | the reduce keeps at most one key per entry (which keys and lists is stated by `Search.FilterEntriesMeaning`) |
| Search.Entries | wedding-rsvp/src/app/components/dashboard/table.js:83 | the entries pair each key, in enumeration order, with its group |
| Search.FilterGroups | wedding-rsvp/src/app/components/dashboard/table.js:83-102 | the loop over the entries that copies or filters each group computes the filtered object |
| Search.FilterEntriesMeaning | wedding-rsvp/src/app/components/dashboard/table.js:83-102 | the filtered object lists the surviving groups in entry order; a group survives when the term is blank or a member matches, and it shows all its members (blank term) or its matching ones |
| Search.SearchResult | wedding-rsvp/src/app/components/dashboard/table.js:83-102 | over a grouped object, a code appears in the result exactly when its group survives, with the list it shows, and no other code appears |
| Search.BlankSearchKeepsEverything | wedding-rsvp/src/app/components/dashboard/table.js:84-86 | a term that trims to nothing keeps every group with its full member list |
| Search.SearchKeepsMatchingMembers | wedding-rsvp/src/app/components/dashboard/table.js:89-99 | with a non-blank term, a kept group is a non-empty, order-preserving selection of its members, made of exactly the members matching the lower-cased term in first, last or group name or in the code |
| Search.SearchDropsGroupsWithoutMatch | wedding-rsvp/src/app/components/dashboard/table.js:97-99 | with a non-blank term, a group is kept exactly when at least one of its members matches |
| Search.SearchByCodeKeepsWholeGroup | wedding-rsvp/src/app/components/dashboard/table.js:93 | a term found in a group's code keeps the whole group unchanged |
| Search.HeaderCounts | wedding-rsvp/src/app/components/dashboard/table.js:294 | the header counts an object's keys and the guests its groups hold together |
| Search.FilteredCountsBounded | wedding-rsvp/src/app/components/dashboard/table.js:294-295 | unfiltered, the header shows one group per distinct code and every fetched guest; filtered, never more groups and never more guests |
| Summaries.CountStatus | wedding-rsvp/src/app/components/dashboard/table.js:118-120 | a status count never exceeds the members, and it is zero exactly when no member has that status |
| Summaries.StatusCountsPartition | wedding-rsvp/src/app/components/dashboard/table.js:116-121 | the four status counts of a list add up to its length |
| Summaries.GroupSummary | wedding-rsvp/src/app/components/dashboard/table.js:116-129 | the summary counts the members and their Accepted, Declined and Pending statuses, never more than the members; the name is the first member's group name, or 'Unknown Group' for an empty list or empty name |
| Summaries.StatusTotals | wedding-rsvp/src/app/components/dashboard/table.js:609-610 | one count per status in display order, together equal to the number of guests |
| Summaries.WidgetLabelsAreSchemaNames | wedding-rsvp/src/app/components/dashboard/table.js:609 | the widgets' labels are the schema's status names in the schema's order |
| NameForms.SetName | wedding-rsvp/src/app/dashboard/page.js:66 | typing into one name input changes that field only |
| NameForms.NamesPresentTrimmed | wedding-rsvp/src/app/dashboard/page.js:76 | both names pass the check exactly when neither is all white space, and then both trim to non-empty strings |
| Dashboard.Toggled | wedding-rsvp/src/app/components/dashboard/table.js:105-113 | toggling flips the membership of exactly the given code and no other |
| Dashboard.ToggleTwice | wedding-rsvp/src/app/components/dashboard/table.js:105-113 | toggling the same code twice restores the set |
| Dashboard.FormOf | wedding-rsvp/src/app/components/dashboard/table.js:146-155 | starting an edit always fills the form |
| Dashboard.ChangeForm | wedding-rsvp/src/app/components/dashboard/table.js:455-522 | after any input the edit form is no longer the empty form |
| Dashboard.InputReachesSavedRow | wedding-rsvp/src/app/components/dashboard/table.js:455-522 | whatever is typed into an input of the edit row (first name, last name, status, dietary list, comments) is the value that field has in the saved row |
| Dashboard.ApplyEdit | wedding-rsvp/src/app/components/dashboard/table.js:171 | each field the form holds (first and last name, status, dietary list, comments) replaces the row's, each field it lacks keeps the row's; id, code, group, email and creation time stay, and the save time becomes `updatedAt`; an empty form only stamps the time |
| Dashboard.UnchangedEditIsTouch | wedding-rsvp/src/app/components/dashboard/table.js:146-171 | saving an untouched form only stamps the time and turns absent comments into '' |
| Dashboard.PatchById | wedding-rsvp/src/app/components/dashboard/table.js:170-172 | the patched list has the same length; rows with the id are merged with the form and the others stay as they were |
| Dashboard.PatchUnknownIdChangesNothing | wedding-rsvp/src/app/components/dashboard/table.js:170-172 | an id no row carries leaves the list unchanged |
| Dashboard.EditKeepsGroups | wedding-rsvp/src/app/components/dashboard/table.js:170-172 | an edit changes neither the codes, their order nor any group's size |
| Dashboard.RemoveById | wedding-rsvp/src/app/components/dashboard/table.js:203 | after a delete no row carries the id, and the list does not grow |
| Dashboard.RemoveByIdMeaning | wedding-rsvp/src/app/components/dashboard/table.js:203 | a delete removes exactly the rows with that id and keeps the rest in order; the list shrinks by the number removed |
| Dashboard.DeleteThenGroup | wedding-rsvp/src/app/components/dashboard/table.js:203 | grouping after a delete gives each group with that row removed |
| Dashboard.EditOptionsMatchSchema | wedding-rsvp/src/app/components/dashboard/table.js:484-510 | the edit row offers exactly the schema's four statuses, and only dietary values from the schema's vocabulary; 'Diabetic' is one it does not offer |
| Dashboard.AddedMemberJoinsItsGroup | wedding-rsvp/src/app/components/dashboard/table.js:255 | a guest appended to the list joins the end of its own code's group and no other group |
| Dashboard.Dashboard.constructor | wedding-rsvp/src/app/components/dashboard/table.js:6-18 | the initial state: nothing fetched, loading, nothing expanded, searched, edited or selected |
| Dashboard.Dashboard.FetchIndividuals | wedding-rsvp/src/app/components/dashboard/table.js:29-45 | the fetched list, or [] when the body has none, replaces the local one; a non-ok reply records 'Failed to fetch data' and an exception records its message; loading ends; nothing else changes |
| Dashboard.Dashboard.SetSearchTerm | wedding-rsvp/src/app/components/dashboard/table.js:307 | the search box sets the term and nothing else |
| Dashboard.Dashboard.ToggleGroup | wedding-rsvp/src/app/components/dashboard/table.js:105-113 | the expanded set becomes the toggled set; nothing else changes |
| Dashboard.Dashboard.StartEdit | wedding-rsvp/src/app/components/dashboard/table.js:146-155 | the guest's row becomes the edited one and the form holds its values |
| Dashboard.Dashboard.ChangeEditForm | wedding-rsvp/src/app/components/dashboard/table.js:455-522 | an input of the edit row changes its one field of the form |
| Dashboard.Dashboard.SaveEdit | wedding-rsvp/src/app/components/dashboard/table.js:158-182 | on an ok reply the list is patched and editing ends; otherwise the list and the editing state stay and the matching alert is returned |
| Dashboard.Dashboard.CancelEdit | wedding-rsvp/src/app/components/dashboard/table.js:185-188 | editing ends, the form is emptied and the list is untouched |
| Dashboard.Dashboard.DeleteIndividual | wedding-rsvp/src/app/components/dashboard/table.js:191-212 | a declined confirm changes nothing; an ok reply removes the rows with the id; other replies keep the list and return the matching alert |
| Dashboard.Dashboard.OpenAddMemberModal | wedding-rsvp/src/app/components/dashboard/table.js:215-222 | the group is selected, the form emptied and the modal shown |
| Dashboard.Dashboard.CloseAddMemberModal | wedding-rsvp/src/app/components/dashboard/table.js:225-232 | the modal is hidden, no group is selected and the form is emptied |
| Dashboard.Dashboard.ChangeAddMemberForm | wedding-rsvp/src/app/components/dashboard/table.js:645-655 | typing changes only the named input of the modal's form |
| Dashboard.Dashboard.AddMemberToGroup | wedding-rsvp/src/app/components/dashboard/table.js:235-265 | a blank name sends nothing and changes nothing but the alert; an ok reply appends the new guest at the end and closes the modal; other replies change nothing but the alert |
| GroupCreation.CharIndex | wedding-rsvp/src/app/api/rsvp/route.js:9 | a draw always picks a position inside the 36-character alphabet |
| GroupCreation.CodeFromDraws | wedding-rsvp/src/app/api/rsvp/route.js:5-12 | a code is five characters, each from `A-Z0-9` |
| GroupCreation.GenerateInvitationCode | wedding-rsvp/src/app/api/rsvp/route.js:5-12 | the loop that appends one drawn character five times returns the code of its draws, five characters from the alphabet |
| GroupCreation.EveryCodeCanBeDrawn | wedding-rsvp/src/app/api/rsvp/route.js:5-12 | every five-character code over the alphabet is produced by some draws |
| GroupCreation.FirstFreshCode | wedding-rsvp/src/app/api/rsvp/route.js:29-32 | the first attempted code not in use, which is fresh and five characters from the alphabet; none exactly when every attempt drew a used code |
| GroupCreation.CodeInUse | wedding-rsvp/src/app/api/rsvp/route.js:15-18 | the lookup answers yes exactly when a stored guest holds the code |
| GroupCreation.UniqueInvitationCode | wedding-rsvp/src/app/api/rsvp/route.js:29-32 | the retry loop returns the first attempted code that no stored guest holds |
| GroupCreation.Store.Save | wedding-rsvp/src/app/api/rsvp/route.js:48-51 | a save stores the built, validated and stamped document at the end exactly when it passes validation and the database does not fail; otherwise the collection is unchanged |
| GroupCreation.Normalize | wedding-rsvp/src/app/api/rsvp/route.js:36-45 | a member can be normalised exactly when both names are present |
| GroupCreation.Admissible | wedding-rsvp/models/Individual.js:6-9 | a member the schema accepts has a non-empty code, both names and a group name |
| GroupCreation.Stored | wedding-rsvp/src/app/api/rsvp/route.js:36-51 | the stored document has the given id and the request's code, status Pending, and `now` as both timestamps |
| GroupCreation.StoredRecordShape | wedding-rsvp/src/app/api/rsvp/route.js:36-51 | a stored member carries the request's code, trimmed names, its group, the trimmed email or '', status Pending, the dietary list or [], the comments or '', and both timestamps `now`; it conforms to the schema |
| GroupCreation.AdmissibleExactly | wedding-rsvp/src/app/api/rsvp/route.js:36-51 | a member is saved exactly when both names are present and not blank, the group name is non-empty and every dietary entry is from the vocabulary |
| GroupCreation.StoredPrefixAt | wedding-rsvp/src/app/api/rsvp/route.js:35-52 | the i-th document saved is member i's, with the i-th fresh id |
| GroupCreation.SaveMember | wedding-rsvp/src/app/api/rsvp/route.js:36-51 | one member is stored, as the document built from its normalised fields with the next id, exactly when both names are present, the record passes validation and the database does not fail; otherwise the collection is unchanged |
| GroupCreation.SaveMembers | wedding-rsvp/src/app/api/rsvp/route.js:35-52 | members are saved in request order; the loop stops at the first member that is rejected or whose save fails, keeping those before it, and it completes exactly when all are saved |
| GroupCreation.Post | wedding-rsvp/src/app/api/rsvp/route.js:21-66 | the code is the first fresh one; 201 exactly when every member was saved, else 500 'Failed to add invitation' with the earlier members kept and no rollback; a request without members saves nothing; the store grows by exactly the saved records |
| GroupCreation.PostFormsOneGroup | wedding-rsvp/src/app/api/rsvp/route.js:29-52 | records added under a code no one held form exactly that code's group |
| GroupCreation.StoredPrefixCarriesCode | wedding-rsvp/src/app/api/rsvp/route.js:35-37 | every record one POST saves carries the request's code and conforms to the schema |
| GroupCreation.SavedMembersFormNewGroup | wedding-rsvp/src/app/api/rsvp/route.js:29-52 | after a POST, the group of the new code is exactly the saved members in request order |
| GroupCreation.InsertByCreation | wedding-rsvp/src/app/api/rsvp/route.js:75 | inserting adds exactly that document, and the list then starts with it or with its old first document |
| GroupCreation.InsertByCreationOrdered | wedding-rsvp/src/app/api/rsvp/route.js:75 | inserting into a newest-first list keeps it newest first |
| GroupCreation.NewestFirst | wedding-rsvp/src/app/api/rsvp/route.js:75 | the sorted list is a rearrangement of the stored documents with `createdAt` never increasing |
| GroupCreation.Get | wedding-rsvp/src/app/api/rsvp/route.js:69-88 | GET returns every stored guest exactly once, newest first; it replies 500 'Failed to fetch individuals' exactly when the query fails |
| GroupForm.RemoveAt | wedding-rsvp/src/app/dashboard/page.js:60-62 | removing at an index in range leaves the rows before and after it in order; an index out of range changes nothing |
| GroupForm.ChangeAt | wedding-rsvp/src/app/dashboard/page.js:64-68 | a change at an index in range updates only that row; an index out of range changes nothing |
| GroupForm.RemoveKeepsARow | wedding-rsvp/src/app/dashboard/page.js:177 | the remove control is offered only when there are at least two rows, so a removal never empties the list |
| GroupForm.AddThenRemove | wedding-rsvp/src/app/dashboard/page.js:56-62 | adding a row and removing it again gives back the previous rows |
| GroupForm.CanSubmit | wedding-rsvp/src/app/dashboard/page.js:74-77 | the form can be submitted exactly when the group name is not all white space and every row has both names present |
| GroupForm.Payload | wedding-rsvp/src/app/dashboard/page.js:79-82 | one request entry per row, in row order, each with the row's first and last name and the form's group name, and no email, dietary list or comments |
| GroupForm.SubmittedFormIsAccepted | wedding-rsvp/src/app/dashboard/page.js:74-91 | a form that passes the check sends only members the server accepts, so with no database failure every member is saved |
| GroupForm.BlankNameBlocksSubmit | wedding-rsvp/src/app/dashboard/page.js:74-77 | a blank group name or a blank member name blocks the submit |
| GroupForm.ResetFormCannotSubmit | wedding-rsvp/src/app/dashboard/page.js:99-100 | the reset form cannot be submitted until names are typed |
| GroupForm.GroupFormPage.constructor | wedding-rsvp/src/app/dashboard/page.js:10-29 | 50 invited, modal closed, empty group name, one empty row |
| GroupForm.GroupFormPage.OpenModal | wedding-rsvp/src/app/dashboard/page.js:128 | the modal opens and nothing else changes |
| GroupForm.GroupFormPage.CloseModal | wedding-rsvp/src/app/dashboard/page.js:143 | the modal closes and what was typed stays |
| GroupForm.GroupFormPage.SetGroupName | wedding-rsvp/src/app/dashboard/page.js:152 | the group name input sets the name and nothing else |
| GroupForm.GroupFormPage.AddMember | wedding-rsvp/src/app/dashboard/page.js:56-58 | one empty row is appended and the existing rows are unchanged |
| GroupForm.GroupFormPage.RemoveMember | wedding-rsvp/src/app/dashboard/page.js:60-62 | the row at the index is removed and the list stays non-empty |
| GroupForm.GroupFormPage.MemberChange | wedding-rsvp/src/app/dashboard/page.js:64-68 | only the named field of the row at the index changes |
| GroupForm.GroupFormPage.AddInvitation | wedding-rsvp/src/app/dashboard/page.js:70-117 | a request is sent exactly when the group name and every member name are non-blank, and it carries the payload; only the server's success message increments `invited` by one, resets the form, closes the modal and asks for a table refresh; any other outcome leaves the form as it was and returns the matching alert |

## Left out

- Unicode case folding: `toLowerCase` is modelled on ASCII letters only.
- `Math.random` uniformity and floating point: a draw is a real in [0, 1), and only `Math.floor(r * 36)` is modelled.
- GroupCreation.UniqueInvitationCode: the unbounded retry is modelled over a finite list of attempts. When every attempt draws a used code, the result is None, where the source would keep drawing.
- GroupCreation.Post: a failure of the existence lookup (`findOne`) is not modelled. Neither is a body that is not JSON (`req.json()` outside the `try`). Only missing members, missing names, validation and a failing save are.
- GroupCreation.Normalize: a name that is present but not a string is not modelled (its `trim` would throw).
- Concurrency: the check-then-insert race between two POSTs drawing the same code is not modelled. Handlers run one at a time, each with one clock value.
- Mongo ids: `_id` is a counter in `Store`. The database's id format is not modelled.
- Key names inherited from `Object.prototype`, such as `constructor`: generated codes cannot take such names, and the table does not model them.
- The HTML `required` attribute and other browser form behaviour are not modelled.
- Dashboard.Dashboard.AddMemberToGroup: the ok reply is taken to carry the new guest. A body without `individual` is not modelled.
- GroupForm.GroupFormPage.AddInvitation: the table refresh after a success is only returned as a flag. The re-fetch itself is `Dashboard.Dashboard.FetchIndividuals`; the link between the two components is not modelled.
- JSX rendering, `formatDate`, `highlightSearchTerm`, `getRsvpStatusColor`, the loading and error screens: presentation only.
- The password gate of the dashboard page (a constant string comparison) and its unused `rsvp` and `newInviteName` state.
- The home page, the footer, the public RSVP page, `src/app/lib/mongoose.js`, `models/Invitation.js`, and the PUT, DELETE and group-member endpoints the table calls: the server side of those requests is not part of this model. Their replies are parameters.
