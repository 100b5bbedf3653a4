# Student roster: a verified model of the linked list

The roster keeps `Student` records (name, year, email, specialization) in a
singly linked list with `head`, `tail` and `length` fields, in insertion
order. It supports appending a student, removing the first student with a
given email, looking a student up by email, showing the names as one
`", "`-separated string, clearing, two filters (by specialization and by a
minimum year), each sorted by name, and the in-memory halves of saving and
loading: the array of plain four-field records saving writes out, and the
clear-then-add rebuild loading performs.

The model is in five modules:

- `Wrappers` (`wrappers.dfy`): `Option`, which stands for the `-1` that
  lookup returns when no student matches.
- `Students` (`students.dfy`): the `Student` value, the `Record` object that
  saving builds and loading reads, and the record array of a whole list
  (`Snapshot`) and the students rebuilt from one (`Rebuilt`), with both
  round trips proved.
- `NameOrder` (`nameorder.dfy`): the order names are sorted by (character by
  character, by code value) with its order laws, and `SortByName`, proved to
  return a sorted permutation of its input.
- `RosterSpec` (`rosterspec.dfy`): what each operation means on the plain
  sequence of students: the first-match index, `Find`, `RemoveFirst`,
  `Join`, `Select`. The lemmas here state the properties of the roster:
  removal touches only the first match, a later duplicate survives, with
  unique emails a removed student can no longer be found, adding a new email
  and removing it again restores the list, and displaying after an add
  extends the old display.
- `LinkedLists` (`linkedlist.dfy`): the `Node` and `LinkedList` classes.
  Each method walks `current = current.next` as the code does. The ghost
  sequence `Nodes` lists the reachable nodes and `Contents` the students they
  hold. `Valid()` ties them to the pointers: each node's `next` is the
  following node, the last one's is null, `head` is the first node, `length`
  is the number of nodes, and `tail` is the last node while the list is
  non-empty. `AddStudent` and `ClearStudents` state their new contents
  outright. `RemoveStudent`, `FindStudent`, `DisplayStudents` and `Collect`
  are proved against the `RosterSpec` functions `RemoveFirst`, `Find`,
  `Join` and `Select`. `SaveRecords` and `LoadRecords` are proved against
  `Students.Snapshot` and `Students.Rebuilt`. The two filters are proved to
  return a list sorted by name (`SortedByName`) that holds each selected
  student exactly as often as the roster does. `AliceAndBob` and `BobRemains` replay a two-student session
  with these contracts: add two students, display, remove one, look it up,
  display again, filter.

Points of behaviour the model makes explicit:

- Adding never checks emails, so two students may share one. Unique emails
  are therefore an assumption, not an invariant of the list: `UniqueEmails`
  is kept by removal and by adding a new email, and under it a removed email
  is no longer found (`FindAfterRemove`). Removal and lookup address only the
  first match. With a duplicate, the later student survives and some student
  with that email is still found; when the survivor is the second match, it
  is the one found (`LaterDuplicateSurvives`).
- The year filter is called `filterByMinAge` in the code, and it compares the
  `year` field (`LinkedList.js:114`).
- Loading reads and parses the file before it clears the roster
  (`LinkedList.js:145-148`), so a failed read or parse leaves the roster as it
  was. Failures after the clear are another matter: see `LoadRecords` under
  "## Left out".
- Removing the only node through the head path leaves `tail` pointing at the
  dropped node (`LinkedList.js:40-44`). `Valid()` therefore constrains `tail`
  only for a non-empty list. Adding tests `head`, not `tail`, so the stale
  pointer is never followed (`AddStudent` is proved from `Valid()` alone).

## Model

| member | source | states |
|---|---|---|
| `Students.Snapshot` | LinkedList.js:129-137 | the saved record array has one record per student, in list order, each carrying the student's name, year, email and specialization |
| `Students.Rebuilt` | LinkedList.js:150-159 | loading constructs one student per record, in array order, from the record's four fields |
| `Students.RebuiltSnapshot` | LinkedList.js:129-159 | rebuilding from the saved records gives back exactly the same students in the same order |
| `Students.SnapshotRebuilt` | LinkedList.js:129-159 | saving a freshly loaded list gives back exactly the records it was loaded from |
| `NameOrder.NameLeReflexive` | LinkedList.js:106 | every name sorts no later than itself |
| `NameOrder.NameLeTotal` | LinkedList.js:106 | any two names are comparable |
| `NameOrder.NameLeAntisymmetric` | LinkedList.js:106 | two names that each sort no later than the other are equal |
| `NameOrder.NameLeTransitive` | LinkedList.js:106 | the name order is transitive |
| `NameOrder.InsertByName` | LinkedList.js:106 | inserting into a name-sorted sequence keeps it sorted and adds exactly that one student |
| `NameOrder.SortByName` | LinkedList.js:106 | the sort result is ascending by name and is a permutation of its input |
| `RosterSpec.IndexOfEmail` | LinkedList.js:65-75 | the index is that of the first student whose email equals the argument, or the length when none does |
| `RosterSpec.FindNone` | LinkedList.js:65-75 | lookup answers not-found exactly when no student has the email |
| `RosterSpec.FindFirst` | LinkedList.js:65-75 | a found student is in the list, has the email, and no earlier student has it |
| `RosterSpec.FindAfterAdd` | LinkedList.js:21-34 | after appending a student, lookup of its email returns the earlier student with that email if there is one, otherwise the new student |
| `RosterSpec.RemoveLength` | LinkedList.js:37-61 | removal shortens the list by one exactly when some student has the email, otherwise the length is unchanged |
| `RosterSpec.RemoveNoMatch` | LinkedList.js:37-61 | removal leaves the list unchanged exactly when no student has the email (including the empty list) |
| `RosterSpec.RemoveKeepsOthers` | LinkedList.js:40-60 | when a student matches, the result is the students before the first match followed by those after it, and the multiset loses exactly that one student |
| `RosterSpec.LaterDuplicateSurvives` | LinkedList.js:47-60 | a later student with the same email keeps its place after removal, some student with the email is then found, and it is that later student when no other match lies between the first and it |
| `RosterSpec.FindAfterRemove` | LinkedList.js:37-75 | when emails are unique, looking up a removed email answers not-found |
| `RosterSpec.RemovePreservesUnique` | LinkedList.js:37-61 | removal keeps emails unique |
| `RosterSpec.AddThenRemove` | LinkedList.js:21-61 | appending a student whose email is new and then removing that email restores the original list |
| `RosterSpec.AddPreservesUnique` | LinkedList.js:21-34 | appending a student with a new email keeps emails unique |
| `RosterSpec.JoinSnoc` | LinkedList.js:85 | joining one more name appends ", " and that name to the previous join |
| `RosterSpec.JoinLength` | LinkedList.js:85 | the joined string is as long as all the names plus one separator between each neighbouring pair |
| `RosterSpec.DisplayAfterAdd` | LinkedList.js:78-86 | after an add, the display is the old display followed by ", " and the new name, or the new name alone on an empty list |
| `RosterSpec.SelectCount` | LinkedList.js:97-105 | selection holds each accepted student exactly as often as the list does, and no rejected student |
| `RosterSpec.SelectSnoc` | LinkedList.js:97-105 | selecting from a list extended by one student extends the selection by that student exactly when it is accepted |
| `LinkedLists.Node.constructor` | LinkedList.js:5-10 | a new node holds the student and links to nothing |
| `LinkedLists.LinkedList.constructor` | LinkedList.js:14-18 | a new roster is valid, empty and has length 0 |
| `LinkedLists.LinkedList.AddStudent` | LinkedList.js:21-34 | the new contents are the old contents followed by the student, length grows by one, no uniqueness check |
| `LinkedLists.LinkedList.RemoveStudent` | LinkedList.js:37-62 | the new contents drop the first student with the email and nothing else; length drops by one exactly when some student matched |
| `LinkedLists.LinkedList.UnlinkHead` | LinkedList.js:40-44 | removal at the head drops the first student, lowers length by one and leaves `tail` as it was |
| `LinkedLists.LinkedList.UnlinkNext` | LinkedList.js:53-60 | unlinking after the i-th node drops the (i+1)-th student, keeps the list valid (moving `tail` back when the last node goes) and lowers length by one |
| `LinkedLists.LinkedList.FindStudent` | LinkedList.js:65-75 | returns the first student with the email, or None exactly when no student has it |
| `LinkedLists.LinkedList.DisplayStudents` | LinkedList.js:78-86 | returns the names in list order joined by ", ", and "" for an empty list |
| `LinkedLists.LinkedList.ClearStudents` | LinkedList.js:89-93 | the roster is valid, empty and has length 0 |
| `LinkedLists.LinkedList.Collect` | LinkedList.js:97-105 | the traversal collects exactly the accepted students, in list order |
| `LinkedLists.LinkedList.FilterBySpecialization` | LinkedList.js:96-107 | the result is sorted by name and holds each student whose specialization equals the argument exactly as often as the list does, and no other |
| `LinkedLists.LinkedList.FilterByMinAge` | LinkedList.js:110-121 | the result is sorted by name and holds each student whose year is at least the argument exactly as often as the list does, and no other |
| `LinkedLists.LinkedList.SaveRecords` | LinkedList.js:126-137 | the record array is the four-field record of each student, in list order |
| `LinkedLists.LinkedList.LoadRecords` | LinkedList.js:148-159 | after clearing and adding one student per record, the contents are the rebuilt students in array order and length is the number of records |
| `LinkedLists.LinkedList.SaveClearLoad` | LinkedList.js:124-160 | saving, clearing and loading the saved records restores the same students in the same order, with the same length |

## Left out

- `index.js`, the command loop: reading lines, splitting them into words, `parseInt` on the year, printing. It only dispatches to the roster.
- File input and output in saving and loading (`writeFile`, `readFile`, `async`/`await`) and the JSON text (`JSON.stringify` with 2-space indentation, `JSON.parse`). The model starts and ends at the record arrays on either side of them. Read and parse failures happen before the roster is touched, so they have no effect on the modelled state.
- LinkedLists.LinkedList.LoadRecords: does not model a load that fails after the roster has been cleared (`LinkedList.js:148`). When the parsed JSON is not an array (`{}`, `null`, `42`, `"x"`), `forEach` (`LinkedList.js:150`) throws and the roster is left empty. When an element is `null`, reading its `name` (`LinkedList.js:153`) throws and the roster keeps only the records before it. The model takes the records as an already well-formed `seq<Record>`, so neither failure can be expressed.
- Records with missing or extra fields, and years that are not integers (`NaN`, fractions). `Record` has exactly four fields and the year is an unbounded integer.
- The student class itself and its `getString`. `Student` is a plain value and its getters are field reads.
- Locale-aware collation (`localeCompare`). Names are compared character by character by code value.
- LinkedLists.LinkedList.FilterBySpecialization: does not state the order among students with equal names. The JavaScript sort is stable, but the model claims only "ascending by name" and the permutation.
- LinkedLists.LinkedList.FilterByMinAge: does not state the order among students with equal names, for the same reason.
- The `-1` sentinel of `findStudent` is `None`. The JavaScript value is a number, not a `Student`.
