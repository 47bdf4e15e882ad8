# Org Maker Pro — verified model of the chart editor

Org Maker Pro is a single React component (`src/App.jsx`) for drawing an
organisation chart. An employee list is read from a published spreadsheet.
The user places employees on org cards by drag and drop, builds units below
the president and CEO cards, moves cards around and deletes them. This
project models the in-memory editor behind that screen and proves what its
handlers do to the state:

- the chart list (`chartNodes`);
- the employee pool (`employeePool`);
- the selection (`selectedIds`);
- the search term.

Module layout, in import order:

- `Util`: an optional value and the order-preserving `filter` with its laws.
- `Text`: the JavaScript string operations the editor uses. These are
  `split` on one character, `trim` with the ECMAScript white-space set,
  `includes`, `startsWith`, `toLowerCase` for ASCII letters, and the decimal
  rendering of a row number.
- `Roles`: the `LEADER_TYPES` table and the first-match badge lookup.
- `Pool`: the CSV-to-employee parse, the search filter and the selection
  helpers.
- `Nodes`: the chart record, `DEFAULT_LEVELS`, `INITIAL_NODES` and lookups
  by id.
- `Closure`: the descendant closure.
  - The `while` loop of `deleteNode` is the method `CollectDoomed`, proved
    to compute that closure.
  - Acyclicity of the parent graph is defined over it.
  - The recursive `isDescendant` of `handleDrop` terminates under
    acyclicity and agrees with the closure.
- `Chart`: the chart invariant `WellFormed` and its preservation under the
  three kinds of change. A fresh leaf is appended, a closed set of cards is
  removed, or one card gets a new parent. `WellFormed` says:
  - the president card is first and is the only card without a parent;
  - the CEO card is present;
  - ids are unique and every named parent exists;
  - the parent graph has no cycle;
  - person cards have no children.
- `Edits`: the handlers as whole-list functions, with their laws. These are
  `addNode`, `addSelectedToOrg`, `deleteNode`, `updateLabel`, `handleDrop`
  and `totalStats`.
- `Editor`: the class `App`. Its fields are the component's state and its
  methods are the handlers, with one exception: `DeleteNode` runs the
  corrected guard described under "Findings", not the guard of the source.
  Each method keeps `Valid()` (the chart is `WellFormed`) and states the new
  state.

In the source, ids come from `Date.now()` and `Math.random()`. Here they are
parameters, and a precondition says they are fresh. Drag events are given
as a value: an employee from the pool, or a chart card with its `nodeType`.

Counting and levels: `totalStats` counts non-exception cards of levels 2, 3
and 4 as divisions, groups and teams. A unit added from entry `k` of the
level menu gets level `k + 1`, so "부문" (entry 0) counts nowhere and "그룹"
(entry 1) counts as a division (`Edits.StatsAddNodeFromMenu`). The CEO card
(level 1) does not count either. Both readings of the levels are in the
source, so the model keeps the code as written. This is not reported as a
defect.

## Model

| member | source | states |
|---|---|---|
| Util.Filter | src/App.jsx:105-108 | `Array.prototype.filter`: the result has exactly the elements that pass the test, and is no longer than the input |
| Util.FilterIsSubSeq | src/App.jsx:105-108 | filtering keeps the relative order of what it keeps (an order-preserving sub-list) |
| Util.FilterAppend | src/App.jsx:383-386 | filtering a concatenation is the concatenation of the filtered parts |
| Util.SubSeqDetermined | src/App.jsx:164 | in a list without repetitions, two sub-lists with the same elements are equal |
| Text.TrimStart | src/App.jsx:94 | strips exactly the leading white space: what is dropped is white space, and the result does not start with it |
| Text.TrimEnd | src/App.jsx:94 | strips exactly the trailing white space |
| Text.TrimStrips | src/App.jsx:94 | `trim` returns a slice of the input with no white space at either end, removing only white space |
| Text.Trim | src/App.jsx:94 | `trim()`: strips leading and trailing white space; its meaning is stated by `TrimStrips` and `TrimFixed` |
| Text.TrimFixed | src/App.jsx:94 | a cell without surrounding white space is unchanged by `trim` |
| Text.IndexOf | src/App.jsx:94 | finds the first occurrence of the separator |
| Text.Split | src/App.jsx:94 | `split(sep)` yields at least one piece, no piece holds the separator, and joining the pieces gives back the text |
| Text.SplitJoin | src/App.jsx:94 | splitting a join of separator-free pieces returns the pieces |
| Text.JoinSnoc | src/App.jsx:94 | joining one more piece appends the separator and the piece |
| Text.SplitSnoc | src/App.jsx:94 | appending a separator and a piece appends that piece to the split |
| Text.Contains | src/App.jsx:106-107 | `includes`: a string includes only strings no longer than itself; `ContainsEmpty` gives the empty-string case |
| Text.ContainsEmpty | src/App.jsx:106-107 | every string includes the empty string |
| Text.StartsWith | src/App.jsx:156 | `startsWith`: the prefix is no longer than the string and equals its first characters; used by `IsRootId`, with `RootIds` as its instance |
| Text.LowerChar | src/App.jsx:104 | lowercases the ASCII capitals and leaves every other character alone |
| Text.ToLower | src/App.jsx:104 | lowercases character by character, keeping the length |
| Text.ToLowerIdempotent | src/App.jsx:104 | lowercasing twice is lowercasing once |
| Text.NatToString | src/App.jsx:96 | the row number is rendered as a non-empty string of decimal digits in canonical form: "0" for zero and no leading zero otherwise, so with `ParseNatToString` the rendering is exactly the one a template literal produces |
| Text.ParseNatToString | src/App.jsx:96 | the decimal rendering reads back as the same number |
| Text.NatToStringInjective | src/App.jsx:96 | distinct row numbers render differently |
| Roles.Label | src/App.jsx:31-35 | the `label` column of `LEADER_TYPES`; `ClassifyTeamLeader` and `ClassifyVicePresident` show it at work |
| Roles.Rank | src/App.jsx:30-36 | each role's position in the key order PRESIDENT, CEO, DIVISION, GROUP, TEAM |
| Roles.FirstMatch | src/App.jsx:140 | `keys.find(...)` is empty exactly when no key's label occurs; otherwise it is the key at the first index whose label occurs |
| Roles.FirstMatchAt | src/App.jsx:140 | the lookup returns the key at index `k` when its label occurs and no earlier key's does |
| Roles.Classify | src/App.jsx:140 | a badge is only given for a role whose label occurs in the position; `ClassifySome` and `ClassifyNone` give the exact first-match rule |
| Roles.ClassifySome | src/App.jsx:140 | a position gets badge `r` if and only if `r`'s label occurs in it and no label of an earlier key does |
| Roles.ClassifySomeSound | src/App.jsx:140 | a badge `r` implies `r`'s label occurs and no earlier label does |
| Roles.ClassifySomeComplete | src/App.jsx:140 | when `r`'s label occurs and no earlier label does, the badge is `r` |
| Roles.ClassifyNone | src/App.jsx:146 | the role is `null` if and only if no label of the table occurs in the position |
| Roles.ClassifyTeamLeader | src/App.jsx:35 | the title "팀리더" gets the TEAM badge |
| Roles.ClassifyEmpty | src/App.jsx:97 | an employee with no position cell (position `''`) gets no badge |
| Roles.ClassifyVicePresident | src/App.jsx:31 | a title that merely contains "사장", such as "부사장", gets the PRESIDENT badge, because the lookup is by substring |
| Pool.Cells | src/App.jsx:94 | a line has one cell per comma-separated piece |
| Pool.CellsTrimmed | src/App.jsx:94 | cell `i` is the `i`-th comma-separated piece with the surrounding white space trimmed off |
| Pool.Rows | src/App.jsx:94 | the text has one row per line, and always at least one |
| Pool.KeptRows | src/App.jsx:95 | every row kept after the header has at least five cells |
| Pool.ToEmployee | src/App.jsx:95-97 | the record a kept row becomes; its fields are stated through `ParseCsvSnoc` |
| Pool.ParseCsv | src/App.jsx:95-98 | one employee per kept row, numbered consecutively `emp-0`, `emp-1`, … over the kept rows only |
| Pool.EmployeeId | src/App.jsx:96 | the id `emp-${i}` of the `i`-th kept row; `EmployeeIdInjective` makes it one-to-one |
| Pool.EmployeeIdInjective | src/App.jsx:96 | different row numbers give different employee ids |
| Pool.ParseCsvUniqueIds | src/App.jsx:96 | the employees of one load have pairwise distinct ids |
| Pool.ParseCsvHeaderOnly | src/App.jsx:95 | a text of one line (the header) yields no employees |
| Pool.RowsSnoc | src/App.jsx:94 | appending a line appends its cells as one more row |
| Pool.KeptRowsSnoc | src/App.jsx:95 | the appended row is kept exactly when it has five cells or more |
| Pool.ParseCsvSnoc | src/App.jsx:95-98 | appending a line appends the next employee, with cells 0-4 as no/division/group/team/name and cell 5 (or `''`) as position, or nothing when the line has fewer than five cells |
| Pool.ParseCsvSnocKept | src/App.jsx:95-98 | a kept line becomes the employee numbered after the existing ones |
| Pool.CellsOf | src/App.jsx:94 | a line joined from comma-free fields has one cell per field, and each cell is its field trimmed: padding and a trailing carriage return are dropped |
| Pool.CellsOfClean | src/App.jsx:94 | comma-free fields without surrounding white space survive the join-split-trim round trip unchanged |
| Pool.Matches | src/App.jsx:104-107 | an empty term matches every employee; `MatchesIgnoresTermCase` states the case-insensitivity |
| Pool.FilteredPool | src/App.jsx:103-109 | the search result is an order-preserving sub-list of the pool holding exactly the employees whose lowercased name, division, team or position includes the lowercased term (the group is not searched) |
| Pool.FilteredPoolEmptyTerm | src/App.jsx:103-109 | an empty term keeps the whole pool |
| Pool.MatchesIgnoresTermCase | src/App.jsx:104 | a term and its lowercase match the same employees |
| Pool.VisibleIds | src/App.jsx:111 | "select all" selects exactly the ids of the shown employees |
| Pool.Toggled | src/App.jsx:113-117 | toggling flips membership of the clicked id and of no other id |
| Pool.ToggleTwice | src/App.jsx:113-117 | toggling the same id twice restores the selection |
| Pool.SelectedEmployees | src/App.jsx:138 | the selected employees form an order-preserving sub-list of the pool, holding exactly the pool employees whose id is selected |
| Pool.SelectedEmployeesExact | src/App.jsx:138 | in a pool without repeated records, any order-preserving sub-list holding exactly the selected employees is `SelectedEmployees`, so the batch order is fixed |
| Pool.FilteredPoolExact | src/App.jsx:103-109 | likewise any order-preserving sub-list holding exactly the matching employees is the search result |
| Pool.ParseCsvDistinct | src/App.jsx:95-98 | a loaded pool has no repeated record, so both exactness lemmas apply to it |
| Nodes.IsRootId | src/App.jsx:156 | `id.startsWith('root-')`, the test of the delete guard and of the hidden delete button (line 265); `RootIds` shows both initial ids pass it |
| Nodes.Find | src/App.jsx:120 | `find` returns nothing exactly when no card has the id, and otherwise the first card with it |
| Nodes.FindUnique | src/App.jsx:190 | with unique ids, `find` returns the one card with the id |
| Nodes.FindAppend | src/App.jsx:133 | appending a card does not change what a present id finds |
| Nodes.UniqueIdsCons | src/App.jsx:133 | a list with one more card in front keeps ids unique exactly when the new id is new |
| Nodes.FilterKeepsUniqueIds | src/App.jsx:164 | filtering cards keeps ids unique |
| Closure.Desc | src/App.jsx:158-163 | the collected set contains the seed and only ids of cards |
| Closure.StepShrinks | src/App.jsx:160-163 | a pass that changes the set adds an id of a card, so the loop's measure shrinks |
| Closure.DescClosed | src/App.jsx:158-163 | no card whose parent was collected is left out |
| Closure.DescLeast | src/App.jsx:158-163 | the closure is the smallest closed set containing the seed |
| Closure.DescSupported | src/App.jsx:162 | every added id belongs to a card whose parent is collected |
| Closure.DescMonotone | src/App.jsx:162 | a bigger seed set collects at least as much |
| Closure.DescOfLeaf | src/App.jsx:162 | a card that no card names as parent collects only itself |
| Closure.DescByLinks | src/App.jsx:216 | the closure depends only on the (id, parent) pairs, and fewer pairs give a smaller closure |
| Closure.AcyclicByLinks | src/App.jsx:164 | removing or keeping parent links never creates a cycle |
| Closure.Children | src/App.jsx:216 | `kids` holds exactly the cards whose parent is `p` |
| Closure.ChildBelow | src/App.jsx:216-218 | a child lies below its parent, and in an acyclic graph it reaches strictly less |
| Closure.ChildrenShrink | src/App.jsx:215-219 | the recursion of `isDescendant` goes to strictly smaller closures, so it terminates on an acyclic graph |
| Closure.IsDescendantIff | src/App.jsx:215-219 | `isDescendant(p, c)` holds if and only if `c` is below `p` in the closure and `c` is not `p` |
| Closure.IsDescendant | src/App.jsx:215-219 | the recursive check terminates on an acyclic chart, and a positive answer names a card strictly below `p` (the converse is `IsDescendantComplete`, both together `IsDescendantIff`) |
| Closure.IsDescendantComplete | src/App.jsx:215-219 | every card below `p` other than `p` is reported |
| Closure.DescSplit | src/App.jsx:216-218 | what is strictly below `p` is below one of `p`'s children |
| Closure.ClosedByIndex | src/App.jsx:162 | a pass that examined every index and added nothing leaves a closed set |
| Closure.Sweep | src/App.jsx:162 | one `forEach` pass only grows the set, within any closed bound; an unchanged size proves the set closed |
| Closure.CollectDoomed | src/App.jsx:158-163 | the `while` loop terminates and collects exactly the card and every card whose parent chain reaches it |
| Chart.InitialWellFormed | src/App.jsx:48-67 | the two initial cards form a well-formed chart |
| Chart.ReachesRoot | src/App.jsx:473 | every card of a well-formed chart lies below the first card, the one the chart is drawn from |
| Chart.AppendDesc | src/App.jsx:133 | an appended fresh card reaches nothing new except itself |
| Chart.AppendWellFormed | src/App.jsx:133 | appending a fresh card below an org card keeps the chart well formed |
| Chart.SameShapeLinks | src/App.jsx:168 | lists equal in ids, parents and kinds have the same links and ids |
| Chart.SameShapeCards | src/App.jsx:168 | such lists agree on unique ids and on persons being leaves |
| Chart.SameShapeWellFormed | src/App.jsx:168 | captions and levels play no part in the chart invariant |
| Chart.Without | src/App.jsx:164 | the kept cards are exactly those outside the doomed set, in their original order |
| Chart.WithoutExact | src/App.jsx:164 | with unique ids, any order-preserving sub-list holding exactly the cards outside the doomed set is the result of `Without`, so its contract fixes the list |
| Chart.WithoutWellFormed | src/App.jsx:164 | removing a closed set without root cards keeps the chart well formed, with the president still first |
| Chart.Reparent | src/App.jsx:222 | the `map` keeps the length, changes only `parentId`, and changes it only on the dragged card, to the target |
| Chart.ReparentMembers | src/App.jsx:222 | after the relink, every card but the dragged one is unchanged and the ids are the same |
| Chart.ReparentDescBound | src/App.jsx:222 | after a relink, a set reaches at most what it and the moved card reached before |
| Chart.ReparentDescAvoiding | src/App.jsx:222 | when the target was not reachable from a set, the relink adds nothing to what the set reaches |
| Chart.ReparentAcyclic | src/App.jsx:213-222 | relinking a card below a target it does not reach keeps the parent graph acyclic |
| Chart.ReparentWellFormed | src/App.jsx:213-222 | relinking a non-president card below an org card it does not reach keeps the chart well formed |
| Edits.NewOrg | src/App.jsx:123-131 | an exception unit has level -1 and label "예외 조직"; a unit from the level menu has level `levelIdx + 1` and that level's name; otherwise the label is "신규 조직" and the level is the parent's plus one, or 1 without a parent |
| Edits.AddNode | src/App.jsx:119-133 | the existing cards stay unchanged as a prefix and exactly one card is appended, the `NewOrg` card: its caption, level and kind follow the rule of lines 126-130 |
| Edits.AddNodeWellFormed | src/App.jsx:119-135 | adding a unit below an org card with a fresh id keeps the chart well formed |
| Edits.PersonNode | src/App.jsx:140-149 | a person card has the employee's name as label and position as original position, level -1 and the given parent; its badge is `Classify(position)`, the first key whose label occurs (see `ClassifySome`), and there is none exactly when no leader label occurs |
| Edits.PersonNodes | src/App.jsx:139-150 | one person card per employee, in the employees' order |
| Edits.AddSelected | src/App.jsx:137-151 | the old cards stay as a prefix, and the appended cards are exactly the person cards of the selected employees in pool order (`PersonNodes` of `SelectedEmployees`); every selected pool employee appears below the parent |
| Edits.AppendAllWellFormed | src/App.jsx:151 | appending cards with distinct fresh ids below one org card keeps the chart well formed |
| Edits.AppendFirst | src/App.jsx:151 | after the first card of such a batch is appended, the chart is well formed and the rest of the batch still has fresh ids below an org card |
| Edits.PersonNodesWellFormed | src/App.jsx:151 | appending person cards with distinct fresh ids below an org card keeps the chart well formed |
| Edits.FreshIdsRest | src/App.jsx:142 | after one id is used, the remaining batch ids are still fresh |
| Edits.AddSelectedWellFormed | src/App.jsx:137-153 | a batch insert below an org card keeps the chart well formed |
| Edits.DeleteAsWritten | src/App.jsx:155-166 | the source's delete: a `root-` id leaves the list unchanged; otherwise exactly the card and its descendants go, and the rest keep their order |
| Edits.DeleteNode | src/App.jsx:155-166 | the corrected delete: the list is unchanged unless the card and everything below it are free of `root-` ids; then exactly those cards go, order is kept, and no `root-` card is ever removed |
| Edits.RootIds | src/App.jsx:156 | both initial cards have ids starting with `root-` |
| Edits.DeleteNodeWellFormed | src/App.jsx:155-166 | deleting keeps the chart well formed (the president stays first, the CEO card survives) |
| Edits.DeleteNodeRemovesDescendants | src/App.jsx:158-164 | a card is removed if and only if it is the deleted card or `isDescendant` of it |
| Edits.UpdateLabel | src/App.jsx:168 | exactly the cards with the id get the new label, and every other field stays |
| Edits.UpdateLabelLastWins | src/App.jsx:168 | renaming twice equals renaming once with the last label |
| Edits.UpdateLabelWellFormed | src/App.jsx:168 | renaming keeps the chart well formed |
| Edits.Drop | src/App.jsx:185-226 | a drop appends at most one card, and only for a pool employee on an org card; then the result is the old list, untouched, followed by `PersonNode` of the employee below the target; old cards keep every field except possibly their parent |
| Edits.DropNoOps | src/App.jsx:190-220 | a drop is a no-op when the target is missing or not an org card, when the dragged card is the target, and when an org card is dropped onto one of its descendants |
| Edits.DropMoves | src/App.jsx:222 | any other card drop onto an org card is exactly the relink of the dragged card |
| Edits.DropWellFormed | src/App.jsx:185-226 | every drop the interface can make keeps the chart well formed, in particular acyclic |
| Edits.PersonLeaf | src/App.jsx:214 | a dragged card that is not an org card reaches only itself, so moving it without the descendant check is safe |
| Edits.TotalStats | src/App.jsx:381-388 | the header counters; stated by `StatsAppend`, `StatsSingle`, `StatsInitial` and the `StatsAdd…` lemmas |
| Edits.StatsAppend | src/App.jsx:381-388 | the counters are additive over the list |
| Edits.StatsSingle | src/App.jsx:381-388 | one card adds one to the counter of its level (2, 3, 4, unless an exception unit) and to the head count if it is a person |
| Edits.StatsInitial | src/App.jsx:381-388 | the initial chart shows zero on every counter |
| Edits.StatsAddNodeFromMenu | src/App.jsx:383-385 | a unit from menu entry `k` moves the division counter iff `k` = 1, groups iff `k` = 2, teams iff `k` = 3, and never the head count |
| Edits.StatsAddException | src/App.jsx:383-385 | an exception unit moves no counter |
| Edits.StatsAddSelected | src/App.jsx:386 | a batch insert raises the head count by the number of selected employees and nothing else |
| Edits.RootCeoLost | src/App.jsx:156 | adding a unit below the president, dropping the CEO card onto it and deleting the unit removes the CEO card under the source's delete, but not under the corrected one |
| Edits.RootCeoAdded | src/App.jsx:119-133 | the first step of that sequence: the unit added below the president is an org card of a well-formed chart and nothing hangs below the CEO card |
| Editor.App.constructor | src/App.jsx:70-77 | the editor starts with the initial cards, an empty pool and selection, an empty search term and the default levels |
| Editor.App.LoadPool | src/App.jsx:94-99 | the pool becomes the parse of the text; nothing else changes |
| Editor.App.SetSearchTerm | src/App.jsx:410 | only the search term changes |
| Editor.App.SelectAllFiltered | src/App.jsx:111 | the selection becomes the ids of the shown employees |
| Editor.App.DeselectAll | src/App.jsx:112 | the selection becomes empty |
| Editor.App.ToggleSelect | src/App.jsx:113-117 | the selection is the old one with the id toggled |
| Editor.App.AddNode | src/App.jsx:119-135 | the chart becomes `Edits.AddNode` of the old chart and stays well formed |
| Editor.App.AddSelectedToOrg | src/App.jsx:137-153 | the chart gains the selected employees as person cards, stays well formed, and the selection is emptied |
| Editor.App.DeleteNode | src/App.jsx:155-166 | the corrected guard, the collecting loop and the filter together give `Edits.DeleteNode` of the old chart, which stays well formed |
| Editor.App.UpdateLabel | src/App.jsx:168 | the chart becomes the renamed chart and stays well formed |
| Editor.App.HandleDrop | src/App.jsx:185-226 | the chart becomes the drop's result and stays well formed |
| Editor.App.Reset | src/App.jsx:467 | the chart is back to the two initial cards; pool and selection stay |

## Left out

- The network fetch of the sheet, the loading flag and the error log (src/App.jsx:89-93, 99-100): only the text-to-employees step is modelled, with the text as a parameter.
- The font `<link>` injection and all rendering, layout and styling. The one exception is the drawing from the first card, stated by `Chart.ReachesRoot`.
- Drag event plumbing (`dataTransfer`, the JSON round trip of the employee, `draggedNode` highlighting): a drop takes its payload as a value.
- Id generation from `Date.now()` and `Math.random()`: ids are parameters with freshness preconditions. The pool-drop id has no random part in the source, so its freshness is an assumption there too.
- Text.ToLower: only the ASCII capitals are lowercased, not the full Unicode `toLowerCase`.
- Editing a level's colour or name (src/App.jsx:442-447): `levels` is a field that no method changes.
- The UI-only state `activeMenu`, `sidebarTab` and `draggedNode`.
- The `type` parameter of `addNode`: every call site passes `'org'`, so new units are always org cards.
- Edits.Drop: the source finds the target in the rendered `chartNodes` but maps over the updater's `prev`. The model treats both as the same list, which React guarantees only when no other update is pending.
- Edits.AddNode: the same snapshot difference. The parent is looked up in the rendered `chartNodes` (src/App.jsx:120) but the card is appended to the updater's `prev` (src/App.jsx:133). The model uses one list for both.
- Editor.App.DeleteNode: runs the corrected guard of `Edits.DeleteNode`, not the source's guard (src/App.jsx:155-166 refuses only a clicked `root-` id). On the input of `Edits.RootCeoLost` the class keeps the CEO card where the source removes it. So the "CEO card present" part of `Valid()` holds for the corrected program only; the source as written is modelled by `Edits.DeleteAsWritten`.
- Editor.App.AddNode: requires the parent to be an org card of the chart. Every call site (src/App.jsx:319, 326, 329) passes the id of the org card whose menu was opened. The missing-parent branch of the level rule is still modelled, in `Edits.NewOrg`.
- Editor.App.AddSelectedToOrg: requires the parent to be an org card. The source does not check this, but its only caller (src/App.jsx:337) is an org card's button. `Edits.AddSelected` itself accepts any parent.
- Editor.App.HandleDrop: requires the payload to be one the interface can produce:
  - the president card is not draggable (src/App.jsx:242);
  - a card tagged as a person is a person card;
  - a pool drop gets a fresh id.
- Edits.TotalStats: has no contract of its own. Its behaviour is stated by the `Stats…` lemmas.

## Findings

| source | as written | input that shows it | evidently intended | confidence | as-written member | corrected member |
|---|---|---|---|---|---|---|
| src/App.jsx:156 | `deleteNode` refuses only when the clicked id starts with `root-`, then removes the clicked card's whole closure | add a unit below the president card, drag the CEO card (draggable, src/App.jsx:242) onto that unit, then delete the unit: the CEO card is collected and removed | `root-` cards are never deleted: the delete button is hidden on them and the handler refuses them | medium, not executed | Edits.RootCeoLost | Edits.DeleteNode |
