/** The employee pool: the CSV text the sheet endpoint returns is turned into
    employee records (src/App.jsx `fetchData`, without the fetch itself), the
    pool is searched by a free-text term (`filteredPool`), and a set of
    employee ids is kept as the selection. */
module Pool {
  import opened Util
  import opened Text

  datatype Employee = Employee(
    id: string, no: string, division: string, group: string,
    team: string, name: string, position: string)

  /** One line's cells: `row.split(',').map(cell => cell.trim())`. */
  function Cells(line: string): (cells: seq<string>)
    ensures |cells| == |Split(line, ',')|
  {
    var raw := Split(line, ',');
    seq(|raw|, i requires 0 <= i < |raw| => Trim(raw[i]))
  }

  /** Cell `i` is the `i`-th comma-separated piece of the line trimmed
      (`TrimStrips` says what trimming removes). */
  lemma CellsTrimmed(line: string)
    ensures |Cells(line)| == |Split(line, ',')|
    ensures forall i :: 0 <= i < |Cells(line)| ==> Cells(line)[i] == Trim(Split(line, ',')[i])
  {
  }

  /** `text.split('\n').map(...)`: every line of the text as cells. */
  function Rows(text: string): (rows: seq<seq<string>>)
    ensures |rows| == |Split(text, '\n')| >= 1
  {
    var lines := Split(text, '\n');
    seq(|lines|, i requires 0 <= i < |lines| => Cells(lines[i]))
  }

  /** The id the `i`-th kept row receives: `emp-${i}`. */
  function EmployeeId(i: nat): string
  {
    "emp-" + NatToString(i)
  }

  /** Distinct row numbers give distinct employee ids. */
  lemma EmployeeIdInjective(i: nat, j: nat)
    requires EmployeeId(i) == EmployeeId(j)
    ensures i == j
  {
    assert NatToString(i) == EmployeeId(i)[4..];
    assert NatToString(j) == EmployeeId(j)[4..];
    NatToStringInjective(i, j);
  }

  /** A row kept by the parse becomes employee number `i`: cells 0 to 4 in
      column order, and cell 5 as the position, or "" when there is none. */
  function ToEmployee(i: nat, r: seq<string>): Employee
    requires |r| >= 5
  {
    Employee(EmployeeId(i), r[0], r[1], r[2], r[3], r[4], if |r| > 5 then r[5] else "")
  }

  predicate LongEnough(r: seq<string>)
  {
    |r| >= 5
  }

  /** The rows after the header that have at least five cells. */
  function KeptRows(text: string): (kept: seq<seq<string>>)
    ensures forall i :: 0 <= i < |kept| ==> |kept[i]| >= 5
  {
    var kept := Filter(Rows(text)[1..], LongEnough);
    assert forall i :: 0 <= i < |kept| ==> kept[i] in kept;
    kept
  }

  /** `rows.slice(1).filter(r => r.length >= 5).map((r, i) => ...)`. */
  function ParseCsv(text: string): (pool: seq<Employee>)
    ensures |pool| == |KeptRows(text)|
    ensures forall i :: 0 <= i < |pool| ==> pool[i].id == EmployeeId(i)
  {
    var kept := KeptRows(text);
    seq(|kept|, i requires 0 <= i < |kept| => ToEmployee(i, kept[i]))
  }

  /** Employees loaded from one text have pairwise distinct ids. */
  lemma ParseCsvUniqueIds(text: string)
    ensures var pool := ParseCsv(text);
      forall i, j :: 0 <= i < j < |pool| ==> pool[i].id != pool[j].id
  {
    var pool := ParseCsv(text);
    forall i, j | 0 <= i < j < |pool| ensures pool[i].id != pool[j].id {
      if pool[i].id == pool[j].id {
        EmployeeIdInjective(i, j);
      }
    }
  }

  /** A text of a single line (the header alone) yields no employees. */
  lemma ParseCsvHeaderOnly(header: string)
    requires '\n' !in header
    ensures ParseCsv(header) == []
  {
    assert Split(header, '\n') == [header];
  }

  lemma RowsSnoc(text: string, line: string)
    requires '\n' !in line
    ensures Rows(text + "\n" + line) == Rows(text) + [Cells(line)]
  {
    assert text + "\n" + line == text + ['\n'] + line;
    SplitSnoc(text, '\n', line);
    var lines := Split(text + "\n" + line, '\n');
    var a := Rows(text + "\n" + line);
    var b := Rows(text) + [Cells(line)];
    forall i | 0 <= i < |a| ensures a[i] == b[i] {
      assert a[i] == Cells(lines[i]);
    }
  }

  lemma KeptRowsSnoc(text: string, line: string)
    requires '\n' !in line
    ensures KeptRows(text + "\n" + line) ==
      KeptRows(text) + (if |Cells(line)| >= 5 then [Cells(line)] else [])
  {
    RowsSnoc(text, line);
    var rows := Rows(text);
    assert (rows + [Cells(line)])[1..] == rows[1..] + [Cells(line)];
    FilterAppend(rows[1..], [Cells(line)], LongEnough);
  }

  /** Appending one line to the text appends at most one employee: the line's
      row as the next employee when it has five cells or more, nothing when
      it has fewer. Together with `ParseCsvHeaderOnly` this determines the
      parse of every text line by line. */
  lemma ParseCsvSnoc(text: string, line: string)
    requires '\n' !in line
    ensures var cells := Cells(line);
      ParseCsv(text + "\n" + line) ==
        ParseCsv(text) + (if |cells| >= 5 then [ToEmployee(|ParseCsv(text)|, cells)] else [])
  {
    KeptRowsSnoc(text, line);
    if |Cells(line)| >= 5 {
      ParseCsvSnocKept(text, line);
    } else {
      assert KeptRows(text + "\n" + line) == KeptRows(text);
    }
  }

  lemma ParseCsvSnocKept(text: string, line: string)
    requires KeptRows(text + "\n" + line) == KeptRows(text) + [Cells(line)]
    requires |Cells(line)| >= 5
    ensures ParseCsv(text + "\n" + line) == ParseCsv(text) + [ToEmployee(|ParseCsv(text)|, Cells(line))]
  {
    var a := ParseCsv(text + "\n" + line);
    var b := ParseCsv(text);
    var c := b + [ToEmployee(|b|, Cells(line))];
    var k2 := KeptRows(text + "\n" + line);
    var k1 := KeptRows(text);
    forall i | 0 <= i < |a| ensures a[i] == c[i] {
      if i < |b| {
        assert k2[i] == k1[i];
      } else {
        assert k2[i] == Cells(line);
      }
    }
  }

  /** A line made of comma-free fields has one cell per field, and each
      cell is its field with the surrounding white space (padding, a
      trailing carriage return) removed. */
  lemma CellsOf(fields: seq<string>)
    requires |fields| >= 1
    requires forall i :: 0 <= i < |fields| ==> ',' !in fields[i]
    ensures |Cells(Join(fields, ','))| == |fields|
    ensures forall i :: 0 <= i < |fields| ==> Cells(Join(fields, ','))[i] == Trim(fields[i])
  {
    SplitJoin(fields, ',');
  }

  /** Fields that are already clean are read back exactly. */
  lemma CellsOfClean(fields: seq<string>)
    requires |fields| >= 1
    requires forall i :: 0 <= i < |fields| ==> ',' !in fields[i]
    requires forall i :: 0 <= i < |fields| && |fields[i]| > 0 ==>
      !IsSpace(fields[i][0]) && !IsSpace(fields[i][|fields[i]| - 1])
    ensures Cells(Join(fields, ',')) == fields
  {
    CellsOf(fields);
    forall i | 0 <= i < |fields| ensures Trim(fields[i]) == fields[i] {
      TrimFixed(fields[i]);
    }
  }

  /** The search predicate of `filteredPool`: the lowercased term occurs in
      the lowercased name, division, team or position (not in the group). */
  predicate Matches(e: Employee, term: string)
    ensures term == "" ==> Matches(e, term)
  {
    ContainsEmpty(ToLower(e.name));
    var lower := ToLower(term);
    Contains(ToLower(e.name), lower) || Contains(ToLower(e.division), lower)
    || Contains(ToLower(e.team), lower) || Contains(ToLower(e.position), lower)
  }

  /** `filteredPool`: the employees that match the term, in pool order. */
  function FilteredPool(pool: seq<Employee>, term: string): (r: seq<Employee>)
    ensures SubSeq(r, pool)
    ensures forall e :: e in r <==> e in pool && Matches(e, term)
  {
    FilterIsSubSeq(pool, e => Matches(e, term));
    Filter(pool, e => Matches(e, term))
  }

  /** An empty search term keeps the whole pool. */
  lemma FilteredPoolEmptyTerm(pool: seq<Employee>)
    ensures FilteredPool(pool, "") == pool
  {
    assert forall i :: 0 <= i < |pool| ==> Matches(pool[i], "");
    FilterAll(pool, e => Matches(e, ""));
  }

  /** Searching is case-insensitive in the term. */
  lemma MatchesIgnoresTermCase(e: Employee, term: string)
    ensures Matches(e, ToLower(term)) == Matches(e, term)
  {
    ToLowerIdempotent(term);
  }

  /** `selectAllFiltered`: the ids of the employees the current search shows. */
  function VisibleIds(pool: seq<Employee>, term: string): (ids: set<string>)
    ensures forall e :: e in pool && Matches(e, term) ==> e.id in ids
    ensures forall id :: id in ids ==> exists e :: e in pool && Matches(e, term) && e.id == id
  {
    set e | e in FilteredPool(pool, term) :: e.id
  }

  /** A pool without repeated records has only one order-preserving
      sub-list of its selected employees, so the contract of
      `SelectedEmployees` fixes the list (and with it the order of a batch
      insert). */
  lemma SelectedEmployeesExact(pool: seq<Employee>, selected: set<string>, r: seq<Employee>)
    requires Distinct(pool) && SubSeq(r, pool)
    requires forall e :: e in r <==> e in pool && e.id in selected
    ensures r == SelectedEmployees(pool, selected)
  {
    SubSeqDetermined(r, SelectedEmployees(pool, selected), pool);
  }

  /** Likewise the search result is fixed by its contract. */
  lemma FilteredPoolExact(pool: seq<Employee>, term: string, r: seq<Employee>)
    requires Distinct(pool) && SubSeq(r, pool)
    requires forall e :: e in r <==> e in pool && Matches(e, term)
    ensures r == FilteredPool(pool, term)
  {
    SubSeqDetermined(r, FilteredPool(pool, term), pool);
  }

  /** A loaded pool has no repeated record. */
  lemma ParseCsvDistinct(text: string)
    ensures Distinct(ParseCsv(text))
  {
    ParseCsvUniqueIds(text);
  }

  /** `toggleSelect`'s effect on the selection: `id` flips, nothing else changes. */
  function Toggled(selected: set<string>, id: string): (r: set<string>)
    ensures id in r <==> id !in selected
    ensures forall x :: x != id ==> (x in r <==> x in selected)
  {
    if id in selected then selected - {id} else selected + {id}
  }

  /** Toggling the same id twice restores the selection. */
  lemma ToggleTwice(selected: set<string>, id: string)
    ensures Toggled(Toggled(selected, id), id) == selected
  {
  }

  predicate IsSelected(selected: set<string>, e: Employee)
  {
    e.id in selected
  }

  /** `employeePool.filter(e => selectedIds.has(e.id))`. */
  function SelectedEmployees(pool: seq<Employee>, selected: set<string>): (r: seq<Employee>)
    ensures SubSeq(r, pool)
    ensures forall e :: e in r <==> e in pool && e.id in selected
  {
    FilterIsSubSeq(pool, e => IsSelected(selected, e));
    Filter(pool, e => IsSelected(selected, e))
  }
}
