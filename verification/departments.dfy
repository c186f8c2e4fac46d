/** The two aggregation loops of csv_parsing.py, over rows that have
    already been read: `read_department_hierarchy` groups the sections of
    each department, and `calculate_department_summary` computes each
    department's head count and minimum, maximum and total salary.

    A row is the list of fields `csv.reader` yields for one data line
    (column 1 is the department, column 2 the section, column 5 the
    salary). Python dicts keep insertion order, which is observable when
    the result is printed or saved, so a dict here is its entries together
    with its keys in insertion order. */
module Departments {
  import opened Wrappers
  import opened Seqs

  type Row = seq<string>

  /** A Python dict with string keys: the keys in insertion order and the entries. */
  datatype Dict<V> = Dict(keys: seq<string>, entries: map<string, V>)

  /** The keys list and the entries agree, and no key is listed twice. */
  ghost predicate WellFormed<V>(d: Dict<V>)
  {
    NoDups(d.keys) && forall k :: k in d.entries <==> k in d.keys
  }

  /** `if key not in d: d[key] = initial`. */
  function SetDefault<V>(d: Dict<V>, key: string, initial: V): (r: Dict<V>)
    requires WellFormed(d)
    ensures WellFormed(r) && key in r.entries
    ensures key in d.entries ==> r == d
    ensures key !in d.entries ==> r.keys == d.keys + [key] && r.entries == d.entries[key := initial]
  {
    if key in d.entries then d
    else
      assert forall i :: 0 <= i < |d.keys| ==> d.keys[i] != key;
      Dict(d.keys + [key], d.entries[key := initial])
  }

  /** `d[key] = value` for a key already present: the key order is unchanged. */
  function Put<V>(d: Dict<V>, key: string, value: V): (r: Dict<V>)
    requires WellFormed(d) && key in d.entries
    ensures WellFormed(r)
    ensures r.keys == d.keys && r.entries == d.entries[key := value]
  {
    Dict(d.keys, d.entries[key := value])
  }

  /** Column `c` of every row. */
  function Column(rows: seq<Row>, c: nat): (col: seq<string>)
    requires forall i :: 0 <= i < |rows| ==> |rows[i]| > c
    ensures |col| == |rows|
    ensures forall i :: 0 <= i < |rows| ==> col[i] == rows[i][c]
  {
    seq(|rows|, i requires 0 <= i < |rows| => rows[i][c])
  }

  /** Column `c` of all rows but the last is the column of all rows without its last entry. */
  lemma ColumnPrefix(rows: seq<Row>, c: nat)
    requires |rows| > 0 && forall i :: 0 <= i < |rows| ==> |rows[i]| > c
    ensures Column(rows[..|rows|-1], c) == Column(rows, c)[..|rows|-1]
  {
  }

  /** A value is in column `c` exactly when it is in the column of all rows
      but the last, or in the last row. */
  lemma InColumnSnoc(rows: seq<Row>, c: nat, x: string)
    requires |rows| > 0 && forall i :: 0 <= i < |rows| ==> |rows[i]| > c
    ensures x in Column(rows, c) <==> x in Column(rows[..|rows|-1], c) || x == rows[|rows|-1][c]
  {
    ColumnPrefix(rows, c);
    assert Column(rows, c) == Column(rows, c)[..|rows|-1] + [rows[|rows|-1][c]];
  }

  // ----- read_department_hierarchy ---------------------------------------

  /** One iteration of the grouping loop (csv_parsing.py lines 38-43). */
  function AddSection(h: Dict<seq<string>>, department: string, section: string): (r: Dict<seq<string>>)
    requires WellFormed(h)
    ensures WellFormed(r)
    ensures department in r.entries
    ensures r.entries[department] ==
      (if department in h.entries then h.entries[department] else []) + [section]
    ensures forall k :: k != department ==> (k in r.entries <==> k in h.entries)
    ensures forall k :: k != department && k in h.entries ==> r.entries[k] == h.entries[k]
  {
    var h' := SetDefault(h, department, []);
    Put(h', department, h'.entries[department] + [section])
  }

  /** The grouping loop of `read_department_hierarchy`: a row with fewer
      than three fields stops it with `IndexError`. */
  function Hierarchy(rows: seq<Row>): (r: Result<Dict<seq<string>>>)
    ensures r.Ok? <==> forall i :: 0 <= i < |rows| ==> |rows[i]| >= 3
    ensures r.Ok? ==> WellFormed(r.value)
    ensures r.Err? ==> r.error == IndexError
  {
    if |rows| == 0 then Ok(Dict([], map[]))
    else
      var p := rows[..|rows|-1];
      var row := rows[|rows|-1];
      assert forall i :: 0 <= i < |p| ==> p[i] == rows[i];
      var h :- Hierarchy(p);
      if |row| < 3 then Err(IndexError) else Ok(AddSection(h, row[1], row[2]))
  }

  /** The sections of the rows of `department`, in row order, repeats kept. */
  function SectionsOf(rows: seq<Row>, department: string): (ss: seq<string>)
    requires forall i :: 0 <= i < |rows| ==> |rows[i]| >= 3
  {
    if |rows| == 0 then []
    else
      var row := rows[|rows|-1];
      SectionsOf(rows[..|rows|-1], department) + (if row[1] == department then [row[2]] else [])
  }

  /** A department lists one section per row of it. */
  lemma {:induction false} SectionsOfCount(rows: seq<Row>, department: string)
    requires forall i :: 0 <= i < |rows| ==> |rows[i]| >= 3
    ensures |SectionsOf(rows, department)| == Count(Column(rows, 1), department)
    decreases |rows|
  {
    if |rows| > 0 {
      SectionsOfCount(rows[..|rows|-1], department);
      ColumnPrefix(rows, 1);
    }
  }

  /** The departments appear in the order of their first row, each once. */
  lemma {:induction false} HierarchyKeys(rows: seq<Row>)
    requires forall i :: 0 <= i < |rows| ==> |rows[i]| >= 3
    ensures Hierarchy(rows).value.keys == Dedup(Column(rows, 1))
    decreases |rows|
  {
    if |rows| > 0 {
      var p := rows[..|rows|-1];
      HierarchyKeys(p);
      ColumnPrefix(rows, 1);
    }
  }

  /** One step of the grouping loop over rows that all have a section. */
  lemma HierarchySnoc(rows: seq<Row>)
    requires |rows| > 0 && forall i :: 0 <= i < |rows| ==> |rows[i]| >= 3
    ensures Hierarchy(rows).value ==
      AddSection(Hierarchy(rows[..|rows|-1]).value, rows[|rows|-1][1], rows[|rows|-1][2])
  {
  }

  /** One step of the grouping loop keeps every department's list equal to
      the sections seen so far. */
  lemma AddSectionLists(h: Dict<seq<string>>, rowDepartment: string, section: string,
                        department: string, ss: seq<string>)
    requires WellFormed(h)
    requires department in h.entries ==> h.entries[department] == ss
    requires department !in h.entries ==> ss == []
    ensures department in AddSection(h, rowDepartment, section).entries <==>
      department in h.entries || department == rowDepartment
    ensures department in AddSection(h, rowDepartment, section).entries ==>
      AddSection(h, rowDepartment, section).entries[department] ==
        ss + (if rowDepartment == department then [section] else [])
  {
    if rowDepartment != department {
      assert ss + [] == ss;
    }
  }

  /** Each department's list holds the sections of its rows, in row order. */
  lemma {:induction false} HierarchySections(rows: seq<Row>, department: string)
    requires forall i :: 0 <= i < |rows| ==> |rows[i]| >= 3
    ensures department in Hierarchy(rows).value.entries <==> department in Column(rows, 1)
    ensures department in Hierarchy(rows).value.entries ==>
      Hierarchy(rows).value.entries[department] == SectionsOf(rows, department)
    decreases |rows|
  {
    if |rows| > 0 {
      var p := rows[..|rows|-1];
      var row := rows[|rows|-1];
      HierarchySnoc(rows);
      HierarchySections(p, department);
      InColumnSnoc(rows, 1, department);
      if department !in Column(p, 1) {
        SectionsOfEmpty(p, department);
      }
      assert SectionsOf(rows, department) ==
        SectionsOf(p, department) + (if row[1] == department then [row[2]] else []);
      AddSectionLists(Hierarchy(p).value, row[1], row[2], department, SectionsOf(p, department));
    }
  }

  /** A department without rows has no sections. */
  lemma {:induction false} SectionsOfEmpty(rows: seq<Row>, department: string)
    requires forall i :: 0 <= i < |rows| ==> |rows[i]| >= 3
    requires department !in Column(rows, 1)
    ensures SectionsOf(rows, department) == []
    decreases |rows|
  {
    if |rows| > 0 {
      ColumnPrefix(rows, 1);
      SectionsOfEmpty(rows[..|rows|-1], department);
    }
  }

  /** The number of sections listed under each department, in key order. */
  ghost function ListSizes(h: Dict<seq<string>>): (sizes: seq<int>)
    requires WellFormed(h)
    ensures |sizes| == |h.keys|
  {
    seq(|h.keys|, i requires 0 <= i < |h.keys| => |h.entries[h.keys[i]]|)
  }

  /** Grouping loses no row: the lists hold as many entries as there are rows. */
  lemma HierarchyTotal(rows: seq<Row>)
    requires forall i :: 0 <= i < |rows| ==> |rows[i]| >= 3
    ensures Sum(ListSizes(Hierarchy(rows).value)) == |rows|
  {
    var h := Hierarchy(rows).value;
    var col := Column(rows, 1);
    HierarchyKeys(rows);
    forall i | 0 <= i < |h.keys| ensures ListSizes(h)[i] == CountsOf(Dedup(col), col)[i] {
      HierarchySections(rows, h.keys[i]);
      SectionsOfCount(rows, h.keys[i]);
    }
    assert ListSizes(h) == CountsOf(Dedup(col), col);
    DistinctCountsSum(col);
  }

  // ----- calculate_department_summary ------------------------------------

  /** The figures kept per department. Salaries are whole numbers here. */
  datatype Stats = Stats(count: nat, minSalary: int, maxSalary: int, totalSalary: int)

  /** Lines 125-130: count one more employee and fold the salary into the
      minimum, the maximum and the total. */
  function Record(s: Stats, salary: int): (r: Stats)
    ensures r.count == s.count + 1 && r.totalSalary == s.totalSalary + salary
    ensures r.minSalary <= s.minSalary && r.minSalary <= salary
    ensures r.minSalary == s.minSalary || r.minSalary == salary
    ensures r.maxSalary >= s.maxSalary && r.maxSalary >= salary
    ensures r.maxSalary == s.maxSalary || r.maxSalary == salary
  {
    var counted := s.(count := s.count + 1);
    var lowered := if salary < counted.minSalary then counted.(minSalary := salary) else counted;
    var raised := if salary > lowered.maxSalary then lowered.(maxSalary := salary) else lowered;
    raised.(totalSalary := raised.totalSalary + salary)
  }

  /** One iteration of the summary loop: a new department starts from a
      count and total of zero and the minimum and maximum both at the
      salary being added (lines 117-123). */
  function AddSalary(t: Dict<Stats>, department: string, salary: int): (r: Dict<Stats>)
    requires WellFormed(t)
    ensures WellFormed(r)
    ensures department in r.entries
    ensures r.entries[department] ==
      Record(if department in t.entries then t.entries[department] else Stats(0, salary, salary, 0), salary)
    ensures forall k :: k != department ==> (k in r.entries <==> k in t.entries)
    ensures forall k :: k != department && k in t.entries ==> r.entries[k] == t.entries[k]
  {
    var t' := SetDefault(t, department, Stats(0, salary, salary, 0));
    Put(t', department, Record(t'.entries[department], salary))
  }

  /** The exception a row raises before it changes anything: `IndexError`
      when it has no salary field (`row[1]` or `row[5]` is out of range),
      `ValueError` when `float` rejects the salary field. `parse` stands for
      `float` on the field. */
  function RowError(row: Row, parse: string -> Option<int>): Option<PyError>
  {
    if |row| < 6 then Some(IndexError)
    else if parse(row[5]).None? then Some(ValueError(row[5]))
    else None
  }

  /** The aggregation loop of `calculate_department_summary`; the first row
      that raises stops it. */
  function Summary(rows: seq<Row>, parse: string -> Option<int>): (r: Result<Dict<Stats>>)
    ensures r.Ok? <==> forall i :: 0 <= i < |rows| ==> RowError(rows[i], parse) == None
    ensures r.Ok? ==> WellFormed(r.value)
  {
    if |rows| == 0 then Ok(Dict([], map[]))
    else
      var p := rows[..|rows|-1];
      var row := rows[|rows|-1];
      assert forall i :: 0 <= i < |p| ==> p[i] == rows[i];
      var prev := Summary(p, parse);
      if prev.Err? then Err(prev.error)
      else match RowError(row, parse)
        case Some(e) => Err(e)
        case None => Ok(AddSalary(prev.value, row[1], parse(row[5]).value))
  }

  /** The exception that stops the loop is the one of the first row that
      raises. */
  lemma {:induction false} SummaryError(rows: seq<Row>, parse: string -> Option<int>)
    requires Summary(rows, parse).Err?
    ensures exists i :: (0 <= i < |rows| && RowError(rows[i], parse) == Some(Summary(rows, parse).error)
      && forall j :: 0 <= j < i ==> RowError(rows[j], parse) == None)
    decreases |rows|
  {
    var p := rows[..|rows|-1];
    assert forall i :: 0 <= i < |p| ==> p[i] == rows[i];
    if Summary(p, parse).Err? {
      SummaryError(p, parse);
      var i :| 0 <= i < |p| && RowError(p[i], parse) == Some(Summary(p, parse).error)
        && forall j :: 0 <= j < i ==> RowError(p[j], parse) == None;
      assert RowError(rows[i], parse) == Some(Summary(rows, parse).error);
    } else {
      assert RowError(rows[|p|], parse) == Some(Summary(rows, parse).error);
    }
  }

  /** Every row parses. */
  ghost predicate AllParse(rows: seq<Row>, parse: string -> Option<int>)
  {
    forall i :: 0 <= i < |rows| ==> RowError(rows[i], parse) == None
  }

  /** The salaries of the rows of `department`, in row order. */
  function SalariesOf(rows: seq<Row>, parse: string -> Option<int>, department: string): (ss: seq<int>)
    requires AllParse(rows, parse)
  {
    if |rows| == 0 then []
    else
      var p := rows[..|rows|-1];
      var row := rows[|rows|-1];
      assert forall i :: 0 <= i < |p| ==> p[i] == rows[i];
      SalariesOf(p, parse, department)
        + (if row[1] == department then [parse(row[5]).value] else [])
  }

  /** `s` holds the head count, the least and greatest salary and the
      salary total of the non-empty list `salaries`. */
  ghost predicate Describes(s: Stats, salaries: seq<int>)
  {
    && s.count == |salaries|
    && s.totalSalary == Sum(salaries)
    && s.minSalary in salaries
    && s.maxSalary in salaries
    && forall k :: 0 <= k < |salaries| ==> s.minSalary <= salaries[k] <= s.maxSalary
  }

  /** The figures of a department's first row. */
  lemma RecordFirst(salary: int)
    ensures Describes(Record(Stats(0, salary, salary, 0), salary), [salary])
  {
    assert [salary][..0] == [];
  }

  /** Recording a salary keeps the figures right for the longer list. */
  lemma RecordNext(s: Stats, salaries: seq<int>, salary: int)
    requires Describes(s, salaries)
    ensures Describes(Record(s, salary), salaries + [salary])
  {
    SumSnoc(salaries, salary);
    var all := salaries + [salary];
    assert forall k :: 0 <= k < |salaries| ==> all[k] == salaries[k];
  }

  /** Only the rows of a department change its figures. */
  lemma SalariesOfPrefix(rows: seq<Row>, parse: string -> Option<int>, department: string)
    requires |rows| > 0 && AllParse(rows, parse)
    ensures AllParse(rows[..|rows|-1], parse)
    ensures SalariesOf(rows, parse, department) ==
      SalariesOf(rows[..|rows|-1], parse, department)
        + (if rows[|rows|-1][1] == department then [parse(rows[|rows|-1][5]).value] else [])
  {
  }

  /** The departments appear in the order of their first row, each once. */
  lemma {:induction false} SummaryKeys(rows: seq<Row>, parse: string -> Option<int>)
    requires AllParse(rows, parse)
    ensures forall i :: 0 <= i < |rows| ==> |rows[i]| > 1
    ensures Summary(rows, parse).value.keys == Dedup(Column(rows, 1))
    decreases |rows|
  {
    if |rows| > 0 {
      var p := rows[..|rows|-1];
      assert AllParse(p, parse);
      SummaryKeys(p, parse);
      ColumnPrefix(rows, 1);
    }
  }

  /** One step of the summary loop over rows that all parse. */
  lemma SummarySnoc(rows: seq<Row>, parse: string -> Option<int>)
    requires |rows| > 0 && AllParse(rows, parse)
    ensures AllParse(rows[..|rows|-1], parse)
    ensures |rows[|rows|-1]| >= 6
    ensures Summary(rows, parse).value ==
      AddSalary(Summary(rows[..|rows|-1], parse).value, rows[|rows|-1][1], parse(rows[|rows|-1][5]).value)
  {
    var p := rows[..|rows|-1];
    assert forall i :: 0 <= i < |p| ==> p[i] == rows[i];
    assert RowError(rows[|rows|-1], parse) == None;
  }

  /** One step of the summary loop keeps the figures of every department
      describing its salaries so far. */
  lemma AddSalaryDescribes(t: Dict<Stats>, rowDepartment: string, salary: int, department: string, ss: seq<int>)
    requires WellFormed(t)
    requires department in t.entries ==> Describes(t.entries[department], ss)
    requires department !in t.entries ==> ss == []
    ensures department in AddSalary(t, rowDepartment, salary).entries <==>
      department in t.entries || department == rowDepartment
    ensures department in AddSalary(t, rowDepartment, salary).entries ==>
      Describes(AddSalary(t, rowDepartment, salary).entries[department],
        ss + (if rowDepartment == department then [salary] else []))
  {
    if rowDepartment == department {
      if department in t.entries {
        RecordNext(t.entries[department], ss, salary);
      } else {
        RecordFirst(salary);
        assert ss + [salary] == [salary];
      }
    } else {
      assert ss + [] == ss;
    }
  }

  /** A department has figures exactly when it has a row, and then they
      describe the salaries of its rows. */
  lemma {:induction false} SummaryStats(rows: seq<Row>, parse: string -> Option<int>, department: string)
    requires AllParse(rows, parse)
    ensures forall i :: 0 <= i < |rows| ==> |rows[i]| > 1
    ensures department in Summary(rows, parse).value.entries <==> department in Column(rows, 1)
    ensures department in Summary(rows, parse).value.entries ==>
      Describes(Summary(rows, parse).value.entries[department], SalariesOf(rows, parse, department))
    decreases |rows|
  {
    if |rows| > 0 {
      var p := rows[..|rows|-1];
      var row := rows[|rows|-1];
      SummarySnoc(rows, parse);
      SalariesOfPrefix(rows, parse, department);
      SummaryStats(p, parse, department);
      InColumnSnoc(rows, 1, department);
      if department !in Column(p, 1) {
        SalariesOfEmpty(p, parse, department);
      }
      AddSalaryDescribes(Summary(p, parse).value, row[1], parse(row[5]).value, department, SalariesOf(p, parse, department));
    }
  }

  /** A department without rows has no salaries. */
  lemma {:induction false} SalariesOfEmpty(rows: seq<Row>, parse: string -> Option<int>, department: string)
    requires AllParse(rows, parse)
    requires forall i :: 0 <= i < |rows| ==> |rows[i]| > 1
    requires department !in Column(rows, 1)
    ensures SalariesOf(rows, parse, department) == []
    decreases |rows|
  {
    if |rows| > 0 {
      SalariesOfPrefix(rows, parse, department);
      ColumnPrefix(rows, 1);
      SalariesOfEmpty(rows[..|rows|-1], parse, department);
    }
  }

  /** The head count of a department is its number of rows. */
  lemma {:induction false} SalariesOfCount(rows: seq<Row>, parse: string -> Option<int>, department: string)
    requires AllParse(rows, parse)
    ensures forall i :: 0 <= i < |rows| ==> |rows[i]| > 1
    ensures |SalariesOf(rows, parse, department)| == Count(Column(rows, 1), department)
    decreases |rows|
  {
    if |rows| > 0 {
      SalariesOfPrefix(rows, parse, department);
      SalariesOfCount(rows[..|rows|-1], parse, department);
      ColumnPrefix(rows, 1);
    }
  }

  /** Every department in the summary has at least one employee, so the
      average that `format_department_summary` computes (line 88) never
      divides by zero. */
  lemma SummaryCountPositive(rows: seq<Row>, parse: string -> Option<int>, department: string)
    requires AllParse(rows, parse)
    requires department in Summary(rows, parse).value.entries
    ensures Summary(rows, parse).value.entries[department].count >= 1
  {
    SummaryStats(rows, parse, department);
  }
}
