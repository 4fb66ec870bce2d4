/** Row admission: how one spreadsheet row becomes a Student record or is
    passed over, and which records a whole sheet contributes (the body of the
    row loop in `loadExcelFile`). */
module Records {
  import opened Text

  /** One spreadsheet row: its cells, left to right. */
  type Row = seq<string>

  /** The record kept for an admitted student; every field is a trimmed cell. */
  datatype Student = Student(
    year: string,
    college: string,
    className: string,
    studentId: string,
    name: string,
    major: string)

  /** The number of leading cells a row must have: year, college, class,
      student ID, name and major, in that order. */
  const Columns: nat := 6

  /** What happens to the row at a given position of a sheet. */
  datatype RowOutcome =
    | Header                   // position 0, skipped whatever it holds
    | Incomplete               // fewer than six cells
    | MissingIdentity          // the trimmed ID or the trimmed name is empty
    | Admitted(student: Student)

  /** The record built from the first six cells, each trimmed. */
  function StudentOf(row: Row): Student
    requires |row| >= Columns
  {
    Student(TrimSpace(row[0]), TrimSpace(row[1]), TrimSpace(row[2]),
            TrimSpace(row[3]), TrimSpace(row[4]), TrimSpace(row[5]))
  }

  /** Every record the catalog may hold: a non-empty ID and name, and six
      fields without surrounding spaces. */
  predicate Admissible(s: Student) {
    && s.studentId != [] && s.name != []
    && IsTrimmed(s.year) && IsTrimmed(s.college) && IsTrimmed(s.className)
    && IsTrimmed(s.studentId) && IsTrimmed(s.name) && IsTrimmed(s.major)
  }

  function ParseRow(index: nat, row: Row): RowOutcome {
    if index == 0 then Header
    else if |row| < Columns then Incomplete
    else
      var s := StudentOf(row);
      if s.studentId != [] && s.name != [] then Admitted(s) else MissingIdentity
  }

  /** A row is admitted exactly when it is not the header, has six cells and
      neither its ID cell nor its name cell is blank; the record then holds the
      trimmed cells 0..5 in column order and is admissible. */
  lemma ParseRowAdmits(index: nat, row: Row)
    ensures ParseRow(index, row).Admitted? <==>
              index != 0 && |row| >= Columns && !AllSpace(row[3]) && !AllSpace(row[4])
    ensures ParseRow(index, row).Admitted? ==>
              && ParseRow(index, row).student == StudentOf(row)
              && Admissible(ParseRow(index, row).student)
    ensures index == 0 ==> ParseRow(index, row) == Header
    ensures index != 0 && |row| < Columns ==> ParseRow(index, row) == Incomplete
  {
    if |row| >= Columns {
      TrimSpaceSpec(row[0]); TrimSpaceSpec(row[1]); TrimSpaceSpec(row[2]);
      TrimSpaceSpec(row[3]); TrimSpaceSpec(row[4]); TrimSpaceSpec(row[5]);
    }
  }

  /** The outcome of every row of a sheet, by position. */
  function Outcomes(rows: seq<Row>): (outs: seq<RowOutcome>)
    ensures |outs| == |rows|
    ensures forall k :: 0 <= k < |rows| ==> outs[k] == ParseRow(k, rows[k])
  {
    seq(|rows|, k requires 0 <= k < |rows| => ParseRow(k, rows[k]))
  }

  /** The record an outcome contributes: one for an admitted row, else none. */
  function Admit(out: RowOutcome): seq<Student> {
    if out.Admitted? then [out.student] else []
  }

  /** The records of a run of outcomes, in order. */
  function Collect(outs: seq<RowOutcome>): seq<Student> {
    if outs == [] then []
    else Collect(outs[..|outs| - 1]) + Admit(outs[|outs| - 1])
  }

  /** The records a sheet contributes, in row order. */
  function Admissions(rows: seq<Row>): seq<Student> {
    Collect(Outcomes(rows))
  }

  lemma CollectSnoc(outs: seq<RowOutcome>, out: RowOutcome)
    ensures Collect(outs + [out]) == Collect(outs) + Admit(out)
  {
    assert (outs + [out])[..|outs|] == outs;
  }

  /** The outcomes of a prefix of a sheet are the prefix of its outcomes. */
  lemma OutcomesPrefix(rows: seq<Row>, i: nat)
    requires i <= |rows|
    ensures Outcomes(rows[..i]) == Outcomes(rows)[..i]
  {
  }

  /** Extending a sheet by one row adds that row's record, if admitted, at
      the end. */
  lemma AdmissionsSnoc(rows: seq<Row>, row: Row)
    ensures Admissions(rows + [row]) == Admissions(rows) + Admit(ParseRow(|rows|, row))
  {
    var outs := Outcomes(rows + [row]);
    OutcomesPrefix(rows + [row], |rows|);
    assert (rows + [row])[..|rows|] == rows;
    assert outs == Outcomes(rows) + [ParseRow(|rows|, row)];
    CollectSnoc(Outcomes(rows), ParseRow(|rows|, row));
  }

  /** A header row, a row of fewer than six cells and a row with a blank ID or
      name leave the records of the sheet unchanged. */
  lemma SkippedRowAddsNothing(rows: seq<Row>, row: Row)
    requires |rows| == 0 || |row| < Columns || AllSpace(row[3]) || AllSpace(row[4])
    ensures Admissions(rows + [row]) == Admissions(rows)
  {
    AdmissionsSnoc(rows, row);
    ParseRowAdmits(|rows|, row);
  }

  /** Every record of a run of outcomes is the record of one admitted outcome. */
  lemma {:induction false} CollectFrom(outs: seq<RowOutcome>)
    ensures forall s :: s in Collect(outs) ==> Admitted(s) in outs
  {
    if outs != [] {
      var n := |outs| - 1;
      CollectFrom(outs[..n]);
      assert forall o :: o in outs[..n] ==> o in outs;
    }
  }

  /** Every record a sheet contributes is admissible. */
  lemma AdmissionsAdmissible(rows: seq<Row>)
    ensures forall s :: s in Admissions(rows) ==> Admissible(s)
  {
    var outs := Outcomes(rows);
    CollectFrom(outs);
    forall s | s in Admissions(rows) ensures Admissible(s) {
      var k :| 0 <= k < |outs| && outs[k] == Admitted(s);
      ParseRowAdmits(k, rows[k]);
    }
  }

  /** The positions of the admitted outcomes, in increasing order. */
  function AdmittedPositions(outs: seq<RowOutcome>): seq<nat> {
    if outs == [] then []
    else
      var n := |outs| - 1;
      AdmittedPositions(outs[..n]) + (if outs[n].Admitted? then [n] else [])
  }

  /** The positions `ps` are, in increasing order, exactly the admitted
      outcomes of `outs`, and `ss` holds their records in the same order. */
  predicate InOrder(outs: seq<RowOutcome>, ps: seq<nat>, ss: seq<Student>) {
    && |ps| == |ss|
    && (forall p :: 0 <= p < |ps| ==> ps[p] < |outs| && outs[ps[p]] == Admitted(ss[p]))
    && (forall p, q :: 0 <= p < q < |ps| ==> ps[p] < ps[q])
    && (forall k :: 0 <= k < |outs| && outs[k].Admitted? ==> k in ps)
  }

  lemma {:induction false} CollectInOrder(outs: seq<RowOutcome>)
    ensures InOrder(outs, AdmittedPositions(outs), Collect(outs))
  {
    if outs != [] {
      var n := |outs| - 1;
      var init := outs[..n];
      CollectInOrder(init);
      var ps, ss := AdmittedPositions(init), Collect(init);
      var ps', ss' := AdmittedPositions(outs), Collect(outs);
      assert ps' == ps + (if outs[n].Admitted? then [n] else []);
      assert ss' == ss + Admit(outs[n]);
      forall p | 0 <= p < |ps'| ensures ps'[p] < |outs| && outs[ps'[p]] == Admitted(ss'[p]) {
        if p < |ps| {
          assert outs[ps[p]] == init[ps[p]];
        }
      }
      forall k | 0 <= k < |outs| && outs[k].Admitted? ensures k in ps' {
        if k < n {
          assert init[k] == outs[k];
        }
      }
    }
  }

  /** Admissions, position by position: the p-th record is the record of the
      p-th admitted row; the admitted positions increase, never include the
      header, and include every row that ParseRow admits. */
  lemma AdmissionsInRowOrder(rows: seq<Row>)
    ensures var ps := AdmittedPositions(Outcomes(rows));
      && |ps| == |Admissions(rows)|
      && (forall p :: 0 <= p < |ps| ==>
            1 <= ps[p] < |rows| && ParseRow(ps[p], rows[ps[p]]) == Admitted(Admissions(rows)[p]))
      && (forall p, q :: 0 <= p < q < |ps| ==> ps[p] < ps[q])
      && (forall k :: 0 <= k < |rows| && ParseRow(k, rows[k]).Admitted? ==> k in ps)
  {
    CollectInOrder(Outcomes(rows));
  }

  /** Only positions count, not the header's content: replacing row 0 by any
      other row leaves the sheet's records unchanged. */
  lemma HeaderIgnored(rows: seq<Row>, header: Row)
    requires |rows| > 0
    ensures Admissions([header] + rows[1..]) == Admissions(rows)
  {
    var other := [header] + rows[1..];
    assert forall k :: 0 < k < |rows| ==> other[k] == rows[k];
    assert Outcomes(other) == Outcomes(rows);
  }

  /** A sheet of n > 0 rows yields at most n - 1 records. */
  lemma {:induction false} AdmissionsBound(rows: seq<Row>)
    requires |rows| > 0
    ensures |Admissions(rows)| < |rows|
  {
    var outs := Outcomes(rows);
    CollectInOrder(outs);
    var ps := AdmittedPositions(outs);
    // the positions are distinct members of 1 .. |rows| - 1
    PositionsBound(ps, |rows|);
  }

  /** A strictly increasing sequence of positions in 1 .. n - 1 has fewer
      than n elements. */
  lemma {:induction false} PositionsBound(ps: seq<nat>, n: nat)
    requires n > 0
    requires forall p :: 0 <= p < |ps| ==> 1 <= ps[p] < n
    requires forall p, q :: 0 <= p < q < |ps| ==> ps[p] < ps[q]
    ensures |ps| < n
  {
    if ps != [] {
      var m := |ps| - 1;
      PositionsBound(ps[..m], ps[m]);
    }
  }
}
