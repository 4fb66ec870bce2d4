/** The process state: Go's package-level `students` slice, the two loading
    routines that rebuild it, `searchStudent` that scans it, and the two
    handlers that answer queries from it. */
module Server {
  import opened Wrappers
  import opened Text
  import opened Records
  import opened Loader
  import opened Catalog
  import opened Queries

  /** Why a whole load fails (the process then refuses to start). */
  datatype LoadError =
    | ScanFailed(detail: string)   // the directory scan itself failed
    | NoSourceFiles                // the scan found no spreadsheet file

  /** The result of the directory scan: the files found, in scan order. */
  datatype Discovery = ScanError(detail: string) | Found(files: seq<SourceFile>)

  class Store {
    /** The loaded records, in load order. */
    var students: seq<Student>

    /** The zero value of the package variable: no records. */
    constructor ()
      ensures students == []
    {
      students := [];
    }

    /** `loadExcelFiles`: fails, leaving the records as they were, when the
        scan fails or finds nothing; otherwise starts from no records and
        loads every file in scan order, skipping the files that fail. */
    method LoadFiles(discovery: Discovery) returns (err: Option<LoadError>)
      modifies this
      ensures discovery.ScanError? ==> err == Some(ScanFailed(discovery.detail)) && students == old(students)
      ensures discovery.Found? && discovery.files == [] ==> err == Some(NoSourceFiles) && students == old(students)
      ensures discovery.Found? && discovery.files != [] ==> err == None && students == LoadedStudents(discovery.files)
    {
      if discovery.ScanError? {
        return Some(ScanFailed(discovery.detail));
      }
      var files := discovery.files;
      if |files| == 0 {
        return Some(NoSourceFiles);
      }
      students := [];
      for i := 0 to |files|
        invariant students == LoadedStudents(files[..i])
      {
        var fileErr := LoadFile(files[i]);
        LoadedSnoc(files[..i], files[i]);
        assert files[..i + 1] == files[..i] + [files[i]];
      }
      assert files[..|files|] == files;
      return None;
    }

    /** `loadExcelFile`: reads the selected sheet of one file and appends its
        admitted rows, in row order, after the records already held; a file
        that fails appends nothing. */
    method LoadFile(file: SourceFile) returns (err: Option<FileError>)
      modifies this
      ensures students == old(students) + Contribution(file)
      ensures err.Some? <==> ReadFile(file).Failure?
      ensures err.Some? ==> err.value == ReadFile(file).error
    {
      if file.Unopenable? {
        return Some(OpenFailed);
      }
      var sheets := file.sheets;
      var choice := ChooseSheet(SheetNames(sheets));
      if choice.Failure? {
        return Some(choice.error);
      }
      var read := RowsOf(sheets, choice.value);
      if read.Failure? {
        return Some(read.error);
      }
      AppendAdmitted(read.value);
      return None;
    }

    /** The row loop of `loadExcelFile` over the rows read: skips the
        header, the rows of fewer than six cells and the rows whose trimmed
        ID or name is empty, and appends the trimmed record of every other
        row, in row order. */
    method AppendAdmitted(rows: seq<Row>)
      modifies this
      ensures students == old(students) + Admissions(rows)
    {
      for i := 0 to |rows|
        invariant students == old(students) + Admissions(rows[..i])
      {
        var row := rows[i];
        AdmissionsSnoc(rows[..i], row);
        assert rows[..i + 1] == rows[..i] + [row];
        if i == 0 {
          assert Admit(ParseRow(i, row)) == [];
          continue;
        }
        if |row| < Columns {
          assert Admit(ParseRow(i, row)) == [];
          continue;
        }
        var student := Student(TrimSpace(row[0]), TrimSpace(row[1]), TrimSpace(row[2]),
                               TrimSpace(row[3]), TrimSpace(row[4]), TrimSpace(row[5]));
        assert student == StudentOf(row);
        if student.studentId != "" && student.name != "" {
          assert Admit(ParseRow(i, row)) == [student];
          students := students + [student];
        } else {
          assert Admit(ParseRow(i, row)) == [];
        }
      }
      assert rows[..|rows|] == rows;
    }

    /** `searchStudent`: the first record whose ID and name equal the
        query's, or None when there is none. */
    method Search(id: string, name: string) returns (found: Option<Student>)
      ensures found == Lookup(students, id, name)
      ensures found.Some? ==> found.value in students && Matches(found.value, id, name)
      ensures found.None? <==> forall k :: 0 <= k < |students| ==> !Matches(students[k], id, name)
    {
      for i := 0 to |students|
        invariant forall j :: 0 <= j < i ==> !Matches(students[j], id, name)
      {
        if students[i].studentId == id && students[i].name == name {
          FirstMatchWins(students, i, id, name);
          return Some(students[i]);
        }
      }
      return None;
    }

    /** `handleSearch`. */
    method HandleSearch(binding: Binding) returns (resp: Response)
      ensures resp == BodyResponse(students, binding)
    {
      if binding.BindFailed? {
        return Response(CodeBadRequest, MsgBindPrefix + binding.detail, "");
      }
      resp := Respond(binding.studentId, binding.name);
    }

    /** `handleSearchByParams`. */
    method HandleSearchByParams(id: string, name: string) returns (resp: Response)
      ensures resp == ParamsResponse(students, id, name)
    {
      if id == "" || name == "" {
        return Response(CodeBadRequest, MsgMissingParams, "");
      }
      resp := Respond(id, name);
    }

    /** The validation and lookup both handlers run: the ID check comes
        first and a malformed ID never reaches Search. */
    method Respond(id: string, name: string) returns (resp: Response)
      ensures resp == Answer(students, id, name)
    {
      var valid := ValidateStudentId(id);
      if !valid {
        return Response(CodeBadRequest, MsgBadStudentId, "");
      }
      var student := Search(id, name);
      if student.None? {
        return Response(CodeNotNewStudent, MsgNotNewStudent, "");
      }
      return Response(CodeOk, MsgOk, student.value.major);
    }
  }

  /** Files are searched in load order: when an earlier run of files already
      holds a record answering a query, files loaded after it never change
      the answer, duplicates with other majors included; otherwise the later
      files answer. */
  lemma EarlierFileWins(a: seq<SourceFile>, b: seq<SourceFile>, id: string, name: string)
    ensures Lookup(LoadedStudents(a + b), id, name) ==
      if Lookup(LoadedStudents(a), id, name).Some? then Lookup(LoadedStudents(a), id, name)
      else Lookup(LoadedStudents(b), id, name)
  {
    LoadedConcat(a, b);
    LookupAppend(LoadedStudents(a), LoadedStudents(b), id, name);
  }

  /** End to end: a workbook whose only sheet holds a header and one student
      loads that student, and querying the student's ID and name returns the
      major and nothing else, while an unknown pair is not found. */
  lemma LoadThenQuery()
    ensures var file := Opened([Sheet("Sheet1", Some([ExampleHeader(), ExampleRow()]))]);
      && LoadedStudents([file]) == [ExampleStudent()]
      && ParamsResponse(LoadedStudents([file]), "202400000001", "Alice") == Response(CodeOk, MsgOk, "Computer Science")
      && ParamsResponse(LoadedStudents([file]), "999999999999", "Nobody").code == CodeNotNewStudent
  {
    var file := Opened([Sheet("Sheet1", Some([ExampleHeader(), ExampleRow()]))]);
    ExampleFile(file);
    ExampleFound();
    ExampleNotFound();
  }

  lemma ExampleFile(file: SourceFile)
    requires file == Opened([Sheet("Sheet1", Some([ExampleHeader(), ExampleRow()]))])
    ensures LoadedStudents([file]) == [ExampleStudent()]
  {
    ExampleSheet();
    assert ReadFile(file) == Success([ExampleHeader(), ExampleRow()]);
    LoadedSnoc([], file);
  }

  lemma ExampleFound()
    ensures ParamsResponse([ExampleStudent()], "202400000001", "Alice") == Response(CodeOk, MsgOk, "Computer Science")
  {
    assert AllDigits("202400000001");
    LoadedRecordFound([ExampleStudent()], 0);
  }

  lemma ExampleNotFound()
    ensures ParamsResponse([ExampleStudent()], "999999999999", "Nobody").code == CodeNotNewStudent
  {
    assert AllDigits("999999999999");
    AnswerOutcome([ExampleStudent()], "999999999999", "Nobody");
  }

  function ExampleHeader(): Row {
    ["year", "college", "class", "id", "name", "major"]
  }

  function ExampleRow(): Row {
    ["2024", "CS College", "Class1", "202400000001", "Alice", "Computer Science"]
  }

  function ExampleStudent(): Student {
    Student("2024", "CS College", "Class1", "202400000001", "Alice", "Computer Science")
  }

  lemma ExampleSheet()
    ensures Admissions([ExampleHeader(), ExampleRow()]) == [ExampleStudent()]
  {
    var header, row := ExampleHeader(), ExampleRow();
    assert StudentOf(row) == ExampleStudent();
    assert ParseRow(1, row) == Admitted(ExampleStudent());
    AdmissionsSnoc([], header);
    assert [] + [header] == [header];
    AdmissionsSnoc([header], row);
    assert [header] + [row] == [header, row];
  }
}
