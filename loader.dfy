/** The source side of loading: what a spreadsheet file offers, which sheet
    of it is read (`loadExcelFile`, lines 69-99), and the records a whole
    sequence of discovered files yields (`loadExcelFiles`). The spreadsheet
    library and the directory scan are abstracted into the values below. */
module Loader {
  import opened Wrappers
  import opened Records

  /** The sheet preferred over all others ("student information"). */
  const PreferredSheet: string := "学生信息"

  /** Why one file contributes nothing. */
  datatype FileError =
    | OpenFailed       // the workbook cannot be opened
    | NoSheets         // the workbook lists no sheet
    | RowsUnreadable   // the selected sheet's rows cannot be read

  /** A named sheet; `rows` is None when reading its rows fails. */
  datatype Sheet = Sheet(name: string, rows: Option<seq<Row>>)

  /** A discovered file as the spreadsheet library sees it. */
  datatype SourceFile = Unopenable | Opened(sheets: seq<Sheet>)

  /** The sheet names of a workbook, in workbook order. */
  function SheetNames(sheets: seq<Sheet>): (names: seq<string>)
    ensures |names| == |sheets|
    ensures forall k :: 0 <= k < |sheets| ==> names[k] == sheets[k].name
  {
    seq(|sheets|, k requires 0 <= k < |sheets| => sheets[k].name)
  }

  /** The sheet to read: the preferred one wherever it stands in the list,
      otherwise the first; an empty list is an error. */
  function SelectSheet(names: seq<string>): Result<string, FileError> {
    if |names| == 0 then Failure(NoSheets)
    else if PreferredSheet in names then Success(PreferredSheet)
    else Success(names[0])
  }

  /** The sheet choice as `loadExcelFile` makes it: a scan that stops at the
      preferred name, falling back to the first name. */
  method ChooseSheet(names: seq<string>) returns (r: Result<string, FileError>)
    ensures r == SelectSheet(names)
    ensures r.Failure? <==> |names| == 0
    ensures r.Success? ==> r.value in names
    ensures PreferredSheet in names ==> r == Success(PreferredSheet)
    ensures |names| > 0 && PreferredSheet !in names ==> r == Success(names[0])
  {
    if |names| == 0 {
      return Failure(NoSheets);
    }
    var sheetName := "";
    for i := 0 to |names|
      invariant sheetName == "" && PreferredSheet !in names[..i]
    {
      if names[i] == PreferredSheet {
        sheetName := names[i];
        break;
      }
    }
    if sheetName == "" {
      assert names[..|names|] == names;
      sheetName := names[0];
    }
    return Success(sheetName);
  }

  /** The rows of the first sheet named `name`; reading fails when there is
      no such sheet or its rows are unreadable. */
  function RowsOf(sheets: seq<Sheet>, name: string): Result<seq<Row>, FileError> {
    if sheets == [] then Failure(RowsUnreadable)
    else if sheets[0].name == name then
      (match sheets[0].rows
       case Some(rows) => Success(rows)
       case None => Failure(RowsUnreadable))
    else RowsOf(sheets[1..], name)
  }

  /** The rows `loadExcelFile` reads from one file, or why it gives up. */
  function ReadFile(file: SourceFile): Result<seq<Row>, FileError> {
    match file
    case Unopenable => Failure(OpenFailed)
    case Opened(sheets) =>
      match SelectSheet(SheetNames(sheets))
      case Failure(e) => Failure(e)
      case Success(name) => RowsOf(sheets, name)
  }

  /** The records one file adds: its sheet's admissions, or none at all when
      the file fails. */
  function Contribution(file: SourceFile): seq<Student> {
    match ReadFile(file)
    case Success(rows) => Admissions(rows)
    case Failure(_) => []
  }

  /** The contribution of each file, in discovery order. */
  function Contributions(files: seq<SourceFile>): (cs: seq<seq<Student>>)
    ensures |cs| == |files|
    ensures forall k :: 0 <= k < |files| ==> cs[k] == Contribution(files[k])
  {
    seq(|files|, k requires 0 <= k < |files| => Contribution(files[k]))
  }

  /** The concatenation of a sequence of runs of records. */
  function Flatten(runs: seq<seq<Student>>): seq<Student> {
    if runs == [] then [] else Flatten(runs[..|runs| - 1]) + runs[|runs| - 1]
  }

  /** The records a load of `files`, in discovery order, ends with. */
  function LoadedStudents(files: seq<SourceFile>): seq<Student> {
    Flatten(Contributions(files))
  }

  /** A workbook with at least one sheet never fails for want of a sheet:
      the selected name is one of its sheets, so the file fails only when it
      cannot be opened or the selected sheet's rows cannot be read. */
  lemma {:induction false} SelectedSheetFound(sheets: seq<Sheet>)
    requires |sheets| > 0
    ensures ReadFile(Opened(sheets)) != Failure(NoSheets)
    ensures ReadFile(Opened(sheets)) != Failure(OpenFailed)
    ensures exists k :: 0 <= k < |sheets| && sheets[k].name == SelectSheet(SheetNames(sheets)).value
  {
    var names := SheetNames(sheets);
    var name := SelectSheet(names).value;
    var k :| 0 <= k < |names| && names[k] == name;
    RowsOfNeverNoSheets(sheets, name);
  }

  lemma {:induction false} RowsOfNeverNoSheets(sheets: seq<Sheet>, name: string)
    ensures RowsOf(sheets, name) != Failure(NoSheets) && RowsOf(sheets, name) != Failure(OpenFailed)
  {
    if sheets != [] && sheets[0].name != name {
      RowsOfNeverNoSheets(sheets[1..], name);
    }
  }

  /** A file discovered last adds its contribution at the end. */
  lemma LoadedSnoc(files: seq<SourceFile>, f: SourceFile)
    ensures LoadedStudents(files + [f]) == LoadedStudents(files) + Contribution(f)
  {
    var cs := Contributions(files + [f]);
    assert cs[..|files|] == Contributions(files);
  }

  lemma {:induction false} FlattenConcat(x: seq<seq<Student>>, y: seq<seq<Student>>)
    ensures Flatten(x + y) == Flatten(x) + Flatten(y)
  {
    if y != [] {
      var n := |y| - 1;
      FlattenConcat(x, y[..n]);
      assert (x + y)[..|x + y| - 1] == x + y[..n];
    } else {
      assert x + y == x;
    }
  }

  /** Loading two runs of files one after the other yields the first run's
      records followed by the second's. */
  lemma LoadedConcat(a: seq<SourceFile>, b: seq<SourceFile>)
    ensures LoadedStudents(a + b) == LoadedStudents(a) + LoadedStudents(b)
  {
    assert Contributions(a + b) == Contributions(a) + Contributions(b);
    FlattenConcat(Contributions(a), Contributions(b));
  }

  /** A file that fails to load is skipped: the load of the other files is
      exactly as if it had not been discovered. */
  lemma FailingFileSkipped(a: seq<SourceFile>, f: SourceFile, b: seq<SourceFile>)
    requires ReadFile(f).Failure?
    ensures LoadedStudents(a + [f] + b) == LoadedStudents(a + b)
  {
    assert Contribution(f) == [];
    LoadedSnoc(a, f);
    assert LoadedStudents(a + [f]) == LoadedStudents(a);
    LoadedConcat(a + [f], b);
    LoadedConcat(a, b);
  }

  /** Every loaded record is admissible: non-empty ID and name, all fields
      trimmed. */
  lemma {:induction false} LoadedAdmissible(files: seq<SourceFile>)
    ensures forall s :: s in LoadedStudents(files) ==> Admissible(s)
  {
    if files != [] {
      var n := |files| - 1;
      LoadedAdmissible(files[..n]);
      LoadedSnoc(files[..n], files[n]);
      assert files[..n] + [files[n]] == files;
      match ReadFile(files[n])
      case Success(rows) => AdmissionsAdmissible(rows);
      case Failure(_) =>
    }
  }
}
