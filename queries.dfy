/** Query handling: the student-ID format check (`isValidStudentID`) and the
    decision chains of `handleSearch` and `handleSearchByParams`, which turn a
    request and the catalog into a (code, message, data) response. The HTTP
    transport is abstracted: the JSON body arrives already bound (or not),
    the URL parameters as two strings ("" when absent). */
module Queries {
  import opened Wrappers
  import opened Text
  import opened Records
  import opened Catalog

  /** Response codes. */
  const CodeOk: int := 200
  const CodeNotNewStudent: int := 200001
  const CodeBadRequest: int := 200500

  /** Response messages. */
  const MsgOk: string := "查询成功"
  const MsgNotNewStudent: string := "非新生"
  const MsgBadStudentId: string := "学号格式错误，应为12位数字"
  const MsgMissingParams: string := "缺少必要参数: student_id 和 name"
  const MsgBindPrefix: string := "请求参数错误: "

  /** `data` is "" when there is nothing to return (omitted on the wire). */
  datatype Response = Response(code: int, msg: string, data: string)

  /** The JSON body after binding: either the two fields or the binder's
      error text. */
  datatype Binding = BindFailed(detail: string) | Bound(studentId: string, name: string)

  /** What the `required` tags on the request's two fields guarantee of a
      successful binding: neither field is empty. */
  predicate RequiredFieldsPresent(binding: Binding) {
    binding.Bound? ==> binding.studentId != "" && binding.name != ""
  }

  /** A student ID as `isValidStudentID` accepts it: 12 bytes long and every
      character an ASCII decimal digit. */
  predicate IsValidStudentId(id: string) {
    ByteLen(id) == 12 && AllDigits(id)
  }

  /** The byte-length test and the digit test together amount to exactly 12
      characters, all digits; leading zeros are allowed. */
  lemma ValidIffTwelveDigits(id: string)
    ensures IsValidStudentId(id) <==> |id| == 12 && AllDigits(id)
  {
    ByteLenBounds(id);
    if AllDigits(id) {
      assert forall i :: 0 <= i < |id| ==> IsAscii(id[i]);
    }
  }

  /** `isValidStudentID` as written: the length test, then a scan that stops
      at the first non-digit. */
  method ValidateStudentId(id: string) returns (ok: bool)
    ensures ok == IsValidStudentId(id)
    ensures ok <==> |id| == 12 && forall i :: 0 <= i < |id| ==> '0' <= id[i] <= '9'
  {
    ValidIffTwelveDigits(id);
    if ByteLen(id) != 12 {
      return false;
    }
    for i := 0 to |id|
      invariant forall j :: 0 <= j < i ==> IsDigit(id[j])
    {
      if id[i] < '0' || id[i] > '9' {
        return false;
      }
    }
    return true;
  }

  /** The part both handlers share once the two fields are in hand: reject
      a malformed ID before any lookup, then report the first match's major
      or that no record matches. */
  function Answer(catalog: seq<Student>, id: string, name: string): Response {
    if !IsValidStudentId(id) then Response(CodeBadRequest, MsgBadStudentId, "")
    else
      match Lookup(catalog, id, name)
      case None => Response(CodeNotNewStudent, MsgNotNewStudent, "")
      case Some(s) => Response(CodeOk, MsgOk, s.major)
  }

  /** `handleSearch`: a binding failure is reported with the binder's text. */
  function BodyResponse(catalog: seq<Student>, binding: Binding): Response {
    match binding
    case BindFailed(detail) => Response(CodeBadRequest, MsgBindPrefix + detail, "")
    case Bound(id, name) => Answer(catalog, id, name)
  }

  /** `handleSearchByParams`: a missing (empty) parameter is reported first. */
  function ParamsResponse(catalog: seq<Student>, id: string, name: string): Response {
    if id == "" || name == "" then Response(CodeBadRequest, MsgMissingParams, "")
    else Answer(catalog, id, name)
  }

  /** The outcome of a query with both fields in hand: 200500 exactly when
      the ID is malformed, 200001 exactly when it is well formed and no
      record matches, 200 otherwise, with the first match's major as the only
      data; no other code occurs and no data accompanies a failure. */
  lemma AnswerOutcome(catalog: seq<Student>, id: string, name: string)
    ensures var r := Answer(catalog, id, name);
      && (r.code == CodeBadRequest <==> !(|id| == 12 && AllDigits(id)))
      && (r.code == CodeNotNewStudent <==>
            |id| == 12 && AllDigits(id) && forall k :: 0 <= k < |catalog| ==> !Matches(catalog[k], id, name))
      && (r.code == CodeOk <==>
            |id| == 12 && AllDigits(id) && exists k :: 0 <= k < |catalog| && Matches(catalog[k], id, name))
      && (r.code != CodeOk ==> r.data == "")
      && (r.code == CodeOk ==> exists k :: 0 <= k < |catalog| && Matches(catalog[k], id, name)
                                  && r.data == catalog[k].major
                                  && forall j :: 0 <= j < k ==> !Matches(catalog[j], id, name))
  {
    ValidIffTwelveDigits(id);
    var r := Answer(catalog, id, name);
    if r.code == CodeOk {
      var k := FirstMatchIndex(catalog, id, name).value;
      assert Matches(catalog[k], id, name) && r.data == catalog[k].major;
    }
  }

  /** A malformed ID is rejected before the catalog is consulted: the
      response is the same whatever the catalog holds, the empty one included. */
  lemma MalformedIdIgnoresCatalog(c1: seq<Student>, c2: seq<Student>, id: string, name: string, binding: Binding)
    requires !(|id| == 12 && AllDigits(id))
    requires binding.Bound? ==> !(|binding.studentId| == 12 && AllDigits(binding.studentId))
    ensures ParamsResponse(c1, id, name) == ParamsResponse(c2, id, name)
    ensures ParamsResponse(c1, id, name).code == CodeBadRequest
    ensures BodyResponse(c1, binding) == BodyResponse(c2, binding)
    ensures BodyResponse(c1, binding).code == CodeBadRequest
  {
    ValidIffTwelveDigits(id);
    if binding.Bound? {
      ValidIffTwelveDigits(binding.studentId);
    }
  }

  /** The two entry points agree on every request the binder accepts: a
      bound body carries both fields, so it gets the response the same two
      strings get as URL parameters. */
  lemma EntryPointsAgree(catalog: seq<Student>, binding: Binding)
    requires RequiredFieldsPresent(binding)
    ensures binding.Bound? ==>
      BodyResponse(catalog, binding) == ParamsResponse(catalog, binding.studentId, binding.name)
    ensures binding.BindFailed? ==> BodyResponse(catalog, binding).code == CodeBadRequest
  {
  }

  /** Round trip: a record with a well-formed ID and a non-empty name that
      no earlier record shadows is found by querying its own ID and name,
      on both entry points, and only its major is returned. */
  lemma LoadedRecordFound(catalog: seq<Student>, k: nat)
    requires k < |catalog|
    requires |catalog[k].studentId| == 12 && AllDigits(catalog[k].studentId) && catalog[k].name != ""
    requires forall j :: 0 <= j < k ==> !Matches(catalog[j], catalog[k].studentId, catalog[k].name)
    ensures ParamsResponse(catalog, catalog[k].studentId, catalog[k].name) == Response(CodeOk, MsgOk, catalog[k].major)
    ensures BodyResponse(catalog, Bound(catalog[k].studentId, catalog[k].name)) == Response(CodeOk, MsgOk, catalog[k].major)
  {
    ValidIffTwelveDigits(catalog[k].studentId);
    FirstMatchWins(catalog, k, catalog[k].studentId, catalog[k].name);
  }

  /** A record whose ID is not well formed is loaded but can never be
      returned: on either entry point, every successful response carries the
      major of a matching record whose ID is valid. */
  lemma MalformedRecordUnreachable(catalog: seq<Student>, binding: Binding, id: string, name: string)
    ensures Answer(catalog, id, name).code == CodeOk ==>
      Lookup(catalog, id, name).Some? && IsValidStudentId(Lookup(catalog, id, name).value.studentId)
      && Answer(catalog, id, name).data == Lookup(catalog, id, name).value.major
    ensures ParamsResponse(catalog, id, name).code == CodeOk ==>
      Answer(catalog, id, name).code == CodeOk
    ensures BodyResponse(catalog, binding).code == CodeOk ==>
      binding.Bound? && Lookup(catalog, binding.studentId, binding.name).Some?
      && IsValidStudentId(Lookup(catalog, binding.studentId, binding.name).value.studentId)
  {
  }
}
