/** The catalog as a value: the ordered records held after loading, and the
    first-match rule `searchStudent` (lines 149-156) answers queries by. */
module Catalog {
  import opened Wrappers
  import opened Records

  /** A record answers a query when its ID and its name both equal the
      query's, character for character (the query is not trimmed). */
  predicate Matches(s: Student, id: string, name: string) {
    s.studentId == id && s.name == name
  }

  /** The position of the first record answering the query, if any. */
  function FirstMatchIndex(catalog: seq<Student>, id: string, name: string): (r: Option<nat>)
    ensures r.None? <==> forall k :: 0 <= k < |catalog| ==> !Matches(catalog[k], id, name)
    ensures r.Some? ==> r.value < |catalog| && Matches(catalog[r.value], id, name)
    ensures r.Some? ==> forall j :: 0 <= j < r.value ==> !Matches(catalog[j], id, name)
  {
    if catalog == [] then None
    else if Matches(catalog[0], id, name) then Some(0)
    else
      match FirstMatchIndex(catalog[1..], id, name)
      case None => None
      case Some(k) => Some(k + 1)
  }

  /** The record a query finds: the first record answering it. */
  function Lookup(catalog: seq<Student>, id: string, name: string): (r: Option<Student>)
    ensures r.None? <==> forall k :: 0 <= k < |catalog| ==> !Matches(catalog[k], id, name)
    ensures r.Some? ==> r.value in catalog && Matches(r.value, id, name)
  {
    match FirstMatchIndex(catalog, id, name)
    case None => None
    case Some(k) => Some(catalog[k])
  }

  /** First match wins: a record answering the query that no earlier record
      answers is the one found, whatever follows it (duplicates included). */
  lemma FirstMatchWins(catalog: seq<Student>, k: nat, id: string, name: string)
    requires k < |catalog| && Matches(catalog[k], id, name)
    requires forall j :: 0 <= j < k ==> !Matches(catalog[j], id, name)
    ensures Lookup(catalog, id, name) == Some(catalog[k])
  {
    var r := FirstMatchIndex(catalog, id, name);
  }

  /** Records appended after a catalog never change the answer to a query
      the catalog already answers; otherwise the appended part answers it. */
  lemma LookupAppend(a: seq<Student>, b: seq<Student>, id: string, name: string)
    ensures Lookup(a + b, id, name) ==
              if Lookup(a, id, name).Some? then Lookup(a, id, name) else Lookup(b, id, name)
  {
    var ab := a + b;
    match FirstMatchIndex(a, id, name)
    case Some(k) =>
      assert ab[k] == a[k];
      FirstMatchWins(ab, k, id, name);
    case None =>
      match FirstMatchIndex(b, id, name)
      case Some(k) =>
        assert ab[|a| + k] == b[k];
        forall j | 0 <= j < |a| + k ensures !Matches(ab[j], id, name) {
          if j < |a| { assert ab[j] == a[j]; } else { assert ab[j] == b[j - |a|]; }
        }
        FirstMatchWins(ab, |a| + k, id, name);
      case None =>
        forall j | 0 <= j < |ab| ensures !Matches(ab[j], id, name) {
          if j < |a| { assert ab[j] == a[j]; } else { assert ab[j] == b[j - |a|]; }
        }
  }
}
