/**
 * `findStudentBySBD` and the search button: the first record whose candidate
 * number ("SBD"), converted with `String` and trimmed, equals the trimmed query.
 */
module Lookup {
  import opened Wrappers
  import opened Strings
  import opened Scores

  /** The key of the candidate number. */
  const SbdKey: string := "SBD"

  /**
   * `String(v)` for the values a record holds under a key: a missing key
   * reads as "undefined" and text as itself. The decimal rendering of a
   * number is not modelled (`None`), so a number never matches a query.
   */
  function AsString(v: Option<Value>): Option<string>
  {
    match v
    case None => Some("undefined")
    case Some(Text(s)) => Some(s)
    case Some(Num(_)) => None
  }

  /** `String(std['SBD']).trim() === sbd`. */
  predicate Matches(student: Record, sbd: string)
  {
    AsString(Get(student, SbdKey)).Some? && Trim(AsString(Get(student, SbdKey)).value) == sbd
  }

  /** The position `Array.prototype.find` stops at: the first element that passes `p`, if any. */
  function FirstMatch(records: seq<Record>, p: Record -> bool): (r: Option<nat>)
    ensures r.Some? ==> r.value < |records|
  {
    if records == [] then None
    else if p(records[0]) then Some(0)
    else
      match FirstMatch(records[1..], p)
      case None => None
      case Some(k) => Some(k + 1)
  }

  /** `find` stops at the first element that passes, and finds nothing exactly when none passes. */
  lemma {:induction false} FirstMatchSpec(records: seq<Record>, p: Record -> bool)
    ensures var r := FirstMatch(records, p);
      (r.Some? ==> p(records[r.value]) && forall j :: 0 <= j < r.value ==> !p(records[j]))
      && (r.None? <==> forall j :: 0 <= j < |records| ==> !p(records[j]))
  {
    if records != [] && !p(records[0]) {
      var rest := records[1..];
      FirstMatchSpec(rest, p);
      forall j | 1 <= j < |records| ensures records[j] == rest[j - 1] {
      }
    }
  }

  /** The test `findStudentBySBD` hands to `find`. */
  function HasSbd(sbd: string): Record -> bool
  {
    (student: Record) => Matches(student, sbd)
  }

  /** `findStudentBySBD(sbd)`: the first matching record, `None` standing for `undefined`. */
  function FindStudentBySbd(records: seq<Record>, sbd: string): (r: Option<Record>)
    ensures r.Some? <==> exists j :: 0 <= j < |records| && Matches(records[j], sbd)
    ensures r.Some? ==> r.value in records && Matches(r.value, sbd)
  {
    FirstMatchSpec(records, HasSbd(sbd));
    match FirstMatch(records, HasSbd(sbd))
    case None => None
    case Some(k) => Some(records[k])
  }

  /** What the search button shows. */
  datatype Outcome = EmptyQuery | NotFound(sbd: string) | Found(student: Record)

  /** The click handler once the records are loaded: trims the input, then looks it up. */
  function Search(records: seq<Record>, input: string): (r: Outcome)
    ensures r == EmptyQuery <==> Trim(input) == ""
    ensures r.NotFound? ==> r.sbd == Trim(input) && forall j :: 0 <= j < |records| ==> !Matches(records[j], Trim(input))
    ensures r.Found? ==> r.student in records && Matches(r.student, Trim(input))
  {
    var sbd := Trim(input);
    if sbd == "" then EmptyQuery
    else match FindStudentBySbd(records, sbd)
      case None => NotFound(sbd)
      case Some(student) => Found(student)
  }

  // Properties

  /** The record found is the first one whose candidate number matches. */
  lemma FoundIsFirst(records: seq<Record>, sbd: string)
    requires FindStudentBySbd(records, sbd).Some?
    ensures exists i :: 0 <= i < |records| && records[i] == FindStudentBySbd(records, sbd).value
                     && Matches(records[i], sbd) && forall j :: 0 <= j < i ==> !Matches(records[j], sbd)
  {
    FirstMatchSpec(records, HasSbd(sbd));
    var i := FirstMatch(records, HasSbd(sbd)).value;
    assert records[i] == FindStudentBySbd(records, sbd).value;
  }

  /** Elements after the first that passes do not change the result. */
  lemma {:induction false} FirstMatchIgnoresLater(records: seq<Record>, more: seq<Record>, p: Record -> bool)
    requires FirstMatch(records, p).Some?
    ensures FirstMatch(records + more, p) == FirstMatch(records, p)
  {
    if !p(records[0]) {
      assert (records + more)[1..] == records[1..] + more;
      FirstMatchIgnoresLater(records[1..], more, p);
    }
  }

  /** With no element passing among those already searched, the result is the first among the rest. */
  lemma {:induction false} FirstMatchSkipsMisses(records: seq<Record>, more: seq<Record>, p: Record -> bool)
    requires FirstMatch(records, p).None?
    ensures FirstMatch(records + more, p) ==
      match FirstMatch(more, p) case None => None case Some(k) => Some(|records| + k)
  {
    if records == [] {
      assert records + more == more;
    } else {
      assert (records + more)[0] == records[0];
      assert (records + more)[1..] == records[1..] + more;
      FirstMatchSkipsMisses(records[1..], more, p);
    }
  }

  /** Surrounding white space in the query is ignored. */
  lemma QueryTrimmed(records: seq<Record>, input: string)
    ensures Search(records, input) == Search(records, Trim(input))
  {
    TrimIdempotent(input);
    var sbd := Trim(input);
    assert Search(records, input) == if sbd == "" then EmptyQuery else
      match FindStudentBySbd(records, sbd) case None => NotFound(sbd) case Some(student) => Found(student);
  }

  /** A query that is blank once trimmed is refused before any lookup, and only such a query. */
  lemma BlankQueryRefused(records: seq<Record>, input: string)
    ensures Trim(input) == "" <==> Search(records, input) == EmptyQuery
  {
  }

  lemma TrimIdempotent(s: string)
    ensures Trim(Trim(s)) == Trim(s)
  {
  }

  /** Every record that is found is one of the records and matches the trimmed query. */
  lemma FoundMatches(records: seq<Record>, input: string)
    requires Search(records, input).Found?
    ensures Search(records, input).student in records
    ensures Matches(Search(records, input).student, Trim(input))
  {
    var sbd := Trim(input);
    FirstMatchSpec(records, HasSbd(sbd));
    var k := FirstMatch(records, HasSbd(sbd)).value;
    assert Search(records, input).student == FindStudentBySbd(records, sbd).value == records[k];
  }

  /** Nothing is found exactly when no record matches the trimmed query. */
  lemma NotFoundMeansNoMatch(records: seq<Record>, input: string)
    requires Trim(input) != ""
    ensures Search(records, input) == NotFound(Trim(input))
        <==> forall j :: 0 <= j < |records| ==> !Matches(records[j], Trim(input))
  {
  }

  /** A number stored under "SBD" never matches, whatever the query. */
  lemma NumericIdNeverMatches(student: Record, sbd: string, x: real)
    requires Get(student, SbdKey) == Some(Num(x))
    ensures !Matches(student, sbd)
  {
  }

  /** A record without an "SBD" column matches the query "undefined", as `String(undefined)` does. */
  lemma MissingIdReadsUndefined(student: Record)
    requires SbdKey !in student
    ensures Matches(student, "undefined")
  {
    assert IsTrimmed("undefined");
  }

  /** A text candidate number matches exactly the queries equal to it once trimmed. */
  lemma TextIdMatches(student: Record, id: string, sbd: string)
    requires Get(student, SbdKey) == Some(Text(id))
    ensures Matches(student, sbd) <==> Trim(id) == sbd
  {
  }
}
