/**
 * The admission-group ("mã khối") table of `displayStudent` and the loop that
 * lists, in table order, every group whose three subjects all hold a valid
 * score, with the three parsed scores and their sum; the `found` flag says
 * whether any group was listed.
 */
module Groups {
  import opened Wrappers
  import opened Scores
  import opened Totals
  import opened Seqs

  /** One row of `khoiMap`: a group code and its three subjects. */
  datatype Group = Group(code: string, subjects: seq<string>)

  /** One listed group: its code, its subjects, their parsed scores and the sum of those. */
  datatype Entry = Entry(code: string, subjects: seq<string>, scores: seq<real>, sum: real)

  /** `khoiMap`, in declaration order (the order `Object.entries` yields its keys). */
  const GroupTable: seq<Group> := [
    Group("A00", [Math, Physics, Chemistry]),
    Group("A01", [Math, Physics, English]),
    Group("A02", [Math, Physics, Biology]),
    Group("B00", [Math, Chemistry, Biology]),
    Group("B08", [Math, Biology, English]),
    Group("B03", [Math, Literature, Biology]),
    Group("C01", [Literature, Math, Physics]),
    Group("C02", [Literature, Math, Chemistry]),
    Group("C08", [Literature, Chemistry, Biology]),
    Group("D01", [Literature, Math, English]),
    Group("D07", [Math, Chemistry, English]),
    Group("D08", [Math, Biology, English]),
    Group("D11", [Literature, Physics, English]),
    Group("D12", [Literature, Chemistry, English]),
    Group("D13", [Literature, Biology, English])
  ]

  /** The codes of the groups that need Chemistry ("Hóa"). */
  const ChemistryCodes: set<string> := {"A00", "B00", "C02", "C08", "D07", "D12"}

  /** Their rows in the table. */
  const ChemistryRows: set<nat> := {0, 3, 7, 8, 10, 13}

  /** `subjects.every(sub => isValidScore(data[sub]))`. */
  predicate Qualifies(data: Record, subjects: seq<string>)
  {
    forall i :: 0 <= i < |subjects| ==> IsValidScore(Get(data, subjects[i]))
  }

  /**
   * `s => parseScore(data[s])`, read as the number a subject counts for: the
   * two agree on every subject holding a valid score, the only ones it is used on.
   */
  function ScoreReader(data: Record): string -> real
  {
    (subject: string) => Contribution(Get(data, subject))
  }

  /** `subjects.map(s => parseScore(data[s]))`. */
  function ScoresOf(data: Record, subjects: seq<string>): seq<real>
  {
    MapSeq(subjects, ScoreReader(data))
  }

  /** `scores.reduce((a, b) => a + b, 0)`: a left fold starting from 0. */
  function Sum(xs: seq<real>): real
  {
    if xs == [] then 0.0 else Sum(xs[..|xs| - 1]) + xs[|xs| - 1]
  }

  /** The listing of one qualifying group. */
  function EntryOf(data: Record, g: Group): Entry
  {
    var scores := ScoresOf(data, g.subjects);
    Entry(g.code, g.subjects, scores, Sum(scores))
  }

  /** What one group contributes to the listing. */
  function Listing(data: Record, g: Group): seq<Entry>
  {
    if Qualifies(data, g.subjects) then [EntryOf(data, g)] else []
  }

  /** `Listing` for one record, as a function of the group. */
  function Lister(data: Record): Group -> seq<Entry>
  {
    (g: Group) => Listing(data, g)
  }

  /** The groups of `table` that qualify, in table order. */
  function Report(data: Record, table: seq<Group>): seq<Entry>
  {
    FlatMap(table, Lister(data))
  }

  /** The group loop of `displayStudent`: the listed groups and the `found` flag. */
  method EligibleGroups(data: Record) returns (report: seq<Entry>, found: bool)
    ensures report == Report(data, GroupTable)
    ensures found <==> report != []
  {
    report := [];
    found := false;
    var i := 0;
    while i < |GroupTable|
      invariant 0 <= i <= |GroupTable|
      invariant report == Report(data, GroupTable[..i])
      invariant found <==> report != []
    {
      var g := GroupTable[i];
      if Qualifies(data, g.subjects) {
        var scores := ScoresOf(data, g.subjects);
        GroupListedStep(data, GroupTable, i);
        report := report + [Entry(g.code, g.subjects, scores, Sum(scores))];
        found := true;
      } else {
        GroupSkippedStep(data, GroupTable, i);
      }
      i := i + 1;
    }
    assert GroupTable[..i] == GroupTable;
  }

  /** The loop step for a qualifying group: its entry is appended. */
  lemma GroupListedStep(data: Record, table: seq<Group>, i: nat)
    requires i < |table| && Qualifies(data, table[i].subjects)
    ensures Report(data, table[..i + 1]) == Report(data, table[..i]) + [EntryOf(data, table[i])]
  {
    FlatMapStep(table, i, Lister(data));
  }

  /** The loop step for any other group: nothing is appended. */
  lemma GroupSkippedStep(data: Record, table: seq<Group>, i: nat)
    requires i < |table| && !Qualifies(data, table[i].subjects)
    ensures Report(data, table[..i + 1]) == Report(data, table[..i])
  {
    FlatMapStep(table, i, Lister(data));
    AppendEmpty(Report(data, table[..i]));
  }

  // The table

  /** The six subject names differ from one another. */
  lemma SubjectNamesDiffer()
    ensures Math != Literature && Math != English && Math != Physics && Math != Chemistry && Math != Biology
    ensures Literature != English && Literature != Physics && Literature != Chemistry && Literature != Biology
    ensures English != Physics && English != Chemistry && English != Biology
    ensures Physics != Chemistry && Physics != Biology && Chemistry != Biology
  {
    assert Math[0] == 'T' && Literature[0] == 'V' && English[0] == 'A';
    assert Physics[0] == 'L' && Chemistry[0] == 'H' && Biology[0] == 'S';
  }

  /** A number for each three-letter code; equal codes have equal numbers. */
  function CodeRank(code: string): int
  {
    if |code| == 3 then (code[0] as int) * 65536 + (code[1] as int) * 256 + code[2] as int else -1
  }

  /** Fifteen groups with distinct codes. */
  lemma CodesDistinct()
    ensures |GroupTable| == 15
    ensures forall i, j :: 0 <= i < j < |GroupTable| ==> GroupTable[i].code != GroupTable[j].code
  {
    forall i, j | 0 <= i < j < |GroupTable| ensures GroupTable[i].code != GroupTable[j].code {
      assert CodeRank(GroupTable[i].code) != CodeRank(GroupTable[j].code);
    }
  }

  /** Each group names three distinct subjects among the six that are totalled. */
  lemma GroupSubjects()
    ensures forall i :: 0 <= i < |GroupTable| ==> |GroupTable[i].subjects| == 3 && Distinct(GroupTable[i].subjects)
    ensures forall i, k :: 0 <= i < |GroupTable| && 0 <= k < 3 ==> GroupTable[i].subjects[k] in Subjects
  {
    SubjectNamesDiffer();
  }

  /** The groups that need Chemistry are rows 0, 3, 7, 8, 10 and 13 of the table. */
  lemma ChemistryGroups()
    ensures forall i :: 0 <= i < |GroupTable| ==> (Chemistry in GroupTable[i].subjects <==> i in ChemistryRows)
  {
    SubjectNamesDiffer();
    forall i | 0 <= i < |GroupTable| ensures Chemistry in GroupTable[i].subjects <==> i in ChemistryRows {
      ThreeMembers(GroupTable[i].subjects, Chemistry);
    }
  }

  /** Those rows are the groups A00, B00, C02, C08, D07 and D12. */
  lemma ChemistryGroupCodes()
    ensures forall i :: 0 <= i < |GroupTable| ==> (GroupTable[i].code in ChemistryCodes <==> i in ChemistryRows)
  {
  }

  // The listing

  /** The listed score of a subject holding a valid score is its parsed number. */
  lemma ScoresOfValues(data: Record, subjects: seq<string>, k: nat)
    requires Qualifies(data, subjects) && k < |subjects|
    ensures ScoresOf(data, subjects)[k] == ScoreValue(Get(data, subjects[k]))
  {
    MapSeqAt(subjects, ScoreReader(data), k);
  }

  /** Three numbers add up left to right from 0. */
  lemma SumOfThree(s: seq<real>)
    requires |s| == 3
    ensures Sum(s) == s[0] + s[1] + s[2]
  {
    assert Sum(s[..1]) == s[0] by {
      assert s[..1][..0] == [];
    }
    assert s[..2][..1] == s[..1];
  }

  /** A listed group carries the parsed score of each of its subjects and their sum. */
  lemma EntryScores(data: Record, g: Group)
    requires |g.subjects| == 3 && Qualifies(data, g.subjects)
    ensures var e := EntryOf(data, g);
      e.code == g.code && e.subjects == g.subjects && |e.scores| == 3
      && (forall k :: 0 <= k < 3 ==> e.scores[k] == ScoreValue(Get(data, g.subjects[k])))
      && e.sum == e.scores[0] + e.scores[1] + e.scores[2]
  {
    var s := ScoresOf(data, g.subjects);
    forall k | 0 <= k < 3 ensures s[k] == ScoreValue(Get(data, g.subjects[k])) {
      ScoresOfValues(data, g.subjects, k);
    }
    SumOfThree(s);
  }

  /**
   * An entry is listed exactly when it is the listing of a group of the table
   * whose subjects all hold valid scores.
   */
  lemma ReportMembers(data: Record, table: seq<Group>, e: Entry)
    ensures e in Report(data, table) <==>
      exists i :: 0 <= i < |table| && Qualifies(data, table[i].subjects) && e == EntryOf(data, table[i])
  {
    var f := Lister(data);
    if e in Report(data, table) {
      FlatMapFrom(table, f);
      var i :| 0 <= i < |table| && e in f(table[i]);
      assert Qualifies(data, table[i].subjects) && e == EntryOf(data, table[i]);
    }
    if exists i :: 0 <= i < |table| && Qualifies(data, table[i].subjects) && e == EntryOf(data, table[i]) {
      var i :| 0 <= i < |table| && Qualifies(data, table[i].subjects) && e == EntryOf(data, table[i]);
      assert e in f(table[i]);
      FlatMapTo(table, f, i, e);
    }
  }

  /** Listing a table in two parts lists the first part's groups before the second's. */
  lemma ReportSplit(data: Record, a: seq<Group>, b: seq<Group>)
    ensures Report(data, a + b) == Report(data, a) + Report(data, b)
  {
    FlatMapAppend(a, b, Lister(data));
  }

  /** When every group qualifies, each is listed in table order. */
  lemma ReportOfAll(data: Record, table: seq<Group>)
    requires forall i :: 0 <= i < |table| ==> Qualifies(data, table[i].subjects)
    ensures |Report(data, table)| == |table|
    ensures forall i :: 0 <= i < |table| ==> Report(data, table)[i] == EntryOf(data, table[i])
  {
    GroupsListed(data, table);
    FlatMapSingles(table, Lister(data), Entrant(data));
  }

  /** The entry of a group, as a function of the group. */
  function Entrant(data: Record): Group -> Entry
  {
    (g: Group) => EntryOf(data, g)
  }

  lemma GroupsListed(data: Record, table: seq<Group>)
    requires forall i :: 0 <= i < |table| ==> Qualifies(data, table[i].subjects)
    ensures forall i :: 0 <= i < |table| ==> Lister(data)(table[i]) == [Entrant(data)(table[i])]
  {
  }

  /** A group listed before another in the table is listed before it in the report. */
  lemma ReportOrder(data: Record, table: seq<Group>, i: nat, j: nat)
    requires i < j < |table|
    requires Qualifies(data, table[i].subjects) && Qualifies(data, table[j].subjects)
    ensures exists p, q :: 0 <= p < q < |Report(data, table)|
                        && Report(data, table)[p] == EntryOf(data, table[i])
                        && Report(data, table)[q] == EntryOf(data, table[j])
  {
    var a, b := table[..j], table[j..];
    assert table == a + b;
    ReportSplit(data, a, b);
    var ra, rb := Report(data, a), Report(data, b);
    SliceAt(table, j, i);
    ReportMembers(data, a, EntryOf(data, table[i]));
    var p :| 0 <= p < |ra| && ra[p] == EntryOf(data, table[i]);
    ReportHead(data, b);
    var q := |ra|;
    assert (ra + rb)[p] == ra[p] && (ra + rb)[q] == rb[0];
  }

  /** A qualifying first group is listed first. */
  lemma ReportHead(data: Record, table: seq<Group>)
    requires table != [] && Qualifies(data, table[0].subjects)
    ensures Report(data, table) != [] && Report(data, table)[0] == EntryOf(data, table[0])
  {
    var head, tail := table[..1], table[1..];
    assert table == head + tail;
    ReportSplit(data, head, tail);
    GroupListedStep(data, table, 0);
    assert table[..0] == [];
  }

  /** No group is listed when none qualifies: the "no group" message is shown. */
  lemma ReportOfNone(data: Record, table: seq<Group>)
    requires forall i :: 0 <= i < |table| ==> !Qualifies(data, table[i].subjects)
    ensures Report(data, table) == []
  {
    var f := Lister(data);
    assert forall i :: 0 <= i < |table| ==> f(table[i]) == [];
    FlatMapNone(table, f);
  }

  /** The "no group" message appears exactly when no group of the table qualifies. */
  lemma NothingListed(data: Record, table: seq<Group>)
    ensures Report(data, table) == [] <==> forall i :: 0 <= i < |table| ==> !Qualifies(data, table[i].subjects)
  {
    if exists i :: 0 <= i < |table| && Qualifies(data, table[i].subjects) {
      var i :| 0 <= i < |table| && Qualifies(data, table[i].subjects);
      ReportMembers(data, table, EntryOf(data, table[i]));
    } else {
      ReportOfNone(data, table);
    }
  }

  /** Every listed group has a valid score in each of its subjects. */
  lemma ListedSubjectsValid(data: Record, table: seq<Group>, e: Entry)
    requires e in Report(data, table)
    ensures forall k :: 0 <= k < |e.subjects| ==> IsValidScore(Get(data, e.subjects[k]))
  {
    ReportMembers(data, table, e);
  }

  /**
   * A subject without a valid score (missing, "N/V", "VẮNG" or the number 0)
   * excludes every group that needs it.
   */
  lemma MissingSubjectExcludes(data: Record, subject: string, e: Entry)
    requires !IsValidScore(Get(data, subject))
    requires e in Report(data, GroupTable)
    ensures subject !in e.subjects
  {
    ListedSubjectsValid(data, GroupTable, e);
  }

  /** A record without a valid Chemistry ("Hóa") score never lists A00, B00, C02, C08, D07 or D12. */
  lemma NoChemistryGroups(data: Record, e: Entry)
    requires !IsValidScore(Get(data, Chemistry))
    requires e in Report(data, GroupTable)
    ensures e.code !in ChemistryCodes
  {
    ReportMembers(data, GroupTable, e);
    var j :| 0 <= j < |GroupTable| && Qualifies(data, GroupTable[j].subjects) && e == EntryOf(data, GroupTable[j]);
    MissingSubjectExcludes(data, Chemistry, e);
    ChemistryGroups();
    ChemistryGroupCodes();
  }

  /** A subject stored as the number 0 excludes every group that needs it. */
  lemma ZeroScoreExcludes(data: Record, subject: string, e: Entry)
    requires Get(data, subject) == Some(Num(0.0))
    requires e in Report(data, GroupTable)
    ensures subject !in e.subjects
  {
    MissingSubjectExcludes(data, subject, e);
  }
}
