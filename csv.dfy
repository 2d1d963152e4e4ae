/**
 * `parseCSV`: non-blank lines, a header row split on commas, one record per
 * data row whose field count matches the header, subject reconciliation and
 * the stored total.
 */
module Csv {
  import opened Wrappers
  import opened Strings
  import opened Scores
  import opened Totals
  import opened Tokenizer
  import opened Seqs

  /** The key under which each record keeps its total, "Tổng điểm". */
  const TotalKey: string := "T\U{1ED5}ng \U{111}i\U{1EC3}m"

  /** The byte order mark the header row may start with. */
  const Bom: char := '\U{FEFF}'

  /**
   * For each subject, the spellings looked up in order: the three compulsory
   * subjects also list a spelling with a trailing space.
   */
  const SubjectMap: seq<(string, seq<string>)> := [
    (Math, [Math, Math + " "]),
    (Literature, [Literature, Literature + " "]),
    (English, [English, English + " "]),
    (Physics, [Physics]),
    (Chemistry, [Chemistry]),
    (Biology, [Biology])
  ]

  /** `line => line.trim()` as a test: the line is not all white space. */
  predicate NotBlank(line: string)
  {
    Trim(line) != ""
  }

  /** The lines `parseCSV` works on: the pieces of the text between line feeds that are not blank. */
  function Lines(text: string): (r: seq<string>)
    ensures forall l :: l in r <==> l in Split(text, '\n') && Trim(l) != ""
  {
    FilterMembers(Split(text, '\n'), NotBlank);
    Filter(Split(text, '\n'), NotBlank)
  }

  /** `replace(/^\uFEFF/, '')`: drops one leading byte order mark (U+FEFF) and nothing else. */
  function StripBom(line: string): (r: string)
    ensures line == [Bom] + r || (r == line && (line == [] || line[0] != Bom))
  {
    if line != [] && line[0] == Bom then line[1..] else line
  }

  /** The header names: split on every comma, quotes or not, and trimmed. */
  function HeaderNames(line: string): (r: seq<string>)
    ensures |r| == Count(StripBom(line), ',') + 1
  {
    TrimAll(Split(StripBom(line), ','))
  }

  /** Stores each value under the name at the same position; a later name overwrites an earlier one. */
  function Assign(names: seq<string>, values: seq<string>): Record
    requires |names| == |values|
  {
    if names == [] then map[]
    else
      var n := |names| - 1;
      Assign(names[..n], values[..n])[names[n] := Text(values[n])]
  }

  /** `headers.forEach((h, idx) => student[h.trim()] = values[idx])`. */
  function FieldMap(headers: seq<string>, values: seq<string>): Record
    requires |headers| == |values|
  {
    Assign(TrimAll(headers), values)
  }

  /** The first present, non-empty cell among `keys`; `None` is the source's `null`. */
  function FirstPresent(student: Record, keys: seq<string>): Option<Value>
  {
    if keys == [] then None
    else if keys[0] in student && student[keys[0]] != Text("") then Some(student[keys[0]])
    else FirstPresent(student, keys[1..])
  }

  /** The subject loop: each entry in turn stores the parsed score of its first present spelling. */
  function Reconcile(student: Record, entries: seq<(string, seq<string>)>): Record
  {
    if entries == [] then student
    else
      var n := |entries| - 1;
      var prev := Reconcile(student, entries[..n]);
      prev[entries[n].0 := ParseScore(FirstPresent(prev, entries[n].1))]
  }

  /** The record built from one well-formed data row. */
  function BuildRecord(headers: seq<string>, values: seq<string>): Record
    requires |headers| == |values|
  {
    var student := Reconcile(FieldMap(headers, values), SubjectMap);
    student[TotalKey := Num(TotalScore(student))]
  }

  /** What one data row contributes: its record when the field count matches, nothing otherwise. */
  function RowRecords(headers: seq<string>, row: string): seq<Record>
  {
    var values := Tokenize(row);
    if |values| == |headers| then [BuildRecord(headers, values)] else []
  }

  /** The records of the data rows whose field count equals the header count, in order. */
  function ParseRows(headers: seq<string>, rows: seq<string>): seq<Record>
  {
    FlatMap(rows, RowParser(headers))
  }

  /** `RowRecords` for one header row, as a function of the row. */
  function RowParser(headers: seq<string>): string -> seq<Record>
  {
    (row: string) => RowRecords(headers, row)
  }

  /** What `parseCSV(text)` returns. */
  function Records(text: string): seq<Record>
  {
    var lines := Lines(text);
    if |lines| < 2 then [] else ParseRows(HeaderNames(lines[0]), lines[1..])
  }

  /** The header loop: one key per header name, the later of two equal names winning. */
  method FillFields(headers: seq<string>, values: seq<string>) returns (student: Record)
    requires |headers| == |values|
    ensures student == FieldMap(headers, values)
  {
    ghost var names := TrimAll(headers);
    student := map[];
    var idx := 0;
    while idx < |headers|
      invariant 0 <= idx <= |headers|
      invariant student == Assign(names[..idx], values[..idx])
    {
      TrimAllAt(headers, idx);
      AssignStep(names, values, idx);
      student := student[Trim(headers[idx]) := Text(values[idx])];
      idx := idx + 1;
    }
    assert names[..idx] == names && values[..idx] == values;
  }


  /** The inner loop over one subject's spellings, stopping at the first present cell. */
  method FindCell(student: Record, keys: seq<string>) returns (score: Option<Value>)
    ensures score == FirstPresent(student, keys)
  {
    score := None;
    var k := 0;
    while k < |keys|
      invariant 0 <= k <= |keys|
      invariant FirstPresent(student, keys) == FirstPresent(student, keys[k..])
    {
      assert keys[k..][1..] == keys[k + 1..];
      if keys[k] in student && student[keys[k]] != Text("") {
        score := Some(student[keys[k]]);
        break;
      }
      k := k + 1;
    }
  }

  /** The subject loop of `parseCSV`, updating the record in place. */
  method ReconcileSubjects(fields: Record) returns (student: Record)
    ensures student == Reconcile(fields, SubjectMap)
  {
    student := fields;
    var e := 0;
    while e < |SubjectMap|
      invariant 0 <= e <= |SubjectMap|
      invariant student == Reconcile(fields, SubjectMap[..e])
    {
      var (key, spellings) := SubjectMap[e];
      var score := FindCell(student, spellings);
      assert SubjectMap[..e + 1][..e] == SubjectMap[..e];
      student := student[key := ParseScore(score)];
      e := e + 1;
    }
    assert SubjectMap[..e] == SubjectMap;
  }

  /** The body of the row loop for a well-formed row: fields, subjects, then the total. */
  method BuildStudent(headers: seq<string>, values: seq<string>) returns (student: Record)
    requires |headers| == |values|
    ensures student == BuildRecord(headers, values)
  {
    var fields := FillFields(headers, values);
    student := ReconcileSubjects(fields);
    var total := CalculateTotalScore(student);
    student := student[TotalKey := Num(total)];
  }

  /** `parseCSV`: the records of the well-formed data rows, in input order. */
  method ParseCsv(text: string) returns (students: seq<Record>)
    ensures students == Records(text)
  {
    var lines := Lines(text);
    if |lines| < 2 {
      students := [];
    } else {
      var headers := HeaderNames(lines[0]);
      students := ParseDataRows(headers, lines[1..]);
    }
  }

  /** The row loop of `parseCSV`: builds and appends the record of each well-formed row. */
  method ParseDataRows(headers: seq<string>, rows: seq<string>) returns (students: seq<Record>)
    ensures students == ParseRows(headers, rows)
  {
    students := [];
    var i := 0;
    while i < |rows|
      invariant 0 <= i <= |rows|
      invariant students == ParseRows(headers, rows[..i])
    {
      var values := TokenizeLine(rows[i]);
      if |values| == |headers| {
        var student := BuildStudent(headers, values);
        RowKeptStep(headers, rows, i, student);
        students := students + [student];
      } else {
        RowDroppedStep(headers, rows, i);
      }
      i := i + 1;
    }
    assert rows[..i] == rows;
  }

  /** The header loop's step: the name at `idx` receives the cell at `idx`. */
  lemma AssignStep(names: seq<string>, values: seq<string>, idx: nat)
    requires |names| == |values| && idx < |names|
    ensures Assign(names[..idx + 1], values[..idx + 1]) == Assign(names[..idx], values[..idx])[names[idx] := Text(values[idx])]
  {
    assert names[..idx + 1][..idx] == names[..idx];
    assert values[..idx + 1][..idx] == values[..idx];
  }

  /** The loop step for a row with the header's field count: its record is appended. */
  lemma RowKeptStep(headers: seq<string>, rows: seq<string>, i: nat, student: Record)
    requires i < |rows| && |Tokenize(rows[i])| == |headers|
    requires student == BuildRecord(headers, Tokenize(rows[i]))
    ensures ParseRows(headers, rows[..i + 1]) == ParseRows(headers, rows[..i]) + [student]
  {
    FlatMapStep(rows, i, RowParser(headers));
  }

  /** The loop step for any other row: nothing is appended. */
  lemma RowDroppedStep(headers: seq<string>, rows: seq<string>, i: nat)
    requires i < |rows| && |Tokenize(rows[i])| != |headers|
    ensures ParseRows(headers, rows[..i + 1]) == ParseRows(headers, rows[..i])
  {
    FlatMapStep(rows, i, RowParser(headers));
    AppendEmpty(ParseRows(headers, rows[..i]));
  }

  // Lines

  /** A blank line, white space only, is dropped and changes nothing else. */
  lemma BlankLineDropped(before: seq<string>, blank: string, after: seq<string>)
    requires Trim(blank) == ""
    ensures Filter(before + [blank] + after, NotBlank) == Filter(before + after, NotBlank)
  {
    FilterDrops(before, blank, after, NotBlank);
  }

  /** The lines of a text: none is blank, none holds a line feed, at most one more than its line feeds. */
  lemma LinesOfText(text: string)
    ensures |Lines(text)| <= Count(text, '\n') + 1
    ensures forall l :: l in Lines(text) ==> Trim(l) != "" && '\n' !in l
  {
    var pieces := Split(text, '\n');
    FilterMembers(pieces, NotBlank);
    forall l | l in Lines(text) ensures Trim(l) != "" && '\n' !in l {
      assert l in pieces;
    }
  }

  // Rows

  /** One more data row adds its record when its field count matches, and nothing otherwise. */
  lemma ParseRowsSnoc(headers: seq<string>, rows: seq<string>, row: string)
    ensures ParseRows(headers, rows + [row]) ==
      if |Tokenize(row)| == |headers| then ParseRows(headers, rows) + [BuildRecord(headers, Tokenize(row))]
      else ParseRows(headers, rows)
  {
    FlatMapSnoc(rows, row, RowParser(headers));
    AppendEmpty(ParseRows(headers, rows));
  }

  /** There is at most one record per data row. */
  lemma ParseRowsBound(headers: seq<string>, rows: seq<string>)
    ensures |ParseRows(headers, rows)| <= |rows|
  {
    var f := RowParser(headers);
    forall i | 0 <= i < |rows| ensures |f(rows[i])| <= 1 {
    }
    FlatMapBound(rows, f);
  }

  /** Rows are parsed independently: the records of two blocks of rows are concatenated in order. */
  lemma ParseRowsAppend(headers: seq<string>, a: seq<string>, b: seq<string>)
    ensures ParseRows(headers, a + b) == ParseRows(headers, a) + ParseRows(headers, b)
  {
    FlatMapAppend(a, b, RowParser(headers));
  }

  /** A row whose field count differs from the header's is dropped without trace. */
  lemma MalformedRowDropped(headers: seq<string>, before: seq<string>, row: string, after: seq<string>)
    requires |Tokenize(row)| != |headers|
    ensures ParseRows(headers, before + [row] + after) == ParseRows(headers, before + after)
  {
    assert RowParser(headers)(row) == [];
    FlatMapDrops(before, row, after, RowParser(headers));
  }

  /** When every row is well formed, there is one record per row, in the same order. */
  lemma AllRowsKept(headers: seq<string>, rows: seq<string>)
    requires forall i :: 0 <= i < |rows| ==> |Tokenize(rows[i])| == |headers|
    ensures |ParseRows(headers, rows)| == |rows|
    ensures forall i :: 0 <= i < |rows| ==> ParseRows(headers, rows)[i] == BuildRecord(headers, Tokenize(rows[i]))
  {
    RowsKept(headers, rows);
    FlatMapSingles(rows, RowParser(headers), RowBuilder(headers));
    forall i | 0 <= i < |rows| ensures ParseRows(headers, rows)[i] == BuildRecord(headers, Tokenize(rows[i])) {
      RowBuilt(headers, rows[i]);
    }
  }

  lemma RowBuilt(headers: seq<string>, row: string)
    requires |Tokenize(row)| == |headers|
    ensures RowBuilder(headers)(row) == BuildRecord(headers, Tokenize(row))
  {
  }

  lemma RowsKept(headers: seq<string>, rows: seq<string>)
    requires forall i :: 0 <= i < |rows| ==> |Tokenize(rows[i])| == |headers|
    ensures forall i :: 0 <= i < |rows| ==> RowParser(headers)(rows[i]) == [RowBuilder(headers)(rows[i])]
  {
    forall i | 0 <= i < |rows| ensures RowParser(headers)(rows[i]) == [RowBuilder(headers)(rows[i])] {
      RowKept(headers, rows[i]);
    }
  }

  /** The record of a well-formed row, as a function of the row. */
  function RowBuilder(headers: seq<string>): string -> Record
  {
    (row: string) => var values := Tokenize(row); if |values| == |headers| then BuildRecord(headers, values) else map[]
  }

  lemma RowKept(headers: seq<string>, row: string)
    requires |Tokenize(row)| == |headers|
    ensures RowParser(headers)(row) == [RowBuilder(headers)(row)]
  {
  }

  /** `parseCSV` gives nothing for fewer than two lines, and otherwise at most one record per data line. */
  lemma RecordCount(text: string)
    ensures |Lines(text)| < 2 ==> Records(text) == []
    ensures |Lines(text)| >= 2 ==> |Records(text)| <= |Lines(text)| - 1
  {
    var lines := Lines(text);
    if |lines| >= 2 {
      ParseRowsBound(HeaderNames(lines[0]), lines[1..]);
    }
  }

  // Header

  /**
   * The header names: one more than the commas after the byte order mark is
   * dropped, each trimmed; without quotes they are what the field scanner gives.
   */
  lemma HeaderNamesFacts(line: string)
    ensures |HeaderNames(line)| == Count(StripBom(line), ',') + 1
    ensures forall i :: 0 <= i < |HeaderNames(line)| ==> IsTrimmed(HeaderNames(line)[i])
    ensures '"' !in StripBom(line) ==> HeaderNames(line) == Tokenize(StripBom(line))
  {
    var pieces := Split(StripBom(line), ',');
    forall i | 0 <= i < |HeaderNames(line)| ensures IsTrimmed(HeaderNames(line)[i]) {
      TrimAllAt(pieces, i);
    }
    if '"' !in StripBom(line) {
      QuoteFreeSplit(StripBom(line));
    }
  }

  /** One leading byte order mark is removed before the header is split. */
  lemma BomRemoved(rest: string)
    ensures rest == [] || rest[0] != Bom ==> HeaderNames([Bom] + rest) == HeaderNames(rest)
  {
    assert ([Bom] + rest)[1..] == rest;
    assert StripBom([Bom] + rest) == rest;
    if rest == [] || rest[0] != Bom {
      assert StripBom(rest) == rest;
    }
  }

  // Fields

  lemma {:induction false} AssignKeys(names: seq<string>, values: seq<string>)
    requires |names| == |values|
    ensures forall k :: k in Assign(names, values) <==> k in names
    ensures forall k :: k in Assign(names, values) ==> Assign(names, values)[k].Text?
  {
    if names != [] {
      var n := |names| - 1;
      AssignKeys(names[..n], values[..n]);
      SnocMembers(names);
    }
  }


  lemma {:induction false} AssignLastWins(names: seq<string>, values: seq<string>, i: nat)
    requires |names| == |values| && i < |names|
    requires forall j :: i < j < |names| ==> names[j] != names[i]
    ensures Get(Assign(names, values), names[i]) == Some(Text(values[i]))
  {
    var n := |names| - 1;
    if i < n {
      assert forall j :: i < j < n ==> names[..n][j] == names[j];
      AssignLastWins(names[..n], values[..n], i);
    }
  }

  /** The keys of the field map are exactly the trimmed header names, and every value is a raw cell. */
  lemma FieldMapKeys(headers: seq<string>, values: seq<string>, key: string)
    requires |headers| == |values|
    ensures key in FieldMap(headers, values) <==> exists i :: 0 <= i < |headers| && Trim(headers[i]) == key
  {
    var names := TrimAll(headers);
    AssignKeys(names, values);
    if key in names {
      var i :| 0 <= i < |names| && names[i] == key;
      TrimAllAt(headers, i);
    }
    if exists i :: 0 <= i < |headers| && Trim(headers[i]) == key {
      var i :| 0 <= i < |headers| && Trim(headers[i]) == key;
      TrimAllAt(headers, i);
      assert names[i] == key;
    }
  }

  /** Every value of the field map is a raw cell, stored under a trimmed name. */
  lemma FieldMapValues(headers: seq<string>, values: seq<string>, key: string)
    requires |headers| == |values|
    requires key in FieldMap(headers, values)
    ensures FieldMap(headers, values)[key].Text? && IsTrimmed(key)
  {
    AssignKeys(TrimAll(headers), values);
    FieldMapKeys(headers, values, key);
  }

  /** A header name maps to the cell of its last occurrence: a later duplicate overwrites. */
  lemma LastDuplicateWins(headers: seq<string>, values: seq<string>, i: nat)
    requires |headers| == |values| && i < |headers|
    requires forall j :: i < j < |headers| ==> Trim(headers[j]) != Trim(headers[i])
    ensures Get(FieldMap(headers, values), Trim(headers[i])) == Some(Text(values[i]))
  {
    var names := TrimAll(headers);
    forall j | 0 <= j < |headers| ensures names[j] == Trim(headers[j]) {
      TrimAllAt(headers, j);
    }
    AssignLastWins(names, values, i);
  }

  // Subjects

  /** The first spelling found is the same in two records that agree on every spelling. */
  lemma {:induction false} FirstPresentAgree(a: Record, b: Record, keys: seq<string>)
    requires forall k :: k in keys ==> Get(a, k) == Get(b, k)
    ensures FirstPresent(a, keys) == FirstPresent(b, keys)
  {
    if keys != [] {
      assert keys[0] in keys;
      assert forall k :: k in keys[1..] ==> k in keys;
      FirstPresentAgree(a, b, keys[1..]);
    }
  }

  /** The subject loop leaves every key that is not a subject key as it was. */
  lemma {:induction false} ReconcileKeepsOthers(student: Record, entries: seq<(string, seq<string>)>, key: string)
    requires forall j :: 0 <= j < |entries| ==> entries[j].0 != key
    ensures Get(Reconcile(student, entries), key) == Get(student, key)
  {
    if entries != [] {
      var n := |entries| - 1;
      assert forall j :: 0 <= j < n ==> entries[..n][j] == entries[j];
      ReconcileKeepsOthers(student, entries[..n], key);
    }
  }

  lemma {:induction false} ReconcileSplit(student: Record, a: seq<(string, seq<string>)>, b: seq<(string, seq<string>)>)
    ensures Reconcile(student, a + b) == Reconcile(Reconcile(student, a), b)
  {
    if b == [] {
      AppendEmpty(a);
    } else {
      var n := |b| - 1;
      SnocSplit(a, b);
      assert (a + b)[..|a + b| - 1] == a + b[..n];
      assert (a + b)[|a + b| - 1] == b[n];
      ReconcileSplit(student, a, b[..n]);
    }
  }

  /** The entry at position `e` stores the parsed score of its first spelling present just before it. */
  lemma ReconcileAt(student: Record, entries: seq<(string, seq<string>)>, e: nat)
    requires e < |entries|
    ensures Get(Reconcile(student, entries[..e + 1]), entries[e].0)
         == Some(ParseScore(FirstPresent(Reconcile(student, entries[..e]), entries[e].1)))
  {
    assert entries[..e + 1][..e] == entries[..e];
  }

  /**
   * One subject entry stores the parsed score of its first present spelling,
   * provided no other entry writes its key, and no earlier entry one of its spellings.
   */
  lemma ReconcileEntry(student: Record, entries: seq<(string, seq<string>)>, e: nat)
    requires e < |entries|
    requires forall j :: 0 <= j < |entries| && j != e ==> entries[j].0 != entries[e].0
    requires forall j, k :: 0 <= j < e && k in entries[e].1 ==> entries[j].0 != k
    ensures Get(Reconcile(student, entries), entries[e].0) == Some(ParseScore(FirstPresent(student, entries[e].1)))
  {
    var key := entries[e].0;
    var before := entries[..e];
    var upto := entries[..e + 1];
    var after := entries[e + 1..];
    ReconcileAt(student, entries, e);
    var prev := Reconcile(student, before);
    forall k | k in entries[e].1 ensures Get(prev, k) == Get(student, k) {
      ReconcileKeepsOthers(student, before, k);
    }
    FirstPresentAgree(prev, student, entries[e].1);
    assert forall j :: 0 <= j < |after| ==> after[j] == entries[e + 1 + j];
    ReconcileKeepsOthers(Reconcile(student, upto), after, key);
    assert entries == upto + after;
    ReconcileSplit(student, upto, after);
  }

  /** The subject table has one entry per subject, in the order of `Subjects`, each tried first under its own name. */
  lemma SubjectMapShape()
    ensures |SubjectMap| == |Subjects|
    ensures forall e :: 0 <= e < |SubjectMap| ==> SubjectMap[e].0 == Subjects[e]
    ensures forall e :: 0 <= e < |SubjectMap| ==>
      SubjectMap[e].1 == [Subjects[e]] || SubjectMap[e].1 == [Subjects[e], Subjects[e] + " "]
    ensures TotalKey !in Subjects
  {
  }

  /** After the subject loop, each subject holds the parsed score of its first spelling present in the row. */
  lemma ReconcileSubject(student: Record, e: nat)
    requires e < |Subjects|
    ensures Get(Reconcile(student, SubjectMap), Subjects[e])
         == Some(ParseScore(FirstPresent(student, SubjectMap[e].1)))
  {
    SubjectMapShape();
    SubjectsDistinct();
    forall j, k | 0 <= j < e && k in SubjectMap[e].1 ensures SubjectMap[j].0 != k {
      if k != Subjects[e] {
        assert k == Subjects[e] + " ";
        NotTrimmedWithSpace(Subjects[e]);
      }
    }
    ReconcileEntry(student, SubjectMap, e);
  }

  /** A name ending in a space is never a trimmed name. */
  lemma NotTrimmedWithSpace(key: string)
    ensures !IsTrimmed(key + " ")
  {
    assert (key + " ")[|key + " "| - 1] == ' ';
  }

  /**
   * The trailing-space spellings are dead: every key of a row's field map is
   * trimmed, so `Toán ` & co. are never present and the lookup is decided by
   * the plain name alone.
   */
  lemma TrailingSpaceNeverMatches(student: Record, key: string)
    requires forall k :: k in student ==> IsTrimmed(k)
    ensures key + " " !in student
    ensures FirstPresent(student, [key, key + " "]) == FirstPresent(student, [key])
  {
    NotTrimmedWithSpace(key);
    assert [key, key + " "][1..] == [key + " "];
    assert [key + " "][1..] == [];
    assert FirstPresent(student, [key + " "]) == None;
    assert [key][1..] == [];
  }

  /**
   * The subject score a record holds: the parsed score of that subject's cell
   * when the column exists and the cell is not empty, the parse of `null` otherwise.
   */
  lemma SubjectOfRecord(headers: seq<string>, values: seq<string>, e: nat)
    requires |headers| == |values| && e < |Subjects|
    ensures Get(BuildRecord(headers, values), Subjects[e])
         == Some(ParseScore(FirstPresent(FieldMap(headers, values), [Subjects[e]])))
    ensures Get(BuildRecord(headers, values), Subjects[e]).value == Text(NotPresent)
         || Get(BuildRecord(headers, values), Subjects[e]).value.Num?
  {
    var fields := FieldMap(headers, values);
    SubjectMapShape();
    ReconcileSubject(fields, e);
    forall k | k in fields ensures IsTrimmed(k) {
      FieldMapKeys(headers, values, k);
    }
    TrailingSpaceNeverMatches(fields, Subjects[e]);
  }

  /** The subject read from column `i`, the last column whose trimmed name is that subject. */
  lemma SubjectFromColumn(headers: seq<string>, values: seq<string>, e: nat, i: nat)
    requires |headers| == |values| && e < |Subjects| && i < |headers|
    requires Trim(headers[i]) == Subjects[e]
    requires forall j :: i < j < |headers| ==> Trim(headers[j]) != Subjects[e]
    ensures values[i] != "" ==> Get(BuildRecord(headers, values), Subjects[e]) == Some(ParseScore(Some(Text(values[i]))))
    ensures values[i] == "" ==> Get(BuildRecord(headers, values), Subjects[e]) == Some(Text(NotPresent))
  {
    SubjectOfRecord(headers, values, e);
    LastDuplicateWins(headers, values, i);
    assert [Subjects[e]][1..] == [];
  }

  /** A subject with no column in the header row is stored as "N/V". */
  lemma MissingSubjectColumn(headers: seq<string>, values: seq<string>, e: nat)
    requires |headers| == |values| && e < |Subjects|
    requires forall j :: 0 <= j < |headers| ==> Trim(headers[j]) != Subjects[e]
    ensures Get(BuildRecord(headers, values), Subjects[e]) == Some(Text(NotPresent))
  {
    SubjectOfRecord(headers, values, e);
    FieldMapKeys(headers, values, Subjects[e]);
    assert [Subjects[e]][1..] == [];
  }

  /** Every other column keeps its raw trimmed cell as text. */
  lemma OtherFieldKept(headers: seq<string>, values: seq<string>, key: string)
    requires |headers| == |values|
    requires key !in Subjects && key != TotalKey
    ensures Get(BuildRecord(headers, values), key) == Get(FieldMap(headers, values), key)
  {
    SubjectMapShape();
    ReconcileKeepsOthers(FieldMap(headers, values), SubjectMap, key);
  }

  /** The total stored in a record is the total of that record's own subject scores. */
  lemma StoredTotal(headers: seq<string>, values: seq<string>)
    requires |headers| == |values|
    ensures TotalKey in BuildRecord(headers, values)
    ensures BuildRecord(headers, values)[TotalKey] == Num(TotalScore(BuildRecord(headers, values)))
  {
    var student := Reconcile(FieldMap(headers, values), SubjectMap);
    SubjectMapShape();
    TotalIgnoresOtherKeys(student, TotalKey, Num(TotalScore(student)));
  }

  /** Every record `parseCSV` returns was built from one of its data rows. */
  lemma ParseRowsBuilt(headers: seq<string>, rows: seq<string>)
    ensures forall r :: r in ParseRows(headers, rows) ==> exists i :: 0 <= i < |rows| && r in RowRecords(headers, rows[i])
  {
    FlatMapFrom(rows, RowParser(headers));
  }


  /** A record a row contributes is that row's record, and the row has the header's field count. */
  lemma RowRecordsMember(headers: seq<string>, row: string, r: Record)
    requires r in RowRecords(headers, row)
    ensures |Tokenize(row)| == |headers| && r == BuildRecord(headers, Tokenize(row))
  {
  }

  /** A column that is not a subject and not the total, such as `SBD`, is absent or text in every record. */
  lemma OtherFieldIsText(text: string, key: string)
    requires key !in Subjects && key != TotalKey
    ensures forall r :: r in Records(text) ==> Get(r, key) == None || Get(r, key).value.Text?
  {
    var lines := Lines(text);
    if |lines| >= 2 {
      var headers := HeaderNames(lines[0]);
      ParseRowsBuilt(headers, lines[1..]);
      forall r | r in Records(text) ensures Get(r, key) == None || Get(r, key).value.Text? {
        var i :| 0 <= i < |lines[1..]| && r in RowRecords(headers, lines[1..][i]);
        RowRecordsMember(headers, lines[1..][i], r);
        BuiltOtherField(headers, Tokenize(lines[1..][i]), key);
      }
    }
  }

  lemma BuiltOtherField(headers: seq<string>, values: seq<string>, key: string)
    requires |headers| == |values|
    requires key !in Subjects && key != TotalKey
    ensures Get(BuildRecord(headers, values), key) == None || Get(BuildRecord(headers, values), key).value.Text?
  {
    OtherFieldKept(headers, values, key);
    if key in FieldMap(headers, values) {
      FieldMapValues(headers, values, key);
    }
  }
}
