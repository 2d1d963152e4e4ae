/**
 * The quote-aware line scanner of `parseCSV`: a `"` flips the quote flag and
 * is dropped, a `,` outside quotes ends a field, and every field is trimmed.
 */
module Tokenizer {
  import opened Strings

  /**
   * The untrimmed fields of the rest `s` of a line, scanned with the quote
   * flag `inQuotes`; the first piece continues the field being read.
   */
  function RawFields(s: string, inQuotes: bool): (r: seq<string>)
    ensures |r| >= 1
  {
    if s == [] then [""]
    else if s[0] == '"' then RawFields(s[1..], !inQuotes)
    else if s[0] == ',' && !inQuotes then [""] + RawFields(s[1..], inQuotes)
    else
      var rest := RawFields(s[1..], inQuotes);
      [[s[0]] + rest[0]] + rest[1..]
  }

  /** Every field trimmed, as `values.push(current.trim())` does. */
  function TrimAll(fields: seq<string>): (r: seq<string>)
    ensures |r| == |fields|
  {
    if fields == [] then [] else [Trim(fields[0])] + TrimAll(fields[1..])
  }

  /** The fields the scanner produces for a whole line. */
  function Tokenize(line: string): seq<string>
  {
    TrimAll(RawFields(line, false))
  }

  /** The commas of `s` met while the quote flag is off. */
  function UnquotedCommas(s: string, inQuotes: bool): nat
  {
    if s == [] then 0
    else if s[0] == '"' then UnquotedCommas(s[1..], !inQuotes)
    else (if s[0] == ',' && !inQuotes then 1 else 0) + UnquotedCommas(s[1..], inQuotes)
  }

  /** `s` with its quote characters removed. */
  function RemoveQuotes(s: string): (r: string)
    ensures '"' !in r
  {
    if s == [] then [] else (if s[0] == '"' then [] else [s[0]]) + RemoveQuotes(s[1..])
  }

  /** Glues `current` to the front of the first piece: the field still being read. */
  function PrependFirst(current: string, pieces: seq<string>): seq<string>
    requires |pieces| >= 1
  {
    [current + pieces[0]] + pieces[1..]
  }

  /** One character of the scan, in each of its three cases: quote, separating comma, other. */
  lemma ScanStep(line: string, j: nat, values: seq<string>, current: string, inQuotes: bool)
    requires j < |line|
    ensures values + TrimAll(PrependFirst(current, RawFields(line[j..], inQuotes))) ==
      if line[j] == '"' then values + TrimAll(PrependFirst(current, RawFields(line[j + 1..], !inQuotes)))
      else if line[j] == ',' && !inQuotes then (values + [Trim(current)]) + TrimAll(PrependFirst("", RawFields(line[j + 1..], inQuotes)))
      else values + TrimAll(PrependFirst(current + [line[j]], RawFields(line[j + 1..], inQuotes)))
  {
    var c := line[j];
    var rest := RawFields(line[j + 1..], inQuotes);
    assert line[j..] == [c] + line[j + 1..];
    RawFieldsStep(c, line[j + 1..], inQuotes);
    if c == ',' && !inQuotes {
      FieldEnds(values, current, rest);
    } else if c != '"' {
      FieldGrows(current, c, rest);
    }
  }

  lemma PrependNothing(pieces: seq<string>)
    requires |pieces| >= 1
    ensures PrependFirst("", pieces) == pieces
  {
    assert "" + pieces[0] == pieces[0];
  }

  /** A comma outside quotes moves the field being read to the finished ones. */
  lemma FieldEnds(values: seq<string>, current: string, rest: seq<string>)
    requires |rest| >= 1
    ensures values + TrimAll(PrependFirst(current, [""] + rest))
         == (values + [Trim(current)]) + TrimAll(PrependFirst("", rest))
  {
    var pieces := [""] + rest;
    assert pieces[0] == "" && pieces[1..] == rest;
    assert current + "" == current;
    assert PrependFirst(current, pieces) == [current] + rest;
    assert ([current] + rest)[1..] == rest;
    assert TrimAll([current] + rest) == [Trim(current)] + TrimAll(rest);
    PrependNothing(rest);
  }

  /** At the end of the line the field being read is the last one. */
  lemma LastField(values: seq<string>, current: string)
    ensures values + TrimAll(PrependFirst(current, [""])) == values + [Trim(current)]
  {
    assert [""][0] == "" && [""][1..] == [];
    assert current + "" == current;
    assert PrependFirst(current, [""]) == [current];
    assert TrimAll([current]) == [Trim(current)];
  }

  /** Any other character joins the field being read. */
  lemma FieldGrows(current: string, c: char, rest: seq<string>)
    requires |rest| >= 1
    ensures PrependFirst(current, PrependFirst([c], rest)) == PrependFirst(current + [c], rest)
  {
    var p := PrependFirst([c], rest);
    assert p[0] == [c] + rest[0] && p[1..] == rest[1..];
    assert current + ([c] + rest[0]) == (current + [c]) + rest[0];
  }

  /** How the scanner treats the next character `c`. */
  lemma RawFieldsStep(c: char, s: string, inQuotes: bool)
    ensures RawFields([c] + s, inQuotes)
         == if c == '"' then RawFields(s, !inQuotes)
            else if c == ',' && !inQuotes then [""] + RawFields(s, inQuotes)
            else PrependFirst([c], RawFields(s, inQuotes))
  {
    assert ([c] + s)[1..] == s;
  }

  /**
   * The scanning loop of `parseCSV` over one line: `values` receives each
   * finished field, `current` collects the field being read.
   */
  method TokenizeLine(line: string) returns (values: seq<string>)
    ensures values == Tokenize(line)
  {
    values := [];
    var current := "";
    var inQuotes := false;
    var j := 0;
    assert line[j..] == line;
    PrependNothing(RawFields(line, false));
    while j < |line|
      invariant 0 <= j <= |line|
      invariant Tokenize(line) == values + TrimAll(PrependFirst(current, RawFields(line[j..], inQuotes)))
    {
      var c := line[j];
      ScanStep(line, j, values, current, inQuotes);
      if c == '"' {
        inQuotes := !inQuotes;
      } else if c == ',' && !inQuotes {
        values := values + [Trim(current)];
        current := "";
      } else {
        current := current + [c];
      }
      j := j + 1;
    }
    assert RawFields(line[j..], inQuotes) == [""];
    LastField(values, current);
    values := values + [Trim(current)];
  }

  /** There is one more field than there are commas outside quotes. */
  lemma {:induction false} FieldCount(s: string, inQuotes: bool)
    ensures |RawFields(s, inQuotes)| == UnquotedCommas(s, inQuotes) + 1
  {
    if s != [] {
      if s[0] == '"' {
        FieldCount(s[1..], !inQuotes);
      } else {
        FieldCount(s[1..], inQuotes);
      }
    }
  }

  /** The quote characters never reach a field. */
  lemma {:induction false} NoQuoteInRawFields(s: string, inQuotes: bool)
    ensures forall i :: 0 <= i < |RawFields(s, inQuotes)| ==> '"' !in RawFields(s, inQuotes)[i]
  {
    if s != [] {
      if s[0] == '"' {
        NoQuoteInRawFields(s[1..], !inQuotes);
      } else {
        NoQuoteInRawFields(s[1..], inQuotes);
      }
    }
  }

  /**
   * Joining the untrimmed fields with commas gives the line back without its
   * quotes: the scanner drops the quotes and nothing else.
   */
  lemma {:induction false} JoinRawFields(s: string, inQuotes: bool)
    ensures Join(RawFields(s, inQuotes), ',') == RemoveQuotes(s)
  {
    if s == [] {
    } else if s[0] == '"' {
      JoinRawFields(s[1..], !inQuotes);
    } else {
      var rest := RawFields(s[1..], inQuotes);
      JoinRawFields(s[1..], inQuotes);
      if s[0] == ',' && !inQuotes {
        if |rest| == 1 {
          assert Join([""] + rest, ',') == "" + [','] + rest[0];
        } else {
          assert ([""] + rest)[1..] == rest;
        }
      } else {
        var r := [[s[0]] + rest[0]] + rest[1..];
        if |rest| == 1 {
          assert Join(r, ',') == [s[0]] + rest[0];
        } else {
          assert r[1..] == rest[1..];
          assert Join(rest, ',') == rest[0] + [','] + Join(rest[1..], ',');
          assert Join(r, ',') == [s[0]] + rest[0] + [','] + Join(rest[1..], ',');
        }
      }
    }
  }

  /** Without quotes, the scanner splits on every comma, as the header split does. */
  lemma {:induction false} QuoteFreeSplit(s: string)
    requires '"' !in s
    ensures RawFields(s, false) == Split(s, ',')
  {
    if s != [] {
      assert '"' !in s[1..];
      QuoteFreeSplit(s[1..]);
    }
  }

  /**
   * The fields of a line: one more than its unquoted commas, each trimmed and
   * free of quote characters.
   */
  lemma TokenizeFields(line: string)
    ensures |Tokenize(line)| == UnquotedCommas(line, false) + 1
    ensures forall i :: 0 <= i < |Tokenize(line)| ==> IsTrimmed(Tokenize(line)[i]) && '"' !in Tokenize(line)[i]
  {
    var raw := RawFields(line, false);
    FieldCount(line, false);
    NoQuoteInRawFields(line, false);
    forall i | 0 <= i < |Tokenize(line)|
      ensures IsTrimmed(Tokenize(line)[i]) && '"' !in Tokenize(line)[i]
    {
      TrimAllAt(raw, i);
      assert '"' !in raw[i];
    }
  }

  lemma {:induction false} TrimAllAt(fields: seq<string>, i: nat)
    requires i < |fields|
    ensures TrimAll(fields)[i] == Trim(fields[i])
  {
    if i > 0 {
      TrimAllAt(fields[1..], i - 1);
    }
  }

  /** Text holding no quote, and no comma unless quoted, continues the current field. */
  lemma {:induction false} PlainText(a: string, rest: string, inQuotes: bool)
    requires forall i :: 0 <= i < |a| ==> a[i] != '"' && (inQuotes || a[i] != ',')
    ensures RawFields(a + rest, inQuotes) == PrependFirst(a, RawFields(rest, inQuotes))
  {
    if a == [] {
      assert a + rest == rest;
      PrependNothing(RawFields(rest, inQuotes));
    } else {
      assert a + rest == [a[0]] + (a[1..] + rest);
      PlainText(a[1..], rest, inQuotes);
      RawFieldsStep(a[0], a[1..] + rest, inQuotes);
      ChainPrepend(a[0], a[1..], RawFields(rest, inQuotes));
      assert [a[0]] + a[1..] == a;
    }
  }

  lemma ChainPrepend(c: char, a: string, pieces: seq<string>)
    requires |pieces| >= 1
    ensures PrependFirst([c], PrependFirst(a, pieces)) == PrependFirst([c] + a, pieces)
  {
    var p := PrependFirst(a, pieces);
    assert p[0] == a + pieces[0] && p[1..] == pieces[1..];
    assert [c] + (a + pieces[0]) == ([c] + a) + pieces[0];
  }

  /**
   * A quoted middle field keeps its commas: `a,"b",d` gives the three trimmed
   * fields `a`, `b` and `d` when `b` holds no quote and `a`, `d` hold neither
   * quotes nor commas.
   */
  lemma QuotedMiddleField(a: string, b: string, d: string)
    requires forall i :: 0 <= i < |a| ==> a[i] != '"' && a[i] != ','
    requires forall i :: 0 <= i < |b| ==> b[i] != '"'
    requires forall i :: 0 <= i < |d| ==> d[i] != '"' && d[i] != ','
    ensures Tokenize(a + ",\"" + b + "\"," + d) == [Trim(a), Trim(b), Trim(d)]
  {
    QuotedMiddleRaw(a, b, d);
    TrimAllThree(a, b, d);
  }

  lemma TrimAllThree(a: string, b: string, d: string)
    ensures TrimAll([a, b, d]) == [Trim(a), Trim(b), Trim(d)]
  {
    assert [d][1..] == [];
    assert TrimAll([d]) == [Trim(d)];
    assert [b, d][1..] == [d];
    assert TrimAll([b, d]) == [Trim(b), Trim(d)];
    assert [a, b, d][1..] == [b, d];
  }

  lemma QuotedMiddleRaw(a: string, b: string, d: string)
    requires forall i :: 0 <= i < |a| ==> a[i] != '"' && a[i] != ','
    requires forall i :: 0 <= i < |b| ==> b[i] != '"'
    requires forall i :: 0 <= i < |d| ==> d[i] != '"' && d[i] != ','
    ensures RawFields(a + ",\"" + b + "\"," + d, false) == [a, b, d]
  {
    var w := [','] + d;
    var z := ['"'] + w;
    var y := b + z;
    var x := ['"'] + y;
    QuotedLayout(a, b, d);
    PlainText(d, [], false);
    assert d + [] == d;
    LastPiece(d);
    RawFieldsStep(',', d, false);
    RawFieldsStep('"', w, true);
    PlainText(b, z, true);
    TwoPieces(b, d);
    RawFieldsStep('"', y, false);
    RawFieldsStep(',', x, false);
    PlainText(a, [','] + x, false);
    ThreePieces(a, b, d);
  }

  lemma QuotedLayout(a: string, b: string, d: string)
    ensures a + ",\"" + b + "\"," + d == a + ([','] + (['"'] + (b + (['"'] + ([','] + d)))))
  {
  }

  /** The line `a,"b,c",d` gives the three fields `a`, `b,c` and `d`. */
  lemma QuotedCommaExample()
    ensures Tokenize("a,\"b,c\",d") == ["a", "b,c", "d"]
  {
    QuotedMiddleField("a", "b,c", "d");
    ExampleLayout();
    ExampleTrimmed();
  }

  lemma ExampleLayout()
    ensures "a" + ",\"" + "b,c" + "\"," + "d" == "a,\"b,c\",d"
  {
  }

  lemma ExampleTrimmed()
    ensures Trim("a") == "a" && Trim("b,c") == "b,c" && Trim("d") == "d"
  {
    assert IsTrimmed("a") && IsTrimmed("b,c") && IsTrimmed("d");
  }

  lemma LastPiece(d: string)
    ensures PrependFirst(d, [""]) == [d]
  {
    assert [""][1..] == [];
    assert d + "" == d;
  }

  lemma TwoPieces(b: string, d: string)
    ensures PrependFirst(b, [""] + [d]) == [b, d]
  {
    assert ([""] + [d])[0] == "" && ([""] + [d])[1..] == [d];
    assert b + "" == b;
  }

  lemma ThreePieces(a: string, b: string, d: string)
    ensures PrependFirst(a, [""] + [b, d]) == [a, b, d]
  {
    assert ([""] + [b, d])[0] == "" && ([""] + [b, d])[1..] == [b, d];
    assert a + "" == a;
  }
}
