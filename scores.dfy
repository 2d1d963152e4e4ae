/**
 * Score normalisation (`isValidScore` and `parseScore`): one cell value
 * becomes either the sentinel string "N/V" or a number.
 */
module Scores {
  import opened Wrappers
  import opened Strings

  /** A value stored in a record: the source keeps raw cells as strings and parsed scores as numbers. */
  datatype Value = Text(s: string) | Num(x: real)

  /** A record is a JavaScript object from keys to values. */
  type Record = map<string, Value>

  /** `rec[key]`; `None` stands for `undefined`. */
  function Get(rec: Record, key: string): (r: Option<Value>)
    ensures r.Some? <==> key in rec
    ensures r.Some? ==> r.value == rec[key]
  {
    if key in rec then Some(rec[key]) else None
  }

  /** The sentinel for a missing score, and also the second absence marker. */
  const NotPresent: string := "N/V"
  /** The upper-case form of "vắng" (absent). */
  const Absent: string := "V\U{1EAE}NG"

  /** JavaScript's `!score` on the values the pipeline can hold: undefined, null, "" and 0. */
  predicate Falsy(score: Option<Value>)
  {
    score == None || score == Some(Text("")) || score == Some(Num(0.0))
  }

  /** The marker test: the upper-cased string contains "VẮNG" or "N/V". */
  predicate HasAbsenceMarker(s: string)
    ensures HasAbsenceMarker(s) ==> |s| >= 3
  {
    Contains(Upper(s), Absent) || Contains(Upper(s), NotPresent)
  }

  /** `score.replace(',', '.')`: a decimal comma becomes a point, the first one only. */
  function Normalize(s: string): (r: string)
    ensures |r| == |s|
    ensures forall i :: 0 <= i < |s| ==> r[i] == s[i] || (s[i] == ',' && r[i] == '.')
    ensures ',' !in s ==> r == s
  {
    ReplaceFirst(s, ',', '.')
  }

  predicate IsDigit(c: char)
  {
    '0' <= c <= '9'
  }

  predicate AllDigits(s: string)
  {
    forall i :: 0 <= i < |s| ==> IsDigit(s[i])
  }

  /** The longest prefix of `s` made of decimal digits. */
  function DigitPrefix(s: string): (r: string)
    ensures |r| <= |s| && r == s[..|r|]
  {
    if s != [] && IsDigit(s[0]) then [s[0]] + DigitPrefix(s[1..]) else []
  }

  /** The natural number a digit string denotes (only ever applied to digits). */
  function NatValue(d: string): int
  {
    if d == [] then 0 else 10 * NatValue(d[..|d| - 1]) + (d[|d| - 1] as int - '0' as int)
  }

  /** The value of the digits after a decimal point (only ever applied to digits). */
  function FracValue(d: string): real
  {
    if d == [] then 0.0 else ((d[0] as int - '0' as int) as real + FracValue(d[1..])) / 10.0
  }

  /** The digits after a leading decimal point, if `rest` starts with one. */
  function FractionDigits(rest: string): string
  {
    if rest != [] && rest[0] == '.' then DigitPrefix(rest[1..]) else []
  }

  /** An unsigned decimal prefix: digits, then optionally a point and digits; at least one digit. */
  function ParseUnsigned(u: string): Option<real>
  {
    var whole := DigitPrefix(u);
    var frac := FractionDigits(u[|whole|..]);
    if whole == [] && frac == [] then None
    else Some(NatValue(whole) as real + FracValue(frac))
  }

  /**
   * `parseFloat`: skips leading white space, reads an optional sign and an
   * unsigned decimal prefix, and ignores whatever follows; `None` is NaN.
   */
  function ParseFloat(s: string): Option<real>
  {
    var t := TrimStart(s);
    if t != [] && t[0] == '-' then
      match ParseUnsigned(t[1..])
      case None => None
      case Some(m) => Some(-m)
    else if t != [] && t[0] == '+' then ParseUnsigned(t[1..])
    else ParseUnsigned(t)
  }

  /** `parseScore`: "N/V" for a falsy value, an absence marker or an unparsable string; otherwise the number. */
  function ParseScore(score: Option<Value>): (r: Value)
    ensures r == Text(NotPresent) || r.Num?
    ensures Falsy(score) ==> r == Text(NotPresent)
    ensures score.Some? && score.value.Num? && score.value.x != 0.0 ==> r == score.value
  {
    if Falsy(score) then Text(NotPresent)
    else match score.value
      case Num(x) => Num(x)
      case Text(s) =>
        if HasAbsenceMarker(s) then Text(NotPresent)
        else match ParseFloat(Normalize(s))
          case None => Text(NotPresent)
          case Some(x) => Num(x)
  }

  /** `isValidScore`: exactly the values that `parseScore` does not turn into "N/V". */
  function IsValidScore(score: Option<Value>): (r: bool)
    ensures r <==> ParseScore(score) != Text(NotPresent)
  {
    if Falsy(score) then false
    else match score.value
      case Num(_) => true
      case Text(s) => !HasAbsenceMarker(s) && ParseFloat(Normalize(s)).Some?
  }

  /** The number of a valid score. */
  function ScoreValue(score: Option<Value>): real
    requires IsValidScore(score)
  {
    ParseScore(score).x
  }

  /**
   * A stored score is valid again exactly when it is a non-zero number: a
   * cell "0" is stored as the number 0, which `isValidScore` then rejects.
   */
  lemma StoredScoreValidity(v: Option<Value>)
    ensures IsValidScore(Some(ParseScore(v))) <==> ParseScore(v).Num? && ParseScore(v).x != 0.0
    ensures ParseScore(Some(ParseScore(v))) == (if ParseScore(v) == Num(0.0) then Text(NotPresent) else ParseScore(v))
  {
    var p := ParseScore(v);
    if p == Text(NotPresent) {
      SentinelIsMarked();
    }
  }

  /** The sentinel "N/V" carries its own absence marker, so parsing it again keeps it. */
  lemma SentinelIsMarked()
    ensures HasAbsenceMarker(NotPresent)
    ensures ParseScore(Some(Text(NotPresent))) == Text(NotPresent)
  {
  }

  /** A string that starts with neither white space nor a sign is read as an unsigned numeral. */
  lemma UnsignedStart(s: string)
    requires s == [] || (!IsSpace(s[0]) && s[0] != '-' && s[0] != '+')
    ensures ParseFloat(s) == ParseUnsigned(s)
  {
    assert TrimStart(s) == s;
  }

  /** A cell "0" is stored as the number 0, which is then no longer a valid score. */
  lemma ZeroCellIsStoredAsZero()
    ensures ParseScore(Some(Text("0"))) == Num(0.0)
    ensures !IsValidScore(Some(ParseScore(Some(Text("0")))))
  {
    ZeroParses();
    ZeroHasNoMarker();
    NumeralScore("0", "0", 0.0);
  }

  lemma ZeroParses()
    ensures Normalize("0") == "0"
    ensures ParseFloat("0") == Some(0.0)
  {
    IntegerPrefixValue("0", []);
    assert "0" + [] == "0";
    assert NatValue("0") == 0;
  }

  lemma ZeroHasNoMarker()
    ensures !HasAbsenceMarker("0")
  {
    assert Upper("0")[1..] == Upper("0"[1..]);
    assert Upper("0") == "0";
    NotContainsFirst("0", Absent);
    NotContainsFirst("0", NotPresent);
  }

  /** An absence marker in any letter case, anywhere in the cell, makes the score "N/V". */
  lemma {:induction false} AbsenceMarkerAnywhere(before: string, marker: string, after: string)
    requires Upper(marker) == Absent || Upper(marker) == NotPresent
    ensures ParseScore(Some(Text(before + marker + after))) == Text(NotPresent)
    ensures !IsValidScore(Some(Text(before + marker + after)))
  {
    UpperConcat(before + marker, after);
    UpperConcat(before, marker);
    ContainsInfix(Upper(before), Upper(marker), Upper(after));
    assert HasAbsenceMarker(before + marker + after);
    assert |before + marker + after| > 0;
  }

  lemma {:induction false} UpperOfNumeral(s: string)
    requires forall i :: 0 <= i < |s| ==> IsDigit(s[i]) || s[i] == '.' || s[i] == ','
    ensures Upper(s) == s
  {
    if s != [] {
      UpperOfNumeral(s[1..]);
    }
  }

  lemma {:induction false} DigitPrefixOf(a: string, rest: string)
    requires AllDigits(a)
    requires rest == [] || !IsDigit(rest[0])
    ensures DigitPrefix(a + rest) == a
  {
    if a != [] {
      assert (a + rest)[1..] == a[1..] + rest;
      DigitPrefixOf(a[1..], rest);
    }
  }

  /**
   * `parseFloat` reads a decimal prefix: digits, a point and digits give their
   * value, and whatever follows the last digit is ignored.
   */
  lemma DecimalPrefixValue(whole: string, frac: string, rest: string)
    requires AllDigits(whole) && AllDigits(frac) && whole + frac != []
    requires rest == [] || !IsDigit(rest[0])
    ensures ParseFloat(whole + "." + frac + rest) == Some(NatValue(whole) as real + FracValue(frac))
  {
    var tail := "." + frac + rest;
    var s := whole + tail;
    NumeralPieces(whole, frac, rest);
    NumeralStart(whole, tail);
    DigitPrefixOf(whole, tail);
    DigitPrefixOf(frac, rest);
    SplitNumeral(s, whole, frac);
  }

  /** How a numeral falls apart into its pieces. */
  lemma NumeralPieces(whole: string, frac: string, rest: string)
    ensures whole + "." + frac + rest == whole + ("." + frac + rest)
    ensures (whole + ("." + frac + rest))[|whole|..] == "." + frac + rest
    ensures ("." + frac + rest)[1..] == frac + rest
  {
  }

  /** A numeral starts with a digit or a point: neither white space nor a sign. */
  lemma NumeralStart(whole: string, tail: string)
    requires AllDigits(whole)
    requires tail != [] && tail[0] == '.'
    ensures whole + tail != []
    ensures !IsSpace((whole + tail)[0]) && (whole + tail)[0] != '-' && (whole + tail)[0] != '+'
  {
    if whole == [] { assert whole + tail == tail; } else { assert (whole + tail)[0] == whole[0]; }
  }

  /** A string split into its digits and fraction digits is read as their value. */
  lemma SplitNumeral(s: string, whole: string, frac: string)
    requires AllDigits(whole) && AllDigits(frac) && whole + frac != []
    requires s != [] && !IsSpace(s[0]) && s[0] != '-' && s[0] != '+'
    requires DigitPrefix(s) == whole && FractionDigits(s[|whole|..]) == frac
    ensures ParseFloat(s) == Some(NatValue(whole) as real + FracValue(frac))
  {
    UnsignedStart(s);
    UnsignedValue(s, whole, frac);
  }

  lemma UnsignedValue(u: string, whole: string, frac: string)
    requires AllDigits(whole) && AllDigits(frac) && whole + frac != []
    requires DigitPrefix(u) == whole && FractionDigits(u[|whole|..]) == frac
    ensures ParseUnsigned(u) == Some(NatValue(whole) as real + FracValue(frac))
  {
  }

  /** An integer numeral followed by anything but a digit or a point parses to its value. */
  lemma IntegerPrefixValue(whole: string, rest: string)
    requires AllDigits(whole) && whole != []
    requires rest == [] || (!IsDigit(rest[0]) && rest[0] != '.')
    ensures ParseFloat(whole + rest) == Some(NatValue(whole) as real)
  {
    var s := whole + rest;
    assert s[0] == whole[0];
    UnsignedStart(s);
    DigitPrefixOf(whole, rest);
    assert s[|whole|..] == rest;
    assert FractionDigits(rest) == [];
  }

  /**
   * A decimal comma and a decimal point give the same score, and it is a
   * valid one; `DecimalValue` gives its number.
   */
  lemma DecimalCommaOrPoint(whole: string, frac: string)
    requires AllDigits(whole) && AllDigits(frac) && whole + frac != []
    ensures ParseScore(Some(Text(whole + "," + frac))) == ParseScore(Some(Text(whole + "." + frac)))
    ensures IsValidScore(Some(Text(whole + "," + frac))) && IsValidScore(Some(Text(whole + "." + frac)))
  {
    DecimalValue(whole, frac);
    CommaNormalized(whole, frac);
    NumeralHasNoMarker(whole, ',', frac);
    NumeralHasNoMarker(whole, '.', frac);
  }

  /** A non-empty cell without a marker whose normal form parses has that number as its score. */
  lemma NumeralScore(s: string, n: string, v: real)
    requires !HasAbsenceMarker(s) && Normalize(s) == n && ParseFloat(n) == Some(v)
    ensures s != [] ==> ParseScore(Some(Text(s))) == Num(v)
  {
  }

  /** A non-empty cell without a marker that does not parse becomes "N/V" and is not valid. */
  lemma UnparsableScore(s: string)
    requires s != "" && !HasAbsenceMarker(s) && ParseFloat(Normalize(s)).None?
    ensures ParseScore(Some(Text(s))) == Text(NotPresent)
    ensures !IsValidScore(Some(Text(s)))
  {
  }

  /** `parseFloat` gives NaN for a string without a decimal digit. */
  lemma ParseFloatNeedsDigit(s: string)
    requires forall j :: 0 <= j < |s| ==> !IsDigit(s[j])
    ensures ParseFloat(s).None?
  {
    var t := TrimStart(s);
    var n := |s| - |t|;
    assert t == s[n..];
    if t != [] && (t[0] == '-' || t[0] == '+') {
      assert t[1..] == s[n + 1..];
      UnsignedNeedsDigit(s, n + 1);
      assert ParseUnsigned(t[1..]).None?;
    } else {
      UnsignedNeedsDigit(s, n);
      assert ParseUnsigned(t).None?;
    }
  }

  /** An unsigned numeral read from a suffix of `s` needs a digit of `s`. */
  lemma UnsignedNeedsDigit(s: string, n: nat)
    requires n <= |s| && forall j :: 0 <= j < |s| ==> !IsDigit(s[j])
    ensures ParseUnsigned(s[n..]).None?
  {
    var u := s[n..];
    assert forall j :: 0 <= j < |u| ==> !IsDigit(u[j]) by {
      forall j | 0 <= j < |u| ensures !IsDigit(u[j]) { assert u[j] == s[n + j]; }
    }
    assert DigitPrefix(u) == [];
    assert u[0..] == u;
    if u != [] && u[0] == '.' {
      assert u[1..] == [] || !IsDigit(u[1..][0]);
    }
  }

  /** A cell without any decimal digit is never a valid score: it becomes "N/V". */
  lemma DigitFreeCell(s: string)
    requires forall j :: 0 <= j < |s| ==> !IsDigit(s[j])
    ensures ParseScore(Some(Text(s))) == Text(NotPresent)
    ensures !IsValidScore(Some(Text(s)))
  {
    var n := Normalize(s);
    assert forall j :: 0 <= j < |n| ==> !IsDigit(n[j]);
    ParseFloatNeedsDigit(n);
  }

  lemma DecimalValue(whole: string, frac: string)
    requires AllDigits(whole) && AllDigits(frac) && whole + frac != []
    ensures ParseFloat(whole + "." + frac) == Some(NatValue(whole) as real + FracValue(frac))
  {
    var p := whole + "." + frac;
    DecimalPrefixValue(whole, frac, []);
    assert p + [] == p;
  }

  /** The comma of a decimal numeral becomes a point; a numeral with a point is left as it is. */
  lemma CommaNormalized(whole: string, frac: string)
    requires AllDigits(whole) && AllDigits(frac)
    ensures Normalize(whole + "," + frac) == whole + "." + frac
    ensures Normalize(whole + "." + frac) == whole + "." + frac
  {
    assert ',' !in whole;
    ReplaceFirstAt(whole, ',', '.', frac);
    assert ',' !in whole + "." + frac;
  }

  /** A numeral holds no letter, so no absence marker. */
  lemma NumeralHasNoMarker(whole: string, point: char, frac: string)
    requires AllDigits(whole) && AllDigits(frac) && (point == '.' || point == ',')
    ensures whole + [point] + frac != []
    ensures !HasAbsenceMarker(whole + [point] + frac)
  {
    var s := whole + [point] + frac;
    assert forall i :: 0 <= i < |s| ==> IsDigit(s[i]) || s[i] == '.' || s[i] == ',' by {
      forall i | 0 <= i < |s| ensures IsDigit(s[i]) || s[i] == '.' || s[i] == ',' {
        if i < |whole| { assert s[i] == whole[i]; }
        else if i > |whole| { assert s[i] == frac[i - |whole| - 1]; }
      }
    }
    UpperOfNumeral(s);
    NotContainsFirst(s, Absent);
    NotContainsFirst(s, NotPresent);
  }
}
