/**
 * `calculateTotalScore`: the sum of the six subject scores that pass
 * `isValidScore`.
 */
module Totals {
  import opened Wrappers
  import opened Scores

  const Math: string := "To\U{E1}n"
  const Literature: string := "V\U{103}n"
  const English: string := "Anh"
  const Physics: string := "L\U{FD}"
  const Chemistry: string := "H\U{F3}a"
  const Biology: string := "Sinh"

  /** The six subject keys, in the order the source lists them. */
  const Subjects: seq<string> := [Math, Literature, English, Physics, Chemistry, Biology]

  predicate Distinct(keys: seq<string>)
  {
    forall i, j :: 0 <= i < j < |keys| ==> keys[i] != keys[j]
  }

  /** What one subject adds to the total: its number when valid, nothing otherwise. */
  function Contribution(score: Option<Value>): real
  {
    if IsValidScore(score) then ScoreValue(score) else 0.0
  }

  /** The sum of the contributions of `keys`, taken from the left. */
  function SumOver(student: Record, keys: seq<string>): real
  {
    if keys == [] then 0.0
    else SumOver(student, keys[..|keys| - 1]) + Contribution(Get(student, keys[|keys| - 1]))
  }

  /** The total the source computes for a record. */
  function TotalScore(student: Record): real
  {
    SumOver(student, Subjects)
  }

  /** `calculateTotalScore`: adds up the valid subject scores one subject at a time. */
  method CalculateTotalScore(student: Record) returns (total: real)
    ensures total == TotalScore(student)
  {
    total := 0.0;
    var i := 0;
    while i < |Subjects|
      invariant 0 <= i <= |Subjects|
      invariant total == SumOver(student, Subjects[..i])
    {
      var score := Get(student, Subjects[i]);
      if IsValidScore(score) {
        total := total + ScoreValue(score);
      }
      assert Subjects[..i + 1][..i] == Subjects[..i];
      i := i + 1;
    }
    assert Subjects[..i] == Subjects;
  }

  lemma SubjectsDistinct()
    ensures Distinct(Subjects)
  {
  }

  /** A number stored for a subject counts exactly when it is not 0. */
  lemma ContributionOfNumber(x: real)
    ensures Contribution(Some(Num(x))) == x
  {
  }

  /** The sentinel "N/V" and a missing key add nothing. */
  lemma ContributionOfMissing()
    ensures Contribution(None) == 0.0
    ensures Contribution(Some(Text(NotPresent))) == 0.0
  {
    SentinelIsMarked();
  }

  lemma {:induction false} SumOverNoValid(student: Record, keys: seq<string>)
    requires forall k :: k in keys ==> !IsValidScore(Get(student, k))
    ensures SumOver(student, keys) == 0.0
  {
    if keys != [] {
      assert keys[|keys| - 1] in keys;
      assert forall k :: k in keys[..|keys| - 1] ==> k in keys;
      SumOverNoValid(student, keys[..|keys| - 1]);
    }
  }

  /** A record with no valid subject score totals 0. */
  lemma TotalOfNoValidScore(student: Record)
    requires forall k :: k in Subjects ==> !IsValidScore(Get(student, k))
    ensures TotalScore(student) == 0.0
  {
    SumOverNoValid(student, Subjects);
  }

  lemma {:induction false} SumOverNonNegative(student: Record, keys: seq<string>)
    requires forall k :: k in keys ==> Contribution(Get(student, k)) >= 0.0
    ensures SumOver(student, keys) >= 0.0
  {
    if keys != [] {
      assert keys[|keys| - 1] in keys;
      assert forall k :: k in keys[..|keys| - 1] ==> k in keys;
      SumOverNonNegative(student, keys[..|keys| - 1]);
    }
  }

  /** With no negative valid score, the total is not negative. */
  lemma TotalNonNegative(student: Record)
    requires forall k :: k in Subjects && IsValidScore(Get(student, k)) ==> ScoreValue(Get(student, k)) >= 0.0
    ensures TotalScore(student) >= 0.0
  {
    assert forall k :: k in Subjects ==> Contribution(Get(student, k)) >= 0.0;
    SumOverNonNegative(student, Subjects);
  }

  lemma {:induction false} SumOverMonotone(a: Record, b: Record, keys: seq<string>)
    requires forall k :: k in keys ==> Contribution(Get(a, k)) <= Contribution(Get(b, k))
    ensures SumOver(a, keys) <= SumOver(b, keys)
  {
    if keys != [] {
      assert keys[|keys| - 1] in keys;
      assert forall k :: k in keys[..|keys| - 1] ==> k in keys;
      SumOverMonotone(a, b, keys[..|keys| - 1]);
    }
  }

  /** A record whose every subject counts at least as much as in another has at least its total. */
  lemma TotalMonotone(a: Record, b: Record)
    requires forall k :: k in Subjects ==> Contribution(Get(a, k)) <= Contribution(Get(b, k))
    ensures TotalScore(a) <= TotalScore(b)
  {
    SumOverMonotone(a, b, Subjects);
  }

  lemma {:induction false} SumOverOtherKey(student: Record, keys: seq<string>, key: string, v: Value)
    requires key !in keys
    ensures SumOver(student[key := v], keys) == SumOver(student, keys)
  {
    if keys != [] {
      assert keys[|keys| - 1] != key;
      assert key !in keys[..|keys| - 1];
      SumOverOtherKey(student, keys[..|keys| - 1], key, v);
    }
  }

  /** Keys other than the six subjects, `Tổng điểm` among them, do not change the total. */
  lemma TotalIgnoresOtherKeys(student: Record, key: string, v: Value)
    requires key !in Subjects
    ensures TotalScore(student[key := v]) == TotalScore(student)
  {
    SumOverOtherKey(student, Subjects, key, v);
  }

  lemma {:induction false} SumOverUpdate(student: Record, keys: seq<string>, key: string, v: Value)
    requires Distinct(keys) && key in keys
    ensures SumOver(student[key := v], keys)
         == SumOver(student, keys) - Contribution(Get(student, key)) + Contribution(Some(v))
  {
    var init := keys[..|keys| - 1];
    var last := keys[|keys| - 1];
    assert keys == init + [last];
    if last == key {
      assert key !in init;
      SumOverOtherKey(student, init, key, v);
    } else {
      assert key in init;
      SumOverUpdate(student, init, key, v);
    }
  }

  /** Changing one subject's score changes the total by the difference of the two contributions. */
  lemma TotalAfterUpdate(student: Record, key: string, v: Value)
    requires key in Subjects
    ensures TotalScore(student[key := v])
         == TotalScore(student) - Contribution(Get(student, key)) + Contribution(Some(v))
  {
    SubjectsDistinct();
    SumOverUpdate(student, Subjects, key, v);
  }

  /**
   * Raising one subject to a number that is not negative and not below what it
   * counted before does not lower the total.
   */
  lemma RaiseOneScore(student: Record, key: string, y: real)
    requires key in Subjects && y >= 0.0
    requires Contribution(Get(student, key)) <= y
    ensures TotalScore(student[key := Num(y)]) >= TotalScore(student)
  {
    TotalAfterUpdate(student, key, Num(y));
    ContributionOfNumber(y);
  }
}
