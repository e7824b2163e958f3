/**
 * Comma-delimited text, the format of both a stored row (attribute texts)
 * and the catalog listing (table names). Neither writer escapes the comma.
 */
module Delimited {
  import opened Wrappers

  const Comma: char := ','

  /** Fields separated by a single comma, without a leading or trailing one. */
  function Join(fields: seq<string>): string
  {
    if |fields| == 0 then ""
    else if |fields| == 1 then fields[0]
    else Join(fields[..|fields| - 1]) + [Comma] + fields[|fields| - 1]
  }

  /** Joining one more field of a list: the next field, after a comma unless it is the first. */
  lemma JoinStep(fields: seq<string>, i: nat)
    requires i < |fields|
    ensures Join(fields[..i + 1]) == (if i == 0 then "" else Join(fields[..i]) + [Comma]) + fields[i]
  {
    assert fields[..i + 1][..i] == fields[..i];
  }

  /** Position of the last comma in s, if any. */
  function LastComma(s: string): (r: Option<nat>)
    ensures r.Some? ==> r.value < |s| && s[r.value] == Comma && Comma !in s[r.value + 1..]
    ensures r.None? ==> Comma !in s
  {
    if s == [] then None
    else if s[|s| - 1] == Comma then Some(|s| - 1)
    else
      var r := LastComma(s[..|s| - 1]);
      assert r.Some? ==> s[r.value + 1..] == s[..|s| - 1][r.value + 1..] + [s[|s| - 1]];
      assert r.None? ==> s == s[..|s| - 1] + [s[|s| - 1]];
      r
  }

  /** The reading of s as comma-separated fields (a reference inverse of Join). */
  function Split(s: string): (fields: seq<string>)
    ensures |fields| > 0
    decreases |s|
  {
    match LastComma(s)
    case None => [s]
    case Some(j) => Split(s[..j]) + [s[j + 1..]]
  }

  predicate NoCommaIn(fields: seq<string>)
  {
    forall i :: 0 <= i < |fields| ==> Comma !in fields[i]
  }

  /** Appending one comma-free field adds exactly one field to the reading. */
  lemma SplitAppend(a: string, b: string)
    requires Comma !in b
    ensures Split(a + [Comma] + b) == Split(a) + [b]
  {
    var s := a + [Comma] + b;
    var r := LastComma(s);
    assert s[|a|] == Comma;
    assert s[|a| + 1..] == b;
    assert forall j :: |a| < j < |s| ==> s[j] == b[j - |a| - 1];
    assert r == Some(|a|);
    assert s[..|a|] == a;
  }

  /** Join and Split are inverse on a non-empty list of comma-free fields. */
  lemma {:induction false} SplitJoin(fields: seq<string>)
    requires |fields| > 0 && NoCommaIn(fields)
    ensures Split(Join(fields)) == fields
  {
    if |fields| == 1 {
      assert Comma !in fields[0];
    } else {
      var init := fields[..|fields| - 1];
      SplitJoin(init);
      SplitAppend(Join(init), fields[|fields| - 1]);
      assert init + [fields[|fields| - 1]] == fields;
    }
  }

  /** Join spends one character per separator and none elsewhere. */
  lemma {:induction false} JoinLength(fields: seq<string>)
    requires |fields| > 0
    ensures |Join(fields)| == TotalLength(fields) + |fields| - 1
  {
    if |fields| > 1 {
      var init := fields[..|fields| - 1];
      JoinLength(init);
      TotalLengthSnoc(init, fields[|fields| - 1]);
      assert init + [fields[|fields| - 1]] == fields;
    }
  }

  function TotalLength(fields: seq<string>): nat
  {
    if fields == [] then 0 else |fields[0]| + TotalLength(fields[1..])
  }

  lemma {:induction false} TotalLengthSnoc(fields: seq<string>, f: string)
    ensures TotalLength(fields + [f]) == TotalLength(fields) + |f|
  {
    if fields != [] {
      assert (fields + [f])[1..] == fields[1..] + [f];
      TotalLengthSnoc(fields[1..], f);
    }
  }
}
