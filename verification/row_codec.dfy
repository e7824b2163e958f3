/**
 * The text a row is stored as (the loop in memam_tuple_insert): each
 * attribute's text, or NULL, separated by single commas.
 */
module RowCodec {
  import opened Delimited

  /** A PostgreSQL Datum: a machine word whose meaning depends on the type. */
  type Datum = int
  /** A type's object id. */
  type Oid = nat

  /** One attribute as slot_getattr returns it, with its column's type. */
  datatype Attr = Attr(isnull: bool, value: Datum, typid: Oid)

  const NullText: string := "NULL"

  /**
   * The text of one attribute. render stands for datumToString, the type's
   * output function, which belongs to PostgreSQL and is not modelled.
   */
  function FieldText(a: Attr, render: (Datum, Oid) -> string): string
  {
    if a.isnull then NullText else render(a.value, a.typid)
  }

  function FieldTexts(attrs: seq<Attr>, render: (Datum, Oid) -> string): (fields: seq<string>)
    ensures |fields| == |attrs|
    ensures forall i :: 0 <= i < |attrs| ==> fields[i] == FieldText(attrs[i], render)
  {
    seq(|attrs|, i requires 0 <= i < |attrs| => FieldText(attrs[i], render))
  }

  /** The stored text of a row. */
  function EncodedRow(attrs: seq<Attr>, render: (Datum, Oid) -> string): string
  {
    Join(FieldTexts(attrs, render))
  }

  /**
   * The loop of memam_tuple_insert: append each attribute's text to the
   * buffer, and a comma after every attribute but the last.
   */
  method EncodeTuple(attrs: seq<Attr>, render: (Datum, Oid) -> string) returns (str: string)
    ensures str == EncodedRow(attrs, render)
  {
    str := "";
    var natts := |attrs|;
    ghost var fields := FieldTexts(attrs, render);
    for i := 0 to natts
      invariant str == Join(fields[..i]) + (if 0 < i < natts then [Comma] else [])
    {
      if attrs[i].isnull {
        str := str + NullText;
      } else {
        str := str + render(attrs[i].value, attrs[i].typid);
      }
      JoinStep(fields, i);
      if i < natts - 1 {
        str := str + [Comma];
      }
    }
    assert fields[..natts] == fields;
  }

  predicate RendersWithoutComma(attrs: seq<Attr>, render: (Datum, Oid) -> string)
  {
    forall i :: 0 <= i < |attrs| && !attrs[i].isnull ==> Comma !in render(attrs[i].value, attrs[i].typid)
  }

  /** No attributes give the empty text; one attribute gives just its own text. */
  lemma ShortRows(attrs: seq<Attr>, render: (Datum, Oid) -> string)
    requires |attrs| <= 1
    ensures |attrs| == 0 ==> EncodedRow(attrs, render) == ""
    ensures |attrs| == 1 ==> EncodedRow(attrs, render) == FieldText(attrs[0], render)
  {
  }

  /**
   * When no attribute text contains a comma, splitting the stored text at
   * its commas gives back one field per attribute, in order, with exactly
   * "NULL" where the attribute was null.
   */
  lemma {:induction false} EncodedRowSplits(attrs: seq<Attr>, render: (Datum, Oid) -> string)
    requires |attrs| > 0 && RendersWithoutComma(attrs, render)
    ensures |Split(EncodedRow(attrs, render))| == |attrs|
    ensures forall i :: 0 <= i < |attrs| ==> Split(EncodedRow(attrs, render))[i] == FieldText(attrs[i], render)
    ensures forall i :: 0 <= i < |attrs| && attrs[i].isnull ==> Split(EncodedRow(attrs, render))[i] == NullText
  {
    var fields := FieldTexts(attrs, render);
    assert Comma !in NullText;
    SplitJoin(fields);
  }

  /** The stored text is the attribute texts plus one comma between each neighbouring pair. */
  lemma {:induction false} EncodedRowLength(attrs: seq<Attr>, render: (Datum, Oid) -> string)
    requires |attrs| > 0
    ensures |EncodedRow(attrs, render)| == TotalLength(FieldTexts(attrs, render)) + |attrs| - 1
  {
    JoinLength(FieldTexts(attrs, render));
  }

  /**
   * Nothing is escaped: an attribute whose text is "a,b" is stored like the
   * two attributes "a" and "b", and a text "NULL" like a null attribute.
   */
  lemma EncodingIsAmbiguous()
    ensures var render := (d: Datum, t: Oid) => if d == 0 then "a,b" else if d == 1 then "a" else if d == 2 then "b" else NullText;
      && EncodedRow([Attr(false, 0, 25)], render) == EncodedRow([Attr(false, 1, 25), Attr(false, 2, 25)], render)
      && EncodedRow([Attr(false, 3, 25)], render) == EncodedRow([Attr(true, 0, 25)], render)
  {
    var render := (d: Datum, t: Oid) => if d == 0 then "a,b" else if d == 1 then "a" else if d == 2 then "b" else NullText;
    assert FieldTexts([Attr(false, 1, 25), Attr(false, 2, 25)], render) == ["a", "b"];
    assert ["a", "b"][..1] == ["a"];
  }
}
