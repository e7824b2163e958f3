/**
 * The catalog directory: the value under key "tables", a comma-joined
 * listing that every table creation extends by one name.
 */
module Catalog {
  import opened Delimited

  const TablesKey: string := "tables"

  /** The listing after registering one more table: old, a comma, the name. */
  function Registered(listing: string, name: string): string
  {
    listing + [Comma] + name
  }

  /** Registering several names one after another. */
  function RegisteredAll(listing: string, names: seq<string>): string
    decreases |names|
  {
    if names == [] then listing else Registered(RegisteredAll(listing, names[..|names| - 1]), names[|names| - 1])
  }

  /**
   * Registration only appends: the old listing is a prefix of the new one,
   * which is exactly one comma and the name longer.
   */
  lemma RegistrationAppends(listing: string, name: string)
    ensures |Registered(listing, name)| == |listing| + 1 + |name|
    ensures Registered(listing, name)[..|listing|] == listing
    ensures Registered(listing, name)[|listing| + 1..] == name
  {
  }

  /** Read as entries, registration adds the name as the last entry. */
  lemma RegistrationAddsEntry(listing: string, name: string)
    requires Comma !in name
    ensures Split(Registered(listing, name)) == Split(listing) + [name]
  {
    SplitAppend(listing, name);
  }

  /**
   * From the empty listing the handler writes, the entries are one empty
   * entry followed by every registered name in order, repeats included.
   */
  lemma {:induction false} ListingFromEmpty(names: seq<string>)
    requires NoCommaIn(names)
    ensures Split(RegisteredAll("", names)) == [""] + names
  {
    if names == [] {
      assert LastComma("").None?;
    } else {
      var init, last := names[..|names| - 1], names[|names| - 1];
      assert NoCommaIn(init) && Comma !in last;
      ListingFromEmpty(init);
      assert RegisteredAll("", names) == Registered(RegisteredAll("", init), last);
      RegistrationAddsEntry(RegisteredAll("", init), last);
      assert [""] + init + [last] == [""] + names;
    }
  }

  /** The first registration yields ",<name>"; no duplicate check is made. */
  lemma FirstRegistrationAndRepeat(name: string)
    requires Comma !in name
    ensures Registered("", name) == [Comma] + name
    ensures Split(Registered(Registered("", name), name)) == ["", name, name]
  {
    ListingFromEmpty([name, name]);
    assert RegisteredAll("", [name, name][..1]) == Registered("", name);
  }
}
