/**
 * The order in which a RocksDB iterator visits keys: the default bytewise
 * comparator, where a proper prefix sorts before every extension of it.
 */
module KeyOrder {

  /** a sorts at or before b under the bytewise comparator. */
  predicate LexLe(a: string, b: string)
  {
    |a| == 0 || (|b| > 0 && (a[0] < b[0] || (a[0] == b[0] && LexLe(a[1..], b[1..]))))
  }

  lemma {:induction false} LexLeRefl(a: string)
    ensures LexLe(a, a)
  {
    if |a| > 0 { LexLeRefl(a[1..]); }
  }

  lemma {:induction false} LexLeTotal(a: string, b: string)
    ensures LexLe(a, b) || LexLe(b, a)
  {
    if |a| > 0 && |b| > 0 && a[0] == b[0] { LexLeTotal(a[1..], b[1..]); }
  }

  lemma {:induction false} LexLeTrans(a: string, b: string, c: string)
    requires LexLe(a, b) && LexLe(b, c)
    ensures LexLe(a, c)
  {
    if |a| > 0 && a[0] == b[0] && b[0] == c[0] { LexLeTrans(a[1..], b[1..], c[1..]); }
  }

  /** A key that starts with p is at or after p: seeking to p skips no key carrying p. */
  lemma {:induction false} PrefixSortsFirst(p: string, k: string)
    requires |p| <= |k| && k[..|p|] == p
    ensures LexLe(p, k)
  {
    if |p| > 0 {
      assert k[1..][..|p| - 1] == p[1..];
      PrefixSortsFirst(p[1..], k[1..]);
    }
  }

  /** Every non-empty finite set of keys has a first key, the one an iterator visits next. */
  lemma {:induction false} FirstKeyExists(s: set<string>)
    requires s != {}
    ensures exists m :: m in s && forall x :: x in s ==> LexLe(m, x)
  {
    var y :| y in s;
    if s == {y} {
      LexLeRefl(y);
      assert forall x :: x in s ==> x == y;
    } else {
      FirstKeyExists(s - {y});
      var m :| m in s - {y} && forall x :: x in s - {y} ==> LexLe(m, x);
      LexLeTotal(m, y);
      if LexLe(m, y) {
        assert forall x :: x in s ==> LexLe(m, x);
      } else {
        forall x | x in s
          ensures LexLe(y, x)
        {
          if x == y { LexLeRefl(y); } else { LexLeTrans(y, m, x); }
        }
      }
    }
  }
}
