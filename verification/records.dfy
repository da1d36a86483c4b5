/**
 * The long hourly price frame the synchronisation keeps on disk: one row per
 * (DATETIME, COUNTRY) with its PRICE.  The price itself is never inspected by
 * the pipeline, so it is a type parameter `P`.
 */
module Records {

  datatype Option<+T> = None | Some(value: T)

  /** The COUNTRY column: the two markets whose prices are tracked. */
  datatype Country = Portugal | Espanha

  /**
   * One row of the frame.  `stamp` is the DATETIME column counted in whole
   * hours from 1970-01-01T00:00 (see module Calendar).
   */
  datatype Record<P> = Record(stamp: int, country: Country, price: P)

  /** The (DATETIME, COUNTRY) pair on which duplicates are detected. */
  datatype Key = Key(stamp: int, country: Country)

  function KeyOf<P>(x: Record<P>): Key {
    Key(x.stamp, x.country)
  }

  /** The set of keys occurring in a frame. */
  function Keys<P>(s: seq<Record<P>>): set<Key> {
    set i | 0 <= i < |s| :: KeyOf(s[i])
  }

  /** No two rows share (DATETIME, COUNTRY). */
  predicate NoDupKeys<P>(s: seq<Record<P>>) {
    forall i, j | 0 <= i < j < |s| :: KeyOf(s[i]) != KeyOf(s[j])
  }

  /** Rows are in non-decreasing DATETIME order (ties in any order). */
  predicate SortedByTime<P>(s: seq<Record<P>>) {
    forall i, j | 0 <= i < j < |s| :: s[i].stamp <= s[j].stamp
  }

  lemma KeysCons<P>(x: Record<P>, s: seq<Record<P>>)
    ensures Keys([x] + s) == {KeyOf(x)} + Keys(s)
  {
    var t := [x] + s;
    forall k | k in Keys(t) ensures k in {KeyOf(x)} + Keys(s) {
      var i :| 0 <= i < |t| && KeyOf(t[i]) == k;
      if i > 0 { assert KeyOf(s[i - 1]) == k; }
    }
    forall k | k in Keys(s) ensures k in Keys(t) {
      var i :| 0 <= i < |s| && KeyOf(s[i]) == k;
      assert KeyOf(t[i + 1]) == k;
    }
    assert KeyOf(t[0]) == KeyOf(x);
  }

  lemma KeysAppend<P>(s: seq<Record<P>>, t: seq<Record<P>>)
    ensures Keys(s + t) == Keys(s) + Keys(t)
  {
    var u := s + t;
    forall k | k in Keys(u) ensures k in Keys(s) + Keys(t) {
      var i :| 0 <= i < |u| && KeyOf(u[i]) == k;
      if i >= |s| { assert KeyOf(t[i - |s|]) == k; } else { assert KeyOf(s[i]) == k; }
    }
    forall k | k in Keys(s) ensures k in Keys(u) {
      var i :| 0 <= i < |s| && KeyOf(s[i]) == k;
      assert KeyOf(u[i]) == k;
    }
    forall k | k in Keys(t) ensures k in Keys(u) {
      var i :| 0 <= i < |t| && KeyOf(t[i]) == k;
      assert KeyOf(u[i + |s|]) == k;
    }
  }

  /** A frame without duplicate keys has exactly as many rows as keys. */
  lemma {:induction false} NoDupKeysCount<P>(s: seq<Record<P>>)
    requires NoDupKeys(s)
    ensures |Keys(s)| == |s|
  {
    if s != [] {
      assert s == [s[0]] + s[1..];
      KeysCons(s[0], s[1..]);
      NoDupKeysTail(s);
      NoDupKeysCount(s[1..]);
    }
  }

  lemma NoDupKeysCons<P>(x: Record<P>, s: seq<Record<P>>)
    requires NoDupKeys(s) && KeyOf(x) !in Keys(s)
    ensures NoDupKeys([x] + s)
  {
  }

  lemma SortedByTimeCons<P>(x: Record<P>, s: seq<Record<P>>)
    requires SortedByTime(s)
    requires forall i | 0 <= i < |s| :: x.stamp <= s[i].stamp
    ensures SortedByTime([x] + s)
  {
  }

  /** Dropping the first row of a frame without duplicate keys: the rest has none, nor the first row's key. */
  lemma NoDupKeysTail<P>(s: seq<Record<P>>)
    requires NoDupKeys(s) && s != []
    ensures NoDupKeys(s[1..]) && KeyOf(s[0]) !in Keys(s[1..])
  {
  }

  /** Two duplicate-free frames whose keys do not meet concatenate to a duplicate-free frame. */
  lemma NoDupKeysAppend<P>(a: seq<Record<P>>, b: seq<Record<P>>)
    requires NoDupKeys(a) && NoDupKeys(b)
    requires forall x, y | x in a && y in b :: KeyOf(x) != KeyOf(y)
    ensures NoDupKeys(a + b)
  {
  }

  /** Two sorted frames, the first ending no later than the second begins, concatenate to a sorted frame. */
  lemma SortedByTimeAppend<P>(a: seq<Record<P>>, b: seq<Record<P>>)
    requires SortedByTime(a) && SortedByTime(b)
    requires forall x, y | x in a && y in b :: x.stamp <= y.stamp
    ensures SortedByTime(a + b)
  {
  }
}
