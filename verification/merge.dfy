/**
 * The merge branch of update_data: concatenate the stored frame and the newly
 * fetched one, drop duplicate (DATETIME, COUNTRY) rows keeping the last, and
 * sort by DATETIME.
 */
module Merge {
  import opened Records

  /**
   * The row of `s` that `drop_duplicates(keep='last')` keeps for key `k`:
   * the last one carrying that key.
   */
  function LastWith<P>(s: seq<Record<P>>, k: Key): (x: Record<P>)
    requires k in Keys(s)
    ensures KeyOf(x) == k
    ensures exists i | 0 <= i < |s| :: s[i] == x && forall j | i < j < |s| :: KeyOf(s[j]) != k
  {
    assert s == [s[0]] + s[1..];
    KeysCons(s[0], s[1..]);
    if k in Keys(s[1..]) then
      var x := LastWith(s[1..], k);
      assert exists i | 0 <= i < |s| :: s[i] == x && forall j | i < j < |s| :: KeyOf(s[j]) != k by {
        var i :| 0 <= i < |s[1..]| && s[1..][i] == x && forall j | i < j < |s[1..]| :: KeyOf(s[1..][j]) != k;
        forall j | i + 1 < j < |s| ensures KeyOf(s[j]) != k {
          assert s[j] == s[1..][j - 1];
        }
        assert s[i + 1] == x;
      }
      x
    else
      assert forall j | 0 < j < |s| :: KeyOf(s[j]) != k by {
        forall j | 0 < j < |s| ensures KeyOf(s[j]) != k {
          assert s[j] == s[1..][j - 1];
        }
      }
      s[0]
  }

  /**
   * `drop_duplicates(subset=['DATETIME', 'COUNTRY'], keep='last')`: a row
   * survives when no later row has its key; survivors keep their order.
   */
  function DropDuplicatesKeepLast<P>(s: seq<Record<P>>): (r: seq<Record<P>>)
    ensures NoDupKeys(r)
    ensures Keys(r) == Keys(s)
    ensures forall i | 0 <= i < |r| :: KeyOf(r[i]) in Keys(s) && r[i] == LastWith(s, KeyOf(r[i]))
  {
    if s == [] then []
    else
      var rest := DropDuplicatesKeepLast(s[1..]);
      assert s == [s[0]] + s[1..];
      KeysCons(s[0], s[1..]);
      if KeyOf(s[0]) in Keys(s[1..]) then
        rest
      else
        var r := [s[0]] + rest;
        KeysCons(s[0], rest);
        assert forall i | 0 <= i < |rest| :: KeyOf(rest[i]) in Keys(rest);
        assert forall i | 0 < i < |r| :: r[i] == rest[i - 1];
        r
  }

  /** Insert `x` into a frame sorted by DATETIME, before the first later-or-equal row. */
  function InsertByTime<P>(x: Record<P>, s: seq<Record<P>>): (r: seq<Record<P>>)
    requires SortedByTime(s)
    ensures SortedByTime(r)
    ensures multiset(r) == multiset(s) + multiset{x}
    ensures Keys(r) == Keys(s) + {KeyOf(x)}
    ensures NoDupKeys(s) && KeyOf(x) !in Keys(s) ==> NoDupKeys(r)
  {
    if s == [] || x.stamp <= s[0].stamp then
      InsertFront(x, s);
      [x] + s
    else
      assert s == [s[0]] + s[1..];
      var rest := InsertByTime(x, s[1..]);
      InsertBehind(s[0], x, s[1..], rest);
      [s[0]] + rest
  }

  /** The first case of InsertByTime: `x` goes in front. */
  lemma InsertFront<P>(x: Record<P>, s: seq<Record<P>>)
    requires SortedByTime(s) && (s == [] || x.stamp <= s[0].stamp)
    ensures SortedByTime([x] + s)
    ensures Keys([x] + s) == Keys(s) + {KeyOf(x)}
    ensures NoDupKeys(s) && KeyOf(x) !in Keys(s) ==> NoDupKeys([x] + s)
  {
    KeysCons(x, s);
    SortedByTimeCons(x, s);
    if NoDupKeys(s) && KeyOf(x) !in Keys(s) {
      NoDupKeysCons(x, s);
    }
  }

  /** The second case of InsertByTime: `x` goes into the tail, behind `head`. */
  lemma InsertBehind<P>(head: Record<P>, x: Record<P>, tail: seq<Record<P>>, rest: seq<Record<P>>)
    requires SortedByTime([head] + tail) && head.stamp < x.stamp
    requires SortedByTime(rest)
    requires multiset(rest) == multiset(tail) + multiset{x}
    requires Keys(rest) == Keys(tail) + {KeyOf(x)}
    requires NoDupKeys(tail) && KeyOf(x) !in Keys(tail) ==> NoDupKeys(rest)
    ensures SortedByTime([head] + rest)
    ensures multiset([head] + rest) == multiset([head] + tail) + multiset{x}
    ensures Keys([head] + rest) == Keys([head] + tail) + {KeyOf(x)}
    ensures NoDupKeys([head] + tail) && KeyOf(x) !in Keys([head] + tail) ==> NoDupKeys([head] + rest)
  {
    var s := [head] + tail;
    KeysCons(head, tail);
    KeysCons(head, rest);
    forall i | 0 <= i < |rest| ensures head.stamp <= rest[i].stamp {
      assert rest[i] in multiset(rest);
      if rest[i] != x {
        assert rest[i] in multiset(tail);
        var j :| 0 <= j < |tail| && tail[j] == rest[i];
        assert s[0] == head && s[j + 1] == rest[i];
      }
    }
    SortedByTimeCons(head, rest);
    if NoDupKeys(s) && KeyOf(x) !in Keys(s) {
      assert s[1..] == tail;
      NoDupKeysTail(s);
      NoDupKeysCons(head, rest);
    }
  }

  /**
   * `sort_values('DATETIME')`.  The model inserts row by row; callers may
   * rely only on the result being a permutation in non-decreasing DATETIME
   * order, since the order of rows with equal DATETIME is left open.
   */
  function SortByTime<P>(s: seq<Record<P>>): (r: seq<Record<P>>)
    ensures SortedByTime(r)
    ensures multiset(r) == multiset(s)
    ensures Keys(r) == Keys(s)
    ensures NoDupKeys(s) ==> NoDupKeys(r)
  {
    if s == [] then []
    else
      var rest := SortByTime(s[1..]);
      SplitHead(s, rest);
      InsertByTime(s[0], rest)
  }

  /** What SortByTime needs to know about `s` = [head] + tail, once the tail is sorted into `rest`. */
  lemma SplitHead<P>(s: seq<Record<P>>, rest: seq<Record<P>>)
    requires s != []
    requires multiset(rest) == multiset(s[1..]) && Keys(rest) == Keys(s[1..])
    requires NoDupKeys(s[1..]) ==> NoDupKeys(rest)
    ensures multiset(s) == multiset(rest) + multiset{s[0]}
    ensures Keys(s) == Keys(rest) + {KeyOf(s[0])}
    ensures NoDupKeys(s) ==> NoDupKeys(rest) && KeyOf(s[0]) !in Keys(rest)
  {
    var tail := s[1..];
    assert s == [s[0]] + tail;
    KeysCons(s[0], tail);
    if NoDupKeys(s) {
      NoDupKeysTail(s);
    }
  }

  /** Among `existing + incoming`, the last row with a key is the incoming one when there is one. */
  lemma {:induction false} LastWithAppend<P>(existing: seq<Record<P>>, incoming: seq<Record<P>>, k: Key)
    requires k in Keys(existing + incoming)
    ensures k in Keys(incoming) ==> LastWith(existing + incoming, k) == LastWith(incoming, k)
    ensures k !in Keys(incoming) ==> k in Keys(existing) && LastWith(existing + incoming, k) == LastWith(existing, k)
  {
    KeysAppend(existing, incoming);
    if existing == [] {
      assert existing + incoming == incoming;
    } else {
      var c := existing + incoming;
      var e' := existing[1..];
      assert c[1..] == e' + incoming;
      assert existing == [existing[0]] + e';
      KeysCons(existing[0], e');
      KeysAppend(e', incoming);
      if k in Keys(e' + incoming) {
        LastWithAppend(e', incoming, k);
      }
    }
  }

  /**
   * Conflict resolution: `x` is the row the merge keeps for its key, namely
   * the last incoming row with that key, or, when the key was not fetched,
   * the last stored row with it.
   */
  ghost predicate Wins<P>(existing: seq<Record<P>>, incoming: seq<Record<P>>, x: Record<P>) {
    if KeyOf(x) in Keys(incoming) then x == LastWith(incoming, KeyOf(x))
    else KeyOf(x) in Keys(existing) && x == LastWith(existing, KeyOf(x))
  }

  /**
   * The merge of update_data (the branch where both frames exist): no two
   * rows share a key, no key of either frame is lost, each key's row is the
   * last incoming row with that key if there is one and the last stored row
   * otherwise, and the rows are in DATETIME order.
   */
  function MergeRecords<P>(existing: seq<Record<P>>, incoming: seq<Record<P>>): (r: seq<Record<P>>)
    ensures NoDupKeys(r)
    ensures SortedByTime(r)
    ensures Keys(r) == Keys(existing) + Keys(incoming)
    ensures |r| == |Keys(existing) + Keys(incoming)|
    ensures forall i | 0 <= i < |r| :: Wins(existing, incoming, r[i])
  {
    var combined := existing + incoming;
    KeysAppend(existing, incoming);
    var unique := DropDuplicatesKeepLast(combined);
    var r := SortByTime(unique);
    NoDupKeysCount(r);
    forall i | 0 <= i < |r| ensures Wins(existing, incoming, r[i]) {
      assert r[i] in multiset(unique);
      var j :| 0 <= j < |unique| && unique[j] == r[i];
      LastWithAppend(existing, incoming, KeyOf(r[i]));
    }
    r
  }

  /** In a frame without duplicate keys, each row is the last one with its key. */
  lemma LastWithOfUnique<P>(s: seq<Record<P>>, i: int)
    requires NoDupKeys(s) && 0 <= i < |s|
    ensures KeyOf(s[i]) in Keys(s) && LastWith(s, KeyOf(s[i])) == s[i]
  {
  }

  /** Overwrite on conflict: the last incoming row for a key is in the merge, and is its only row with that key. */
  lemma IncomingWins<P>(existing: seq<Record<P>>, incoming: seq<Record<P>>, k: Key)
    requires k in Keys(incoming)
    ensures exists i | 0 <= i < |MergeRecords(existing, incoming)| ::
      MergeRecords(existing, incoming)[i] == LastWith(incoming, k)
    ensures forall i | 0 <= i < |MergeRecords(existing, incoming)| ::
      KeyOf(MergeRecords(existing, incoming)[i]) == k ==> MergeRecords(existing, incoming)[i] == LastWith(incoming, k)
  {
    var r := MergeRecords(existing, incoming);
    assert k in Keys(r);
    var i :| 0 <= i < |r| && KeyOf(r[i]) == k;
  }

  /** A stored row whose key was not fetched again survives the merge unchanged. */
  lemma ExistingKept<P>(existing: seq<Record<P>>, incoming: seq<Record<P>>, j: int)
    requires NoDupKeys(existing) && 0 <= j < |existing|
    requires KeyOf(existing[j]) !in Keys(incoming)
    ensures existing[j] in MergeRecords(existing, incoming)
  {
    var r := MergeRecords(existing, incoming);
    assert KeyOf(existing[j]) in Keys(existing);
    var i :| 0 <= i < |r| && KeyOf(r[i]) == KeyOf(existing[j]);
    LastWithOfUnique(existing, j);
  }

  /** Without duplicates, keeping the last of each key keeps everything. */
  lemma {:induction false} DropDuplicatesOfUnique<P>(s: seq<Record<P>>)
    requires NoDupKeys(s)
    ensures DropDuplicatesKeepLast(s) == s
  {
    if s != [] {
      assert s == [s[0]] + s[1..];
      NoDupKeysTail(s);
      DropDuplicatesOfUnique(s[1..]);
    }
  }

  /** Merging in an empty fetch gives back the stored rows, possibly reordered. */
  lemma MergeNothingNew<P>(existing: seq<Record<P>>)
    requires NoDupKeys(existing)
    ensures multiset(MergeRecords(existing, [])) == multiset(existing)
  {
    assert existing + [] == existing;
    DropDuplicatesOfUnique(existing);
  }

  /**
   * A stored price corrected by the provider: stored (t, Portugal, stored),
   * fetched (t, Portugal, corrected), merged frame is just the fetched row.
   */
  lemma CorrectionOverwrites<P>(t: int, stored: P, corrected: P)
    ensures MergeRecords([Record(t, Portugal, stored)], [Record(t, Portugal, corrected)])
         == [Record(t, Portugal, corrected)]
  {
    var e := [Record(t, Portugal, stored)];
    var n := [Record(t, Portugal, corrected)];
    KeysCons(e[0], []);
    KeysCons(n[0], []);
    assert e == [e[0]] + [] && n == [n[0]] + [];
    var r := MergeRecords(e, n);
    assert |r| == 1;
    assert r[0] == LastWith(n, Key(t, Portugal));
  }
}
