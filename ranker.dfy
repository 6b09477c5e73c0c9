/** The order of the result table: the DataView sort "sht, abs desc" of
    Commands.Compare, sheet names ascending, then absolute differences
    descending. Strings compare by character code. */
module Ranker {
  import opened Differ

  /** Ordinal string order: the first differing character decides, and a proper prefix comes first. */
  predicate StrLess(a: string, b: string)
    decreases |a|
  {
    |b| > 0 && (|a| == 0 || a[0] < b[0] || (a[0] == b[0] && StrLess(a[1..], b[1..])))
  }

  /** a may come before b in the sorted table. */
  predicate RankedBefore(a: Record, b: Record) {
    StrLess(a.sht, b.sht) || (a.sht == b.sht && a.abs >= b.abs)
  }

  predicate Ranked(s: seq<Record>) {
    forall i, j | 0 <= i < j < |s| :: RankedBefore(s[i], s[j])
  }

  lemma {:induction false} StrLessIrreflexive(a: string)
    ensures !StrLess(a, a)
    decreases |a|
  {
    if |a| > 0 {
      StrLessIrreflexive(a[1..]);
    }
  }

  lemma {:induction false} StrLessTotal(a: string, b: string)
    requires a != b
    ensures StrLess(a, b) || StrLess(b, a)
    decreases |a|
  {
    if |a| > 0 && |b| > 0 && a[0] == b[0] {
      assert a == [a[0]] + a[1..] && b == [b[0]] + b[1..];
      StrLessTotal(a[1..], b[1..]);
    }
  }

  lemma {:induction false} StrLessTransitive(a: string, b: string, c: string)
    requires StrLess(a, b) && StrLess(b, c)
    ensures StrLess(a, c)
    decreases |a|
  {
    if |a| > 0 && a[0] == b[0] && b[0] == c[0] {
      StrLessTransitive(a[1..], b[1..], c[1..]);
    }
  }

  lemma RankedBeforeTotal(a: Record, b: Record)
    ensures RankedBefore(a, b) || RankedBefore(b, a)
  {
    if a.sht != b.sht {
      StrLessTotal(a.sht, b.sht);
    }
  }

  lemma RankedBeforeTransitive(a: Record, b: Record, c: Record)
    requires RankedBefore(a, b) && RankedBefore(b, c)
    ensures RankedBefore(a, c)
  {
    if StrLess(a.sht, b.sht) && StrLess(b.sht, c.sht) {
      StrLessTransitive(a.sht, b.sht, c.sht);
    }
  }

  /** a sorts strictly before b: an earlier sheet, or the same sheet and a larger abs. */
  predicate StrictlyBefore(a: Record, b: Record) {
    StrLess(a.sht, b.sht) || (a.sht == b.sht && a.abs > b.abs)
  }

  /** a and b have the same sort key. */
  predicate SameKey(a: Record, b: Record) {
    a.sht == b.sht && a.abs == b.abs
  }

  lemma NotStrictlyBefore(a: Record, b: Record)
    requires !StrictlyBefore(a, b)
    ensures RankedBefore(b, a)
  {
    if a.sht != b.sht {
      StrLessTotal(a.sht, b.sht);
    }
  }

  lemma StrictlyThenRanked(a: Record, b: Record, c: Record)
    requires StrictlyBefore(a, b) && RankedBefore(b, c)
    ensures StrictlyBefore(a, c) && !SameKey(a, c)
  {
    if StrLess(a.sht, b.sht) && StrLess(b.sht, c.sht) {
      StrLessTransitive(a.sht, b.sht, c.sht);
    }
    if StrLess(a.sht, c.sht) {
      StrLessIrreflexive(a.sht);
    }
  }

  /** Places rec in front of the first record it sorts strictly before, so
      that it follows every record with the same key. */
  function Insert(rec: Record, s: seq<Record>): (r: seq<Record>)
    ensures multiset(r) == multiset(s) + multiset{rec}
    ensures |r| == |s| + 1
    decreases |s|
  {
    if s == [] then [rec]
    else if StrictlyBefore(rec, s[0]) then [rec] + s
    else assert s == [s[0]] + s[1..]; [s[0]] + Insert(rec, s[1..])
  }

  /** first may come before every record of s. */
  predicate AllAfter(first: Record, s: seq<Record>) {
    forall k | 0 <= k < |s| :: RankedBefore(first, s[k])
  }

  lemma {:induction false} InsertAllAfter(first: Record, rec: Record, s: seq<Record>)
    requires AllAfter(first, s) && RankedBefore(first, rec)
    ensures AllAfter(first, Insert(rec, s))
    decreases |s|
  {
    var r := Insert(rec, s);
    if s == [] {
      assert r == [rec];
    } else if StrictlyBefore(rec, s[0]) {
      assert r == [rec] + s;
      forall k | 0 <= k < |r|
        ensures RankedBefore(first, r[k])
      {
        if k > 0 {
          assert r[k] == s[k - 1];
        }
      }
    } else {
      var tail := Insert(rec, s[1..]);
      assert AllAfter(first, s[1..]) by {
        forall k | 0 <= k < |s| - 1
          ensures RankedBefore(first, s[1..][k])
        {
          assert s[1..][k] == s[k + 1];
        }
      }
      InsertAllAfter(first, rec, s[1..]);
      assert r == [s[0]] + tail;
      forall k | 0 <= k < |r|
        ensures RankedBefore(first, r[k])
      {
        if k > 0 {
          assert r[k] == tail[k - 1];
        }
      }
    }
  }

  /** A record put in front of a ranked sequence it may precede in full gives a ranked sequence. */
  lemma ConsRanked(first: Record, s: seq<Record>)
    requires AllAfter(first, s) && Ranked(s)
    ensures Ranked([first] + s)
  {
    var r := [first] + s;
    forall i, j | 0 <= i < j < |r|
      ensures RankedBefore(r[i], r[j])
    {
      assert r[j] == s[j - 1];
      if i > 0 {
        assert r[i] == s[i - 1];
      }
    }
  }

  lemma {:induction false} InsertRanked(rec: Record, s: seq<Record>)
    requires Ranked(s)
    ensures Ranked(Insert(rec, s))
    decreases |s|
  {
    if s == [] {
    } else if StrictlyBefore(rec, s[0]) {
      forall k | 0 <= k < |s|
        ensures RankedBefore(rec, s[k])
      {
        if k > 0 {
          RankedBeforeTransitive(rec, s[0], s[k]);
        }
      }
      ConsRanked(rec, s);
    } else {
      var rest := s[1..];
      assert Ranked(rest) by {
        forall i, j | 0 <= i < j < |rest|
          ensures RankedBefore(rest[i], rest[j])
        {
          assert rest[i] == s[i + 1] && rest[j] == s[j + 1];
        }
      }
      InsertRanked(rec, rest);
      NotStrictlyBefore(rec, s[0]);
      assert AllAfter(s[0], rest) by {
        forall k | 0 <= k < |rest|
          ensures RankedBefore(s[0], rest[k])
        {
          assert rest[k] == s[k + 1];
        }
      }
      InsertAllAfter(s[0], rec, rest);
      ConsRanked(s[0], Insert(rec, rest));
    }
  }

  /** The sorted table: the records inserted one by one, in the order they were added. */
  function Rank(s: seq<Record>): (r: seq<Record>)
    ensures multiset(r) == multiset(s)
    ensures |r| == |s|
    decreases |s|
  {
    if s == [] then []
    else assert s == s[..|s| - 1] + [s[|s| - 1]]; Insert(s[|s| - 1], Rank(s[..|s| - 1]))
  }

  /** Sorting gives a permutation of the records that is ordered by sheet, then by abs descending. */
  lemma {:induction false} RankSorts(s: seq<Record>)
    ensures Ranked(Rank(s)) && multiset(Rank(s)) == multiset(s)
    decreases |s|
  {
    if s != [] {
      RankSorts(s[..|s| - 1]);
      InsertRanked(s[|s| - 1], Rank(s[..|s| - 1]));
    }
  }

  /** Within one sheet the largest absolute difference comes first. */
  lemma RankedSameSheet(s: seq<Record>, i: nat, j: nat)
    requires Ranked(s) && i < j < |s| && s[i].sht == s[j].sht
    ensures s[i].abs >= s[j].abs
  {
    assert RankedBefore(s[i], s[j]);
    StrLessIrreflexive(s[i].sht);
  }

  /** The records of s that have the sort key of k, in their order in s. */
  function Tied(s: seq<Record>, k: Record): seq<Record>
    decreases |s|
  {
    if s == [] then []
    else Extra(s[0], k) + Tied(s[1..], k)
  }

  lemma {:induction false} TiedAppend(s: seq<Record>, x: Record, k: Record)
    ensures Tied(s + [x], k) == Tied(s, k) + Extra(x, k)
    decreases |s|
  {
    if s != [] {
      assert (s + [x])[1..] == s[1..] + [x];
      TiedAppend(s[1..], x, k);
    }
  }

  lemma {:induction false} NoneTied(s: seq<Record>, k: Record)
    requires forall q | 0 <= q < |s| :: !SameKey(s[q], k)
    ensures Tied(s, k) == []
    decreases |s|
  {
    if s != [] {
      NoneTied(s[1..], k);
    }
  }

  lemma RankedTail(s: seq<Record>)
    requires Ranked(s) && s != []
    ensures Ranked(s[1..])
  {
    var rest := s[1..];
    forall i, j | 0 <= i < j < |rest|
      ensures RankedBefore(rest[i], rest[j])
    {
      assert rest[i] == s[i + 1] && rest[j] == s[j + 1];
    }
  }

  lemma TiedCons(x: Record, t: seq<Record>, k: Record)
    ensures Tied([x] + t, k) == Extra(x, k) + Tied(t, k)
  {
    assert ([x] + t)[1..] == t;
  }

  /** Nothing in a sorted sequence has the key of a record that sorts strictly before its head. */
  lemma NoneTiedAfter(rec: Record, s: seq<Record>, k: Record)
    requires Ranked(s) && s != [] && StrictlyBefore(rec, s[0]) && SameKey(rec, k)
    ensures Tied(s, k) == []
  {
    forall q | 0 <= q < |s|
      ensures !SameKey(s[q], k)
    {
      if q > 0 {
        assert RankedBefore(s[0], s[q]);
      } else {
        RankedBeforeTotal(s[0], s[0]);
      }
      StrictlyThenRanked(rec, s[0], s[q]);
    }
    NoneTied(s, k);
  }

  function Extra(rec: Record, k: Record): seq<Record> {
    if SameKey(rec, k) then [rec] else []
  }

  lemma InsertTiedFront(rec: Record, s: seq<Record>, k: Record)
    requires Ranked(s) && s != [] && StrictlyBefore(rec, s[0])
    ensures Tied(Insert(rec, s), k) == Tied(s, k) + Extra(rec, k)
  {
    assert Insert(rec, s) == [rec] + s;
    if SameKey(rec, k) {
      NoneTiedAfter(rec, s, k);
    }
    TiedCons(rec, s, k);
  }

  lemma InsertTiedLater(rec: Record, s: seq<Record>, k: Record)
    requires s != [] && !StrictlyBefore(rec, s[0])
    requires Tied(Insert(rec, s[1..]), k) == Tied(s[1..], k) + Extra(rec, k)
    ensures Tied(Insert(rec, s), k) == Tied(s, k) + Extra(rec, k)
  {
    InsertLater(rec, s);
    TiedStep(s, Insert(rec, s[1..]), Extra(rec, k), k);
  }

  lemma InsertLater(rec: Record, s: seq<Record>)
    requires s != [] && !StrictlyBefore(rec, s[0])
    ensures Insert(rec, s) == [s[0]] + Insert(rec, s[1..])
  {
  }

  /** Putting the head of s in front of t keeps the relation between t and the tail of s. */
  lemma TiedStep(s: seq<Record>, t: seq<Record>, e: seq<Record>, k: Record)
    requires s != [] && Tied(t, k) == Tied(s[1..], k) + e
    ensures Tied([s[0]] + t, k) == Tied(s, k) + e
  {
    TiedCons(s[0], t, k);
    assert Extra(s[0], k) + (Tied(s[1..], k) + e) == (Extra(s[0], k) + Tied(s[1..], k)) + e;
  }

  /** Inserting into a sorted sequence puts rec after every record with its key. */
  lemma {:induction false} InsertTied(rec: Record, s: seq<Record>, k: Record)
    requires Ranked(s)
    ensures Tied(Insert(rec, s), k) == Tied(s, k) + Extra(rec, k)
    decreases |s|
  {
    if s == [] {
    } else if StrictlyBefore(rec, s[0]) {
      InsertTiedFront(rec, s, k);
    } else {
      RankedTail(s);
      InsertTied(rec, s[1..], k);
      InsertTiedLater(rec, s, k);
    }
  }

  /** The sort is stable: records with the same sheet and abs keep the
      order in which they were found. */
  lemma {:induction false} RankStable(s: seq<Record>, k: Record)
    ensures Tied(Rank(s), k) == Tied(s, k)
    decreases |s|
  {
    if s != [] {
      var init, last := s[..|s| - 1], s[|s| - 1];
      var extra := Extra(last, k);
      assert s == init + [last];
      calc {
        Tied(Rank(s), k);
        Tied(Insert(last, Rank(init)), k);
        { RankSorts(init); InsertTied(last, Rank(init), k); }
        Tied(Rank(init), k) + extra;
        { RankStable(init, k); }
        Tied(init, k) + extra;
        { TiedAppend(init, last, k); }
        Tied(s, k);
      }
    }
  }
}
