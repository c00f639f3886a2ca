/** The bookmark lists of contentScript.js and the two list transformations
    its handlers apply: the stable sort by time after an insertion
    (`[...list, b].sort((a, b) => a.time - b.time)`) and the filter on
    `b.time !== t` of a deletion. */
module Bookmarks {

  /** A stored bookmark. `time` is the exact value of the player's
      playback position in seconds. */
  datatype Bookmark = Bookmark(time: real, desc: string)

  /** Ascending by time. */
  predicate Sorted(s: seq<Bookmark>)
  {
    forall i, j :: 0 <= i < j < |s| ==> s[i].time <= s[j].time
  }

  /** The entries with time `v`, in list order. */
  function WithTime(s: seq<Bookmark>, v: real): seq<Bookmark>
  {
    if s == [] then []
    else (if s[0].time == v then [s[0]] else []) + WithTime(s[1..], v)
  }

  lemma {:induction false} WithTimeAppend(a: seq<Bookmark>, b: seq<Bookmark>, v: real)
    ensures WithTime(a + b, v) == WithTime(a, v) + WithTime(b, v)
  {
    if a == [] {
      assert a + b == b;
    } else {
      var head := if a[0].time == v then [a[0]] else [];
      assert (a + b)[0] == a[0] && (a + b)[1..] == a[1..] + b;
      calc {
        WithTime(a + b, v);
        head + WithTime(a[1..] + b, v);
        { WithTimeAppend(a[1..], b, v); }
        head + (WithTime(a[1..], v) + WithTime(b, v));
        (head + WithTime(a[1..], v)) + WithTime(b, v);
        WithTime(a, v) + WithTime(b, v);
      }
    }
  }

  lemma {:induction false} WithTimeNone(s: seq<Bookmark>, v: real)
    requires forall i :: 0 <= i < |s| ==> s[i].time != v
    ensures WithTime(s, v) == []
  {
    if s != [] {
      WithTimeNone(s[1..], v);
    }
  }

  /** How many leading entries have time at most `t`: where the comparator
      sort puts a new entry of time `t` into `s`. */
  function InsertionPoint(s: seq<Bookmark>, t: real): (k: nat)
    ensures k <= |s|
    ensures forall i :: 0 <= i < k ==> s[i].time <= t
    ensures k < |s| ==> t < s[k].time
  {
    if s == [] || t < s[0].time then 0 else 1 + InsertionPoint(s[1..], t)
  }

  /** One step of insertion sort: `b` goes after every leading entry whose
      time is not greater than its own. */
  function Insert(b: Bookmark, s: seq<Bookmark>): seq<Bookmark>
  {
    if s == [] then [b]
    else if b.time < s[0].time then [b] + s
    else [s[0]] + Insert(b, s[1..])
  }

  lemma {:induction false} InsertAt(b: Bookmark, s: seq<Bookmark>)
    ensures Insert(b, s) == s[..InsertionPoint(s, b.time)] + [b] + s[InsertionPoint(s, b.time)..]
  {
    if s != [] && s[0].time <= b.time {
      InsertAt(b, s[1..]);
      var k := InsertionPoint(s[1..], b.time);
      assert s[..k + 1] == [s[0]] + s[1..][..k];
      assert s[k + 1..] == s[1..][k..];
    }
  }

  lemma InsertPermutes(b: Bookmark, s: seq<Bookmark>)
    ensures |Insert(b, s)| == |s| + 1
    ensures multiset(Insert(b, s)) == multiset(s) + multiset{b}
  {
    InsertAt(b, s);
    var k := InsertionPoint(s, b.time);
    var pre, post := s[..k], s[k..];
    assert s == pre + post;
    assert Insert(b, s) == pre + [b] + post;
  }

  lemma InsertSorted(b: Bookmark, s: seq<Bookmark>)
    requires Sorted(s)
    ensures Sorted(Insert(b, s))
  {
    InsertAt(b, s);
    var k := InsertionPoint(s, b.time);
    var r := Insert(b, s);
    assert forall i :: 0 <= i < k ==> r[i] == s[i];
    assert r[k] == b;
    assert forall i :: k < i < |r| ==> r[i] == s[i - 1];
    forall i, j | 0 <= i < j < |r| ensures r[i].time <= r[j].time {
      if j == k {
        assert r[i].time == s[i].time <= b.time;
      } else if i == k {
        assert b.time < s[k].time <= s[j - 1].time;
      } else if j < k {
        assert r[i] == s[i] && r[j] == s[j];
      } else if i < k {
        assert r[i] == s[i] && r[j] == s[j - 1];
      } else {
        assert r[i] == s[i - 1] && r[j] == s[j - 1];
      }
    }
  }

  lemma WithTimeSingleton(b: Bookmark, v: real)
    ensures WithTime([b], v) == if b.time == v then [b] else []
  {
    assert [b][1..] == [];
  }

  /** Inserting into a sorted list keeps every other time's entries and
      places `b` after the entries that share its time. */
  lemma InsertStable(b: Bookmark, s: seq<Bookmark>, v: real)
    requires Sorted(s)
    ensures WithTime(Insert(b, s), v) == WithTime(s, v) + (if b.time == v then [b] else [])
  {
    InsertAt(b, s);
    var k := InsertionPoint(s, b.time);
    var pre, post := s[..k], s[k..];
    var mid := if b.time == v then [b] else [];
    assert s == pre + post;
    if b.time == v {
      forall i | 0 <= i < |post| ensures post[i].time != v {
        assert post[i] == s[k + i] && s[k].time <= s[k + i].time;
      }
      WithTimeNone(post, v);
    }
    calc {
      WithTime(Insert(b, s), v);
      WithTime((pre + [b]) + post, v);
      { WithTimeAppend(pre + [b], post, v); }
      WithTime(pre + [b], v) + WithTime(post, v);
      { WithTimeAppend(pre, [b], v); WithTimeSingleton(b, v); }
      WithTime(pre, v) + mid + WithTime(post, v);
      WithTime(pre, v) + WithTime(post, v) + mid;
      { WithTimeAppend(pre, post, v); }
      WithTime(s, v) + mid;
    }
  }

  /** The list's own comparator sort, which is stable: insertion sort,
      inserting the entries in list order. */
  function SortByTime(s: seq<Bookmark>): seq<Bookmark>
  {
    if s == [] then [] else Insert(s[|s| - 1], SortByTime(s[..|s| - 1]))
  }

  /** The sort yields a permutation of its input. */
  lemma {:induction false} SortByTimePermutes(s: seq<Bookmark>)
    ensures |SortByTime(s)| == |s| && multiset(SortByTime(s)) == multiset(s)
  {
    if s != [] {
      var init, last := s[..|s| - 1], s[|s| - 1];
      var r := SortByTime(init);
      assert SortByTime(s) == Insert(last, r);
      SortByTimePermutes(init);
      InsertPermutes(last, r);
      calc {
        multiset(SortByTime(s));
        multiset(r) + multiset{last};
        multiset(init) + multiset{last};
        multiset(init) + multiset([last]);
        { assert s == init + [last]; }
        multiset(s);
      }
    }
  }

  /** The sort yields an ascending list. */
  lemma {:induction false} SortByTimeSorted(s: seq<Bookmark>)
    ensures Sorted(SortByTime(s))
  {
    if s != [] {
      var init, last := s[..|s| - 1], s[|s| - 1];
      var r := SortByTime(init);
      assert SortByTime(s) == Insert(last, r);
      SortByTimeSorted(init);
      InsertSorted(last, r);
    }
  }

  /** Entries with equal times keep their relative order. */
  lemma {:induction false} SortStable(s: seq<Bookmark>, v: real)
    ensures WithTime(SortByTime(s), v) == WithTime(s, v)
  {
    if s != [] {
      var init, last := s[..|s| - 1], s[|s| - 1];
      var tail := if last.time == v then [last] else [];
      assert s == init + [last];
      calc {
        WithTime(SortByTime(s), v);
        WithTime(Insert(last, SortByTime(init)), v);
        { SortByTimeSorted(init); InsertStable(last, SortByTime(init), v); }
        WithTime(SortByTime(init), v) + tail;
        { SortStable(init, v); }
        WithTime(init, v) + tail;
        { WithTimeAppend(init, [last], v); assert [last][1..] == []; }
        WithTime(s, v);
      }
    }
  }

  lemma {:induction false} SortOfSorted(s: seq<Bookmark>)
    requires Sorted(s)
    ensures SortByTime(s) == s
  {
    if s != [] {
      var init, last := s[..|s| - 1], s[|s| - 1];
      assert SortByTime(s) == Insert(last, SortByTime(init));
      assert Sorted(init);
      SortOfSorted(init);
      InsertAt(last, init);
      var k := InsertionPoint(init, last.time);
      assert k == |init|;
      assert init[..k] + [last] + init[k..] == s;
    }
  }

  /** The list that adding `b` to `fetched` persists: `fetched + [b]`
      sorted by time, which is `b` inserted into the sorted `fetched`
      (AddedListIsSort). */
  function AddedList(fetched: seq<Bookmark>, b: Bookmark): seq<Bookmark>
  {
    Insert(b, SortByTime(fetched))
  }

  lemma AddedListIsSort(fetched: seq<Bookmark>, b: Bookmark)
    ensures AddedList(fetched, b) == SortByTime(fetched + [b])
  {
    var s := fetched + [b];
    assert s[..|s| - 1] == fetched && s[|s| - 1] == b;
  }

  /** Adding sorts the extended list: it is ascending, it is a permutation
      of `fetched + [b]`, equal-time entries keep their order with `b` last
      among them. */
  lemma AddedListSpec(fetched: seq<Bookmark>, b: Bookmark)
    ensures |AddedList(fetched, b)| == |fetched| + 1
    ensures Sorted(AddedList(fetched, b))
    ensures multiset(AddedList(fetched, b)) == multiset(fetched) + multiset{b}
    ensures forall v :: WithTime(AddedList(fetched, b), v) == WithTime(fetched, v) + (if b.time == v then [b] else [])
  {
    AddedListIsSort(fetched, b);
    SortByTimePermutes(fetched + [b]);
    SortByTimeSorted(fetched + [b]);
    forall v ensures WithTime(AddedList(fetched, b), v) == WithTime(fetched, v) + (if b.time == v then [b] else []) {
      SortStable(fetched + [b], v);
      WithTimeAppend(fetched, [b], v);
    }
  }

  /** Adding to an already sorted list inserts `b` right after the entries
      whose time is at most its own, and changes nothing else. */
  lemma AddedListOfSorted(fetched: seq<Bookmark>, b: Bookmark)
    requires Sorted(fetched)
    ensures AddedList(fetched, b) == Insert(b, fetched)
    ensures var k := InsertionPoint(fetched, b.time);
      AddedList(fetched, b) == fetched[..k] + [b] + fetched[k..]
  {
    SortOfSorted(fetched);
    InsertAt(b, fetched);
  }

  /** The entries whose time is not `t`, in list order (`filter`). */
  function Without(s: seq<Bookmark>, t: real): (r: seq<Bookmark>)
    ensures |r| <= |s|
    ensures forall b :: b in r <==> b in s && b.time != t
  {
    if s == [] then []
    else (if s[0].time != t then [s[0]] else []) + Without(s[1..], t)
  }

  /** The filter maps over concatenation, so the kept entries stay in
      their original order. */
  lemma {:induction false} WithoutAppend(a: seq<Bookmark>, b: seq<Bookmark>, t: real)
    ensures Without(a + b, t) == Without(a, t) + Without(b, t)
  {
    if a == [] {
      assert a + b == b;
    } else {
      assert (a + b)[1..] == a[1..] + b;
      WithoutAppend(a[1..], b, t);
    }
  }

  /** Exactly the entries with time `t` are dropped. */
  lemma {:induction false} WithoutCount(s: seq<Bookmark>, t: real)
    ensures |Without(s, t)| + |WithTime(s, t)| == |s|
    ensures WithTime(Without(s, t), t) == []
    ensures forall v :: v != t ==> WithTime(Without(s, t), v) == WithTime(s, v)
  {
    if s != [] {
      WithoutCount(s[1..], t);
      var head := if s[0].time != t then [s[0]] else [];
      assert Without(s, t) == head + Without(s[1..], t);
      forall v ensures WithTime(Without(s, t), v) == WithTime(head, v) + WithTime(Without(s[1..], t), v) {
        WithTimeAppend(head, Without(s[1..], t), v);
      }
    }
  }

  /** A list with no entry at time `t` is unchanged; in particular the
      empty list stays empty. */
  lemma {:induction false} WithoutAbsent(s: seq<Bookmark>, t: real)
    requires forall i :: 0 <= i < |s| ==> s[i].time != t
    ensures Without(s, t) == s
  {
    if s != [] {
      WithoutAbsent(s[1..], t);
    }
  }

  lemma {:induction false} WithoutSorted(s: seq<Bookmark>, t: real)
    requires Sorted(s)
    ensures Sorted(Without(s, t))
  {
    if s != [] {
      assert Sorted(s[1..]);
      WithoutSorted(s[1..], t);
      var r := Without(s[1..], t);
      forall j | 0 <= j < |r| ensures s[0].time <= r[j].time {
        assert r[j] in s[1..];
      }
    }
  }

  lemma WithoutIdempotent(s: seq<Bookmark>, t: real)
    ensures Without(Without(s, t), t) == Without(s, t)
  {
    WithoutAbsent(Without(s, t), t);
  }

  /** Adding at 20 seconds between bookmarks at 10 and 30 seconds. */
  lemma AddBetweenExample(b: Bookmark)
    requires b.time == 20.0
    ensures AddedList([Bookmark(10.0, "A"), Bookmark(30.0, "B")], b)
         == [Bookmark(10.0, "A"), b, Bookmark(30.0, "B")]
  {
    var s := [Bookmark(10.0, "A"), Bookmark(30.0, "B")];
    assert Sorted(s);
    AddedListOfSorted(s, b);
    assert s[1..][1..] == [];
    assert InsertionPoint(s[1..], 20.0) == 0;
    assert InsertionPoint(s, 20.0) == 1;
  }

  /** Then deleting the bookmark at 30 seconds. */
  lemma DeleteLastExample(b: Bookmark)
    requires b.time == 20.0
    ensures Without([Bookmark(10.0, "A"), b, Bookmark(30.0, "B")], 30.0)
         == [Bookmark(10.0, "A"), b]
  {
    var s := [Bookmark(10.0, "A"), b, Bookmark(30.0, "B")];
    assert s[1..] == [b, Bookmark(30.0, "B")];
    assert s[1..][1..] == [Bookmark(30.0, "B")];
    assert s[1..][1..][1..] == [];
    assert Without(s[1..][1..], 30.0) == [];
    assert Without(s[1..], 30.0) == [b];
  }
}
