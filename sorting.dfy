/** The reordering done by the sort menu. Python's `list.sort` is a stable
    sort, also with `reverse=True`; it is specified here by a stable
    insertion sort, with the ordering, permutation and stability of its
    result proved. */
module Sorting {
  import opened Text
  import opened History

  /** What an entry is sorted on: its time string or its lower-cased text. */
  datatype SortKey = ByTime | ByText

  function Key(field: SortKey, e: Entry): string {
    match field
    case ByTime => e.time
    case ByText => Lower(e.text)
  }

  /** In the requested direction, key `a` must come strictly before key `b`. */
  predicate Outranks(descending: bool, a: string, b: string) {
    if descending then LexLess(b, a) else LexLess(a, b)
  }

  /** No entry is followed by one that should have come before it. */
  ghost predicate Ordered(s: seq<Entry>, field: SortKey, descending: bool) {
    forall i, j :: 0 <= i < j < |s| ==> !Outranks(descending, Key(field, s[j]), Key(field, s[i]))
  }

  /** The entries of `s` whose key is `k`, in their order in `s`. */
  function WithKey(s: seq<Entry>, field: SortKey, k: string): seq<Entry> {
    if s == [] then []
    else (if Key(field, s[0]) == k then [s[0]] else []) + WithKey(s[1..], field, k)
  }

  /** Places `x` after every entry that does not outrank it. */
  function Insert(s: seq<Entry>, x: Entry, field: SortKey, descending: bool): seq<Entry> {
    if s == [] then [x]
    else if Outranks(descending, Key(field, x), Key(field, s[0])) then [x] + s
    else [s[0]] + Insert(s[1..], x, field, descending)
  }

  /** `list.sort(key=..., reverse=descending)`. */
  function StableSort(s: seq<Entry>, field: SortKey, descending: bool): seq<Entry> {
    if s == [] then []
    else Insert(StableSort(s[..|s| - 1], field, descending), s[|s| - 1], field, descending)
  }

  lemma OutranksTransitive(descending: bool, a: string, b: string, c: string)
    requires Outranks(descending, a, b) && Outranks(descending, b, c)
    ensures Outranks(descending, a, c)
  {
    if descending {
      LexLessTransitive(c, b, a);
    } else {
      LexLessTransitive(a, b, c);
    }
  }

  lemma OutranksIrreflexive(descending: bool, a: string)
    ensures !Outranks(descending, a, a)
  {
    LexLessIrreflexive(a);
  }

  /** If `b` does not outrank `a`, either they are equal or `a` outranks `b`. */
  lemma OutranksTotal(descending: bool, a: string, b: string)
    ensures Outranks(descending, a, b) || a == b || Outranks(descending, b, a)
  {
    LexLessTotal(a, b);
  }

  lemma {:induction false} InsertPermutes(s: seq<Entry>, x: Entry, field: SortKey, descending: bool)
    ensures multiset(Insert(s, x, field, descending)) == multiset(s) + multiset{x}
  {
    if s != [] && !Outranks(descending, Key(field, x), Key(field, s[0])) {
      InsertPermutes(s[1..], x, field, descending);
      assert s == [s[0]] + s[1..];
    }
  }

  /** An entry that no later entry outranks, in front of an ordered tail,
      gives an ordered sequence. */
  lemma OrderedCons(y: Entry, t: seq<Entry>, field: SortKey, descending: bool)
    requires Ordered(t, field, descending)
    requires forall e :: e in t ==> !Outranks(descending, Key(field, e), Key(field, y))
    ensures Ordered([y] + t, field, descending)
  {
    var s := [y] + t;
    forall i, j | 0 <= i < j < |s|
      ensures !Outranks(descending, Key(field, s[j]), Key(field, s[i]))
    {
      if i > 0 {
        assert s[i] == t[i - 1] && s[j] == t[j - 1];
      } else {
        assert s[j] in t;
      }
    }
  }

  lemma {:induction false} InsertOrdered(s: seq<Entry>, x: Entry, field: SortKey, descending: bool)
    requires Ordered(s, field, descending)
    ensures Ordered(Insert(s, x, field, descending), field, descending)
  {
    if s == [] {
    } else if Outranks(descending, Key(field, x), Key(field, s[0])) {
      forall e | e in s ensures !Outranks(descending, Key(field, e), Key(field, x)) {
        var m :| 0 <= m < |s| && s[m] == e;
        if Outranks(descending, Key(field, e), Key(field, x)) {
          OutranksTransitive(descending, Key(field, e), Key(field, x), Key(field, s[0]));
          if m == 0 {
            OutranksIrreflexive(descending, Key(field, e));
          }
          assert false;
        }
      }
      OrderedCons(x, s, field, descending);
    } else {
      var t := Insert(s[1..], x, field, descending);
      InsertOrdered(s[1..], x, field, descending);
      InsertPermutes(s[1..], x, field, descending);
      forall e | e in t ensures !Outranks(descending, Key(field, e), Key(field, s[0])) {
        assert e in multiset(t);
        if e != x {
          assert e in multiset(s[1..]);
          var m :| 0 <= m < |s[1..]| && s[1..][m] == e;
          assert s[m + 1] == e;
        }
      }
      OrderedCons(s[0], t, field, descending);
    }
  }

  lemma {:induction false} WithKeyNone(s: seq<Entry>, field: SortKey, k: string)
    requires forall e :: e in s ==> Key(field, e) != k
    ensures WithKey(s, field, k) == []
  {
    if s != [] {
      assert forall e :: e in s[1..] ==> e in s;
      WithKeyNone(s[1..], field, k);
    }
  }

  lemma {:induction false} WithKeyAppend(a: seq<Entry>, b: seq<Entry>, field: SortKey, k: string)
    ensures WithKey(a + b, field, k) == WithKey(a, field, k) + WithKey(b, field, k)
  {
    if a == [] {
      assert a + b == b;
    } else {
      assert (a + b)[0] == a[0] && (a + b)[1..] == a[1..] + b;
      WithKeyAppend(a[1..], b, field, k);
    }
  }

  lemma OrderedTail(s: seq<Entry>, field: SortKey, descending: bool)
    requires Ordered(s, field, descending) && s != []
    ensures Ordered(s[1..], field, descending)
  {
    forall i, j | 0 <= i < j < |s| - 1
      ensures !Outranks(descending, Key(field, s[1..][j]), Key(field, s[1..][i]))
    {
      assert s[1..][j] == s[j + 1] && s[1..][i] == s[i + 1];
    }
  }

  /** An entry that outranks the head of an ordered sequence shares its
      key with no entry of it. */
  lemma OutranksHeadNoTies(s: seq<Entry>, x: Entry, field: SortKey, descending: bool)
    requires Ordered(s, field, descending) && s != []
    requires Outranks(descending, Key(field, x), Key(field, s[0]))
    ensures forall e :: e in s ==> Key(field, e) != Key(field, x)
  {
    var kx, k0 := Key(field, x), Key(field, s[0]);
    forall e | e in s ensures Key(field, e) != kx {
      var m :| 0 <= m < |s| && s[m] == e;
      var ke := Key(field, e);
      OutranksTotal(descending, k0, ke);
      if Outranks(descending, k0, ke) {
        OutranksTransitive(descending, kx, k0, ke);
      }
      OutranksIrreflexive(descending, kx);
    }
  }

  lemma InsertFrontStable(s: seq<Entry>, x: Entry, field: SortKey, descending: bool, k: string)
    requires Ordered(s, field, descending) && s != []
    requires Outranks(descending, Key(field, x), Key(field, s[0]))
    ensures WithKey([x] + s, field, k) == WithKey(s, field, k) + (if Key(field, x) == k then [x] else [])
  {
    if Key(field, x) == k {
      OutranksHeadNoTies(s, x, field, descending);
      WithKeyNone(s, field, k);
    }
    assert ([x] + s)[1..] == s;
  }

  /** Inserting `x` into an ordered sequence puts it after every entry with
      the same key. */
  lemma {:induction false} InsertStable(s: seq<Entry>, x: Entry, field: SortKey, descending: bool, k: string)
    requires Ordered(s, field, descending)
    ensures WithKey(Insert(s, x, field, descending), field, k)
         == WithKey(s, field, k) + (if Key(field, x) == k then [x] else [])
  {
    if s == [] {
    } else if Outranks(descending, Key(field, x), Key(field, s[0])) {
      InsertFrontStable(s, x, field, descending, k);
    } else {
      var t := Insert(s[1..], x, field, descending);
      var head := if Key(field, s[0]) == k then [s[0]] else [];
      var tail := if Key(field, x) == k then [x] else [];
      assert Insert(s, x, field, descending) == [s[0]] + t;
      assert ([s[0]] + t)[1..] == t;
      assert WithKey([s[0]] + t, field, k) == head + WithKey(t, field, k);
      OrderedTail(s, field, descending);
      InsertStable(s[1..], x, field, descending, k);
      assert WithKey(s, field, k) == head + WithKey(s[1..], field, k);
    }
  }

  lemma {:induction false} StableSortPermutes(s: seq<Entry>, field: SortKey, descending: bool)
    ensures multiset(StableSort(s, field, descending)) == multiset(s)
  {
    if s != [] {
      var init, last := s[..|s| - 1], s[|s| - 1];
      var sorted := StableSort(init, field, descending);
      StableSortPermutes(init, field, descending);
      InsertPermutes(sorted, last, field, descending);
      assert s == init + [last];
      calc {
        multiset(StableSort(s, field, descending));
        multiset(Insert(sorted, last, field, descending));
        multiset(sorted) + multiset{last};
        multiset(init) + multiset{last};
        multiset(s);
      }
    }
  }

  lemma {:induction false} StableSortOrdered(s: seq<Entry>, field: SortKey, descending: bool)
    ensures Ordered(StableSort(s, field, descending), field, descending)
  {
    if s != [] {
      var init := s[..|s| - 1];
      StableSortOrdered(init, field, descending);
      InsertOrdered(StableSort(init, field, descending), s[|s| - 1], field, descending);
    }
  }

  lemma {:induction false} StableSortStable(s: seq<Entry>, field: SortKey, descending: bool, k: string)
    ensures WithKey(StableSort(s, field, descending), field, k) == WithKey(s, field, k)
  {
    if s != [] {
      var init, last := s[..|s| - 1], s[|s| - 1];
      StableSortStable(init, field, descending, k);
      StableSortOrdered(init, field, descending);
      InsertStable(StableSort(init, field, descending), last, field, descending, k);
      WithKeyAppend(init, [last], field, k);
      assert s == init + [last];
      assert [last][1..] == [];
    }
  }

  /** The sort reorders the entries, leaves them ordered by key, and keeps
      entries with equal keys in their previous order. */
  lemma StableSortCorrect(s: seq<Entry>, field: SortKey, descending: bool)
    ensures var r := StableSort(s, field, descending);
      && multiset(r) == multiset(s)
      && Ordered(r, field, descending)
      && forall k :: WithKey(r, field, k) == WithKey(s, field, k)
  {
    StableSortPermutes(s, field, descending);
    StableSortOrdered(s, field, descending);
    forall k ensures WithKey(StableSort(s, field, descending), field, k) == WithKey(s, field, k) {
      StableSortStable(s, field, descending, k);
    }
  }

  lemma {:induction false} WithKeyMembers(r: seq<Entry>, field: SortKey, k: string)
    ensures forall e :: e in WithKey(r, field, k) <==> e in r && Key(field, e) == k
  {
    if r != [] {
      WithKeyMembers(r[1..], field, k);
      assert r == [r[0]] + r[1..];
    }
  }

  /** Two ordered sequences that agree on each key's entries start with
      entries of the same key. */
  lemma OrderedSameHeadKey(r1: seq<Entry>, r2: seq<Entry>, field: SortKey, descending: bool)
    requires r1 != [] && r2 != []
    requires Ordered(r1, field, descending) && Ordered(r2, field, descending)
    requires forall k :: WithKey(r1, field, k) == WithKey(r2, field, k)
    ensures Key(field, r1[0]) == Key(field, r2[0])
  {
    var k1, k2 := Key(field, r1[0]), Key(field, r2[0]);
    if k1 != k2 {
      OutranksTotal(descending, k1, k2);
      var swap := !Outranks(descending, k1, k2);
      var a, b := if swap then r2 else r1, if swap then r1 else r2;
      var ka := Key(field, a[0]);
      WithKeyMembers(a, field, ka);
      WithKeyMembers(b, field, ka);
      assert false;
    }
  }

  /** When two sequences agree on each key's entries and start with the
      same key, they start with the same entry and their tails agree on
      each key's entries too. */
  lemma WithKeyTailsAgree(r1: seq<Entry>, r2: seq<Entry>, field: SortKey)
    requires r1 != [] && r2 != [] && Key(field, r1[0]) == Key(field, r2[0])
    requires forall k :: WithKey(r1, field, k) == WithKey(r2, field, k)
    ensures r1[0] == r2[0]
    ensures forall k :: WithKey(r1[1..], field, k) == WithKey(r2[1..], field, k)
  {
    var k := Key(field, r1[0]);
    assert WithKey(r1, field, k) == [r1[0]] + WithKey(r1[1..], field, k);
    assert WithKey(r2, field, k) == [r2[0]] + WithKey(r2[1..], field, k);
    forall k' ensures WithKey(r1[1..], field, k') == WithKey(r2[1..], field, k') {
      var w1, w2 := WithKey(r1, field, k'), WithKey(r2, field, k');
      var t1, t2 := WithKey(r1[1..], field, k'), WithKey(r2[1..], field, k');
      assert w1 == w2;
      if k' == k {
        assert w1 == [r1[0]] + t1 && w2 == [r2[0]] + t2;
        assert w1[1..] == t1 && w2[1..] == t2;
      } else {
        assert w1 == t1 && w2 == t2;
      }
    }
    assert r1[0] == WithKey(r1, field, k)[0] == WithKey(r2, field, k)[0] == r2[0];
  }

  /** A stably ordered arrangement is fully determined: two ordered
      sequences that agree on the order of each key's entries are equal. */
  lemma {:induction false} OrderedStableUnique(r1: seq<Entry>, r2: seq<Entry>, field: SortKey, descending: bool)
    requires Ordered(r1, field, descending) && Ordered(r2, field, descending)
    requires forall k :: WithKey(r1, field, k) == WithKey(r2, field, k)
    ensures r1 == r2
    decreases |r1|
  {
    if r1 == [] || r2 == [] {
      var r := if r1 == [] then r2 else r1;
      if r != [] {
        WithKeyMembers(r, field, Key(field, r[0]));
        WithKeyMembers(r1, field, Key(field, r[0]));
        WithKeyMembers(r2, field, Key(field, r[0]));
        assert false;
      }
      return;
    }
    OrderedSameHeadKey(r1, r2, field, descending);
    WithKeyTailsAgree(r1, r2, field);
    OrderedTail(r1, field, descending);
    OrderedTail(r2, field, descending);
    OrderedStableUnique(r1[1..], r2[1..], field, descending);
    assert r1 == [r1[0]] + r1[1..] && r2 == [r2[0]] + r2[1..];
  }

  /** Any stable sort of `s`, Python's included, gives `StableSort(s)`. */
  lemma StableSortUnique(s: seq<Entry>, r: seq<Entry>, field: SortKey, descending: bool)
    requires Ordered(r, field, descending)
    requires forall k :: WithKey(r, field, k) == WithKey(s, field, k)
    ensures r == StableSort(s, field, descending)
  {
    StableSortCorrect(s, field, descending);
    OrderedStableUnique(r, StableSort(s, field, descending), field, descending);
  }

  const TIME_MODE := "Sort by: Time"
  const ALPHA_MODE := "Sort by: A-Z"
  const REVERSE_ALPHA_MODE := "Sort by: Z-A"

  /** The history after choosing `mode` in the sort menu. */
  function SortByMode(h: seq<Entry>, mode: string): seq<Entry> {
    if mode == TIME_MODE then StableSort(h, ByTime, true)
    else if mode == ALPHA_MODE then StableSort(h, ByText, false)
    else if mode == REVERSE_ALPHA_MODE then StableSort(h, ByText, true)
    else h
  }

  /** What each menu choice promises about the reordered history. */
  lemma SortByModeCorrect(h: seq<Entry>, mode: string)
    ensures var r := SortByMode(h, mode);
      && multiset(r) == multiset(h)
      && (mode == TIME_MODE ==>
            forall i, j :: 0 <= i < j < |r| ==> LexLe(r[j].time, r[i].time))
      && (mode == ALPHA_MODE ==>
            forall i, j :: 0 <= i < j < |r| ==> LexLe(Lower(r[i].text), Lower(r[j].text)))
      && (mode == REVERSE_ALPHA_MODE ==>
            forall i, j :: 0 <= i < j < |r| ==> LexLe(Lower(r[j].text), Lower(r[i].text)))
      && (mode !in {TIME_MODE, ALPHA_MODE, REVERSE_ALPHA_MODE} ==> r == h)
  {
    var r := SortByMode(h, mode);
    if mode == TIME_MODE {
      StableSortCorrect(h, ByTime, true);
      forall i, j | 0 <= i < j < |r| ensures LexLe(r[j].time, r[i].time) {
        LexLessTotal(r[i].time, r[j].time);
      }
    } else if mode == ALPHA_MODE {
      StableSortCorrect(h, ByText, false);
      forall i, j | 0 <= i < j < |r| ensures LexLe(Lower(r[i].text), Lower(r[j].text)) {
        LexLessTotal(Lower(r[i].text), Lower(r[j].text));
      }
    } else if mode == REVERSE_ALPHA_MODE {
      StableSortCorrect(h, ByText, true);
      forall i, j | 0 <= i < j < |r| ensures LexLe(Lower(r[j].text), Lower(r[i].text)) {
        LexLessTotal(Lower(r[i].text), Lower(r[j].text));
      }
    }
  }

  /** Sorting keeps entries whose keys tie in the order they had. */
  lemma SortByModeStable(h: seq<Entry>, mode: string, k: string)
    ensures mode == TIME_MODE ==> WithKey(SortByMode(h, mode), ByTime, k) == WithKey(h, ByTime, k)
    ensures mode in {ALPHA_MODE, REVERSE_ALPHA_MODE} ==>
      WithKey(SortByMode(h, mode), ByText, k) == WithKey(h, ByText, k)
  {
    if mode == TIME_MODE {
      StableSortStable(h, ByTime, true, k);
    } else if mode == ALPHA_MODE {
      StableSortStable(h, ByText, false, k);
    } else if mode == REVERSE_ALPHA_MODE {
      StableSortStable(h, ByText, true, k);
    }
  }

  /** Sorting may put equal texts next to each other: the history
      [a, b, a] sorted A-Z is [a, a, b]. */
  lemma SortMayJoinDuplicates(t1: string, t2: string, t3: string)
    ensures var h := [Entry("a", t1), Entry("b", t2), Entry("a", t3)];
      AdjacentDistinct(h) && !AdjacentDistinct(SortByMode(h, ALPHA_MODE))
  {
    var h := [Entry("a", t1), Entry("b", t2), Entry("a", t3)];
    var a1, b2, a3 := h[0], h[1], h[2];
    assert Lower("a") == "a" && Lower("b") == "b";
    assert LexLess("a", "b") && !LexLess("b", "a") && !LexLess("a", "a");
    assert Key(ByText, a1) == "a" && Key(ByText, b2) == "b" && Key(ByText, a3) == "a";
    assert h[..2] == [a1, b2] && [a1, b2][..1] == [a1] && [a1][..0] == [];
    assert StableSort([a1], ByText, false) == [a1];
    assert Insert([a1], b2, ByText, false) == [a1, b2];
    assert StableSort([a1, b2], ByText, false) == [a1, b2];
    assert Insert([a1, b2], a3, ByText, false) == [a1] + Insert([b2], a3, ByText, false);
    assert Insert([b2], a3, ByText, false) == [a3, b2];
    var r := SortByMode(h, ALPHA_MODE);
    assert r == [a1, a3, b2];
    assert r[0].text == r[1].text;
  }

  /** The tick compares with the last entry of the list as it now stands,
      so after a time sort it no longer sees the newest capture: with
      [(c1, t1), (c2, t2)] sorted by time and the clipboard still holding
      c2, the next tick records c2 a second time. */
  lemma SortThenPollRecaptures(c1: string, c2: string, t1: string, t2: string, t3: string)
    requires c1 != c2 && LexLess(t1, t2)
    ensures var h := [Entry(c1, t1), Entry(c2, t2)];
      && IsNew(h, c2) == false
      && Polled(SortByMode(h, TIME_MODE), c2, t3) == [Entry(c2, t2), Entry(c1, t1), Entry(c2, t3)]
  {
    var e1, e2 := Entry(c1, t1), Entry(c2, t2);
    var h := [e1, e2];
    LexLessAsymmetric(t1, t2);
    assert h[..1] == [e1] && [e1][..0] == [];
    assert StableSort([e1], ByTime, true) == [e1];
    assert Insert([e1], e2, ByTime, true) == [e2, e1];
    assert SortByMode(h, TIME_MODE) == [e2, e1];
  }
}
