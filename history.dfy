/** The clipboard history as a value: its entries, how an entry is shown
    as a listbox row, what one polling tick does to it, and the search
    filter over it. */
module History {
  import opened Text

  /** One captured clipboard snapshot: its text and the time it was read,
      formatted as "%Y-%m-%d %H:%M:%S" (an opaque string here). */
  datatype Entry = Entry(text: string, time: string)

  /** The listbox row shown for an entry: the text, a newline, the time. */
  function Render(e: Entry): string {
    e.text + "\n" + e.time
  }

  /** The rows of a listbox that shows `h` in order. */
  function Rendered(h: seq<Entry>): seq<string> {
    seq(|h|, i requires 0 <= i < |h| => Render(h[i]))
  }

  lemma RenderedAppend(h: seq<Entry>, e: Entry)
    ensures Rendered(h + [e]) == Rendered(h) + [Render(e)]
  {
  }

  lemma RenderedConcat(a: seq<Entry>, b: seq<Entry>)
    ensures Rendered(a + b) == Rendered(a) + Rendered(b)
  {
  }

  /** Reordering the history reorders its rows the same way. */
  lemma {:induction false} RenderedPermutation(a: seq<Entry>, b: seq<Entry>)
    requires multiset(a) == multiset(b)
    ensures multiset(Rendered(a)) == multiset(Rendered(b))
    decreases |a|
  {
    if a != [] {
      var x := a[0];
      assert x in multiset(b);
      var i :| 0 <= i < |b| && b[i] == x;
      var b' := b[..i] + b[i + 1..];
      assert b == b[..i] + [x] + b[i + 1..];
      assert a == [x] + a[1..];
      calc {
        multiset(a[1..]) + multiset{x};
        multiset(a);
        multiset(b);
        multiset(b[..i]) + multiset{x} + multiset(b[i + 1..]);
        multiset(b') + multiset{x};
      }
      assert multiset(a[1..]) == multiset(a[1..]) + multiset{x} - multiset{x};
      assert multiset(a[1..]) == multiset(b');
      RenderedPermutation(a[1..], b');
      RenderedConcat([x], a[1..]);
      RenderedConcat(b[..i], b[i + 1..]);
      RenderedConcat(b[..i] + [x], b[i + 1..]);
      RenderedConcat(b[..i], [x]);
    }
  }

  /** Copying a row back yields the entry's text whenever that text is a
      single line; a multi-line text yields only its first line. */
  lemma RenderRoundTrip(e: Entry)
    ensures FirstLine(Render(e)) == FirstLine(e.text)
    ensures '\n' !in e.text ==> FirstLine(Render(e)) == e.text
  {
    FirstLineOfJoin(e.text, e.time);
    if '\n' !in e.text {
      FirstLineNoNewline(e.text);
    }
  }

  /** No two neighbouring entries carry the same text. */
  ghost predicate AdjacentDistinct(h: seq<Entry>) {
    forall i, j :: 0 <= i < j < |h| && j == i + 1 ==> h[i].text != h[j].text
  }

  /** The tick appends when the history is empty or its last entry
      holds a different text than the clipboard. */
  predicate IsNew(h: seq<Entry>, clipboard: string) {
    h == [] || h[|h| - 1].text != clipboard
  }

  /** The history after one polling tick that read `clipboard` at `now`. */
  function Polled(h: seq<Entry>, clipboard: string, now: string): seq<Entry> {
    if IsNew(h, clipboard) then h + [Entry(clipboard, now)] else h
  }

  /** The first tick on an empty history records the clipboard value. */
  lemma PolledEmpty(clipboard: string, now: string)
    ensures Polled([], clipboard, now) == [Entry(clipboard, now)]
  {
  }

  /** After a tick the last entry holds the clipboard value, and the
      tick added at most one entry, at the end. */
  lemma PolledLast(h: seq<Entry>, clipboard: string, now: string)
    ensures var h' := Polled(h, clipboard, now);
      h' != [] && h'[|h'| - 1].text == clipboard && h <= h' && |h'| <= |h| + 1
  {
  }

  /** A second tick that reads the same value changes nothing. */
  lemma PolledTwice(h: seq<Entry>, clipboard: string, t1: string, t2: string)
    ensures Polled(Polled(h, clipboard, t1), clipboard, t2) == Polled(h, clipboard, t1)
  {
  }

  /** Only the last entry suppresses a duplicate: with history [a, b]
      a tick reading a's text appends a third entry. */
  lemma PolledChecksLastOnly(a: Entry, b: Entry, now: string)
    requires a.text != b.text
    ensures Polled([a, b], a.text, now) == [a, b, Entry(a.text, now)]
  {
  }

  lemma PolledKeepsAdjacentDistinct(h: seq<Entry>, clipboard: string, now: string)
    requires AdjacentDistinct(h)
    ensures AdjacentDistinct(Polled(h, clipboard, now))
  {
  }

  /** The two things that change the history without sorting it. */
  datatype Event = Poll(clipboard: string, now: string) | Clear

  function Step(h: seq<Entry>, ev: Event): seq<Entry> {
    match ev
    case Poll(clipboard, now) => Polled(h, clipboard, now)
    case Clear => []
  }

  function Run(h: seq<Entry>, evs: seq<Event>): seq<Entry>
    decreases |evs|
  {
    if evs == [] then h else Run(Step(h, evs[0]), evs[1..])
  }

  /** Whatever the clipboard reads and whenever it is cleared, no two
      neighbouring entries are equal. */
  lemma {:induction false} RunKeepsAdjacentDistinct(h: seq<Entry>, evs: seq<Event>)
    requires AdjacentDistinct(h)
    ensures AdjacentDistinct(Run(h, evs))
    decreases |evs|
  {
    if evs != [] {
      if evs[0].Poll? {
        PolledKeepsAdjacentDistinct(h, evs[0].clipboard, evs[0].now);
      }
      RunKeepsAdjacentDistinct(Step(h, evs[0]), evs[1..]);
    }
  }

  /** The search test: the lower-cased query occurs in the lower-cased text. */
  predicate Matches(e: Entry, query: string) {
    Contains(Lower(e.text), Lower(query))
  }

  /** The entries of `h` that match `query`, in their order in `h`. */
  function Filter(h: seq<Entry>, query: string): (r: seq<Entry>)
    ensures |r| <= |h|
  {
    if h == [] then []
    else
      var last := h[|h| - 1];
      Filter(h[..|h| - 1], query) + (if Matches(last, query) then [last] else [])
  }

  /** A query matches the same entries whatever the case of its ASCII
      letters. */
  lemma MatchesIgnoresCase(e: Entry, q: string, q': string)
    requires |q| == |q'|
    requires forall i :: 0 <= i < |q| ==> CasePartners(q[i], q'[i])
    ensures Matches(e, q) == Matches(e, q')
  {
    LowerIgnoresCase(q, q');
  }

  /** The positions of `h` whose entries match `query`, ascending. */
  function MatchPositions(h: seq<Entry>, query: string): seq<nat> {
    if h == [] then []
    else
      MatchPositions(h[..|h| - 1], query) + (if Matches(h[|h| - 1], query) then [|h| - 1] else [])
  }

  lemma {:induction false} MatchPositionsAscending(h: seq<Entry>, query: string)
    ensures forall k :: 0 <= k < |MatchPositions(h, query)| ==> MatchPositions(h, query)[k] < |h|
    ensures forall k, l :: 0 <= k < l < |MatchPositions(h, query)| ==>
      MatchPositions(h, query)[k] < MatchPositions(h, query)[l]
  {
    if h != [] {
      var init := h[..|h| - 1];
      MatchPositionsAscending(init, query);
      var p, p0 := MatchPositions(h, query), MatchPositions(init, query);
      assert p == p0 + (if Matches(h[|h| - 1], query) then [|h| - 1] else []);
      forall k | 0 <= k < |p| ensures p[k] < |h| {
        if k < |p0| {
          assert p[k] == p0[k];
        }
      }
      forall k, l | 0 <= k < l < |p| ensures p[k] < p[l] {
        assert p[k] == p0[k];
        if l < |p0| {
          assert p[l] == p0[l];
        }
      }
    }
  }

  lemma {:induction false} MatchPositionsExact(h: seq<Entry>, query: string)
    ensures forall j :: 0 <= j < |h| ==> (Matches(h[j], query) <==> j in MatchPositions(h, query))
  {
    if h != [] {
      var init := h[..|h| - 1];
      MatchPositionsExact(init, query);
      MatchPositionsAscending(init, query);
      var p, p0 := MatchPositions(h, query), MatchPositions(init, query);
      var last := |h| - 1;
      assert p == p0 + (if Matches(h[last], query) then [last] else []);
      forall j | 0 <= j < |h| ensures Matches(h[j], query) <==> j in p {
        if j < last {
          assert h[j] == init[j];
          assert j in p <==> j in p0;
        } else {
          assert last !in p0;
        }
      }
    }
  }

  lemma {:induction false} FilterAtPositions(h: seq<Entry>, query: string)
    ensures var r, p := Filter(h, query), MatchPositions(h, query);
      |p| == |r| && forall k :: 0 <= k < |p| ==> p[k] < |h| && r[k] == h[p[k]]
  {
    if h != [] {
      var init := h[..|h| - 1];
      FilterAtPositions(init, query);
      var r, p := Filter(h, query), MatchPositions(h, query);
      var r0, p0 := Filter(init, query), MatchPositions(init, query);
      forall k | 0 <= k < |p| ensures p[k] < |h| && r[k] == h[p[k]] {
        if k < |p0| {
          assert p[k] == p0[k] && r[k] == r0[k] && h[p0[k]] == init[p0[k]];
        }
      }
    }
  }

  /** `Filter` picks out exactly the matching entries: the k-th result is
      the entry at the k-th matching position, the positions ascend, and a
      position is picked exactly when its entry matches. */
  lemma {:induction false} FilterPicksMatches(h: seq<Entry>, query: string)
    ensures var r, p := Filter(h, query), MatchPositions(h, query);
      && |p| == |r|
      && (forall k :: 0 <= k < |p| ==> p[k] < |h| && r[k] == h[p[k]])
      && (forall k, l :: 0 <= k < l < |p| ==> p[k] < p[l])
      && (forall j :: 0 <= j < |h| ==> (Matches(h[j], query) <==> j in p))
  {
    FilterAtPositions(h, query);
    MatchPositionsAscending(h, query);
    MatchPositionsExact(h, query);
  }

  /** Every entry shown matches the query and comes from the history, and
      every matching entry of the history is shown. */
  lemma {:induction false} FilterSound(h: seq<Entry>, query: string)
    ensures forall e :: e in Filter(h, query) ==> e in h && Matches(e, query)
    ensures forall e :: e in h && Matches(e, query) ==> e in Filter(h, query)
  {
    FilterPicksMatches(h, query);
    var r, p := Filter(h, query), MatchPositions(h, query);
    forall e | e in h && Matches(e, query) ensures e in r {
      var j :| 0 <= j < |h| && h[j] == e;
      var k :| 0 <= k < |p| && p[k] == j;
      assert r[k] == e;
    }
  }

  /** An empty search shows the whole history. */
  lemma {:induction false} FilterEmptyQuery(h: seq<Entry>)
    ensures Filter(h, "") == h
  {
    if h != [] {
      FilterEmptyQuery(h[..|h| - 1]);
      ContainsEmpty(Lower(h[|h| - 1].text));
      assert h[..|h| - 1] + [h[|h| - 1]] == h;
    }
  }

  /** Searching a cleared history shows nothing. */
  lemma FilterCleared(query: string)
    ensures Filter([], query) == []
  {
  }

  /** Searching twice with the same query is searching once. */
  lemma {:induction false} FilterIdempotent(h: seq<Entry>, query: string)
    ensures Filter(Filter(h, query), query) == Filter(h, query)
  {
    if h != [] {
      var init, last := h[..|h| - 1], h[|h| - 1];
      var f := Filter(init, query);
      FilterIdempotent(init, query);
      FilterAppend(f, if Matches(last, query) then [last] else [], query);
    }
  }

  lemma {:induction false} FilterAppend(a: seq<Entry>, b: seq<Entry>, query: string)
    ensures Filter(a + b, query) == Filter(a, query) + Filter(b, query)
    decreases |b|
  {
    if b == [] {
      assert a + b == a;
    } else {
      var ab, b', last := a + b, b[..|b| - 1], b[|b| - 1];
      var tail := if Matches(last, query) then [last] else [];
      assert ab[..|ab| - 1] == a + b' && ab[|ab| - 1] == last;
      assert Filter(ab, query) == Filter(a + b', query) + tail;
      assert Filter(b, query) == Filter(b', query) + tail;
      FilterAppend(a, b', query);
    }
  }
}
