/** The clipboard manager window's state: the history list and the listbox
    rows shown for it, with the operations the timer and the buttons run
    on them. The clipboard value and the current time are passed in; the
    clipboard write and the message boxes are the returned outcome. */
module Manager {
  import opened Text
  import opened History
  import opened Sorting

  datatype Option<T> = None | Some(value: T)

  /** What "Copy Selected" does: write `text` to the clipboard and report
      "Copied to clipboard!", or warn "No item selected.". */
  datatype CopyOutcome = Copied(text: string) | NoSelection

  class ClipboardManager {
    /** The captured entries, oldest first until a sort reorders them. */
    var history: seq<Entry>
    /** The listbox rows, one per captured entry. */
    var listbox: seq<string>

    /** The listbox shows each entry of the history exactly once, in some
        order. Every operation keeps this. */
    ghost predicate Valid()
      reads this
    {
      multiset(listbox) == multiset(Rendered(history))
    }

    /** The listbox shows the history in its own order. Ticks and clears
        keep this; a sort does not, since it leaves the rows as they are. */
    ghost predicate Mirrored()
      reads this
    {
      listbox == Rendered(history)
    }

    /** Opening the window creates an empty history and runs the first tick. */
    constructor (clipboard: string, now: string)
      ensures Valid() && Mirrored() && AdjacentDistinct(history)
      ensures history == [Entry(clipboard, now)]
      ensures listbox == [Render(Entry(clipboard, now))]
    {
      history := [];
      listbox := [];
      new;
      UpdateClipboardHistory(clipboard, now);
    }

    /** One polling tick that read `clipboard` at time `now`. */
    method UpdateClipboardHistory(clipboard: string, now: string)
      requires Valid()
      modifies this
      ensures Valid()
      ensures history == Polled(old(history), clipboard, now)
      ensures listbox == if IsNew(old(history), clipboard)
                         then old(listbox) + [Render(Entry(clipboard, now))]
                         else old(listbox)
      ensures old(Mirrored()) ==> Mirrored()
      ensures old(AdjacentDistinct(history)) ==> AdjacentDistinct(history)
    {
      ghost var h0 := history;
      if |history| == 0 || history[|history| - 1].text != clipboard {
        var item := Entry(clipboard, now);
        history := history + [item];
        listbox := listbox + [Render(item)];
        assert history == Polled(h0, clipboard, now);
        RenderedAppend(h0, item);
        assert Rendered(history) == Rendered(h0) + [Render(item)];
      }
      if AdjacentDistinct(h0) {
        PolledKeepsAdjacentDistinct(h0, clipboard, now);
      }
    }

    /** The Clear button: empties the history and the listbox. Clearing
        twice leaves the same state as clearing once. */
    method ClearHistory()
      modifies this
      ensures history == [] && listbox == []
      ensures Valid() && Mirrored() && AdjacentDistinct(history)
    {
      history := [];
      listbox := [];
    }

    /** The Copy Selected button. `selected` is the listbox's selected row,
        if any; the listbox only ever reports one of its own rows. */
    method CopySelected(selected: Option<nat>) returns (outcome: CopyOutcome)
      requires Valid()
      requires selected.Some? ==> selected.value < |listbox|
      ensures selected.None? <==> outcome == NoSelection
      ensures selected.Some? ==> outcome == Copied(FirstLine(listbox[selected.value]))
      ensures selected.Some? ==>
        exists j :: 0 <= j < |history| && outcome == Copied(FirstLine(history[j].text))
      ensures selected.Some? && Mirrored() ==>
        outcome == Copied(FirstLine(history[selected.value].text))
      ensures selected.Some? && Mirrored() && '\n' !in history[selected.value].text ==>
        outcome == Copied(history[selected.value].text)
    {
      if selected.None? {
        return NoSelection;
      }
      var row := listbox[selected.value];
      outcome := Copied(FirstLine(row));
      assert row in multiset(Rendered(history));
      var j :| 0 <= j < |history| && Rendered(history)[j] == row;
      RenderRoundTrip(history[j]);
      if Mirrored() {
        RenderRoundTrip(history[selected.value]);
      }
    }

    /** The sort menu: reorders the history in place; the listbox rows
        stay as they were. */
    method SortHistory(mode: string)
      requires Valid()
      modifies this
      ensures Valid()
      ensures history == SortByMode(old(history), mode)
      ensures listbox == old(listbox)
    {
      ghost var h0 := history;
      if mode == TIME_MODE {
        history := StableSort(history, ByTime, true);
      } else if mode == ALPHA_MODE {
        history := StableSort(history, ByText, false);
      } else if mode == REVERSE_ALPHA_MODE {
        history := StableSort(history, ByText, true);
      }
      SortByModeCorrect(h0, mode);
      RenderedPermutation(history, h0);
    }

    /** The search box: the entries whose text contains the query, ignoring
        case, in history order. The history itself is left alone. */
    method FilterHistory(query: string) returns (filtered: seq<Entry>)
      ensures filtered == Filter(history, query)
      ensures forall e :: e in filtered ==> e in history && Matches(e, query)
      ensures forall e :: e in history && Matches(e, query) ==> e in filtered
      ensures query == "" ==> filtered == history
    {
      filtered := Filter(history, query);
      FilterSound(history, query);
      if query == "" {
        FilterEmptyQuery(history);
      }
    }
  }
}
