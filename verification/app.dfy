/** The seating-map session: seat lookup, the capacity- and status-gated
    selection toggle, the focus snapshot, and the effects that persist and
    rehydrate the selection. */
module App {
  import opened Types
  import opened OrderedSet
  import opened SeatMap
  import opened Storage

  /** Most seats a user may hold selected at once. */
  const MaxSelections := 8

  // ---------------------------------------------------------------------
  // Seat lookup

  /** Index of the first entry whose seat has `seatId`, or `|entries|` when
      there is none. */
  function FirstIndex(entries: seq<SeatEntry>, seatId: string): (k: nat)
    ensures k <= |entries|
    ensures k < |entries| ==> entries[k].seat.id == seatId
    ensures forall j :: 0 <= j < k ==> entries[j].seat.id != seatId
  {
    if entries == [] then 0
    else if entries[0].seat.id == seatId then 0
    else 1 + FirstIndex(entries[1..], seatId)
  }

  /** The first entry whose seat has `seatId`. */
  function FirstMatch(entries: seq<SeatEntry>, seatId: string): (found: Option<SeatEntry>)
    ensures found.None? <==> forall k :: 0 <= k < |entries| ==> entries[k].seat.id != seatId
    ensures found.Some? ==> found.value.seat.id == seatId
    ensures found.Some? ==> exists k :: 0 <= k < |entries| && entries[k] == found.value
                                        && forall j :: 0 <= j < k ==> entries[j].seat.id != seatId
  {
    var k := FirstIndex(entries, seatId);
    if k < |entries| then Some(entries[k]) else None
  }

  /** Searching a concatenation finds the first part's match, if any, else
      the second part's. */
  lemma FirstMatchAppend(a: seq<SeatEntry>, b: seq<SeatEntry>, seatId: string)
    ensures FirstMatch(a, seatId).Some? ==> FirstMatch(a + b, seatId) == FirstMatch(a, seatId)
    ensures FirstMatch(a, seatId).None? ==> FirstMatch(a + b, seatId) == FirstMatch(b, seatId)
  {
    var ka, kb, kab := FirstIndex(a, seatId), FirstIndex(b, seatId), FirstIndex(a + b, seatId);
    if ka < |a| {
      assert (a + b)[ka] == a[ka];
      assert kab == ka;
    } else {
      forall j | |a| <= j < |a| + kb ensures (a + b)[j].seat.id != seatId {
        assert (a + b)[j] == b[j - |a|];
      }
      if kb < |b| {
        assert (a + b)[|a| + kb] == b[kb];
      }
      assert kab == |a| + kb;
    }
  }

  /** The seat `handleSeatClick` resolves an id to: the first seat with that
      id in section, row, seat order, with its section's label and row's index. */
  function Lookup(venue: Venue, seatId: string): (found: Option<SeatEntry>)
    ensures found.None? <==> forall e :: e in Flatten(venue.sections) ==> e.seat.id != seatId
    ensures found.Some? ==> found.value in Flatten(venue.sections) && found.value.seat.id == seatId
  {
    FirstMatch(Flatten(venue.sections), seatId)
  }

  /** `row.seats.find`: the first seat of the row with `seatId`, as an entry
      carrying the row's context. */
  method FindInRow(sectionLabel: string, row: Row, seatId: string) returns (found: Option<SeatEntry>)
    ensures found == FirstMatch(FlattenSeats(sectionLabel, row.index, row.seats), seatId)
  {
    found := None;
    var k := 0;
    while k < |row.seats| && found.None?
      invariant 0 <= k <= |row.seats|
      invariant found == FirstMatch(FlattenSeats(sectionLabel, row.index, row.seats[..k]), seatId)
    {
      var entry := SeatEntry(row.seats[k], sectionLabel, row.index);
      var seen := FlattenSeats(sectionLabel, row.index, row.seats[..k]);
      assert FlattenSeats(sectionLabel, row.index, row.seats[..k + 1]) == seen + [entry];
      FirstMatchAppend(seen, [entry], seatId);
      if row.seats[k].id == seatId {
        found := Some(entry);
      }
      k := k + 1;
    }
    assert FlattenSeats(sectionLabel, row.index, row.seats)
        == FlattenSeats(sectionLabel, row.index, row.seats[..k]) + FlattenSeats(sectionLabel, row.index, row.seats[k..]);
    FirstMatchAppend(FlattenSeats(sectionLabel, row.index, row.seats[..k]),
                     FlattenSeats(sectionLabel, row.index, row.seats[k..]), seatId);
  }

  /** The search of `handleSeatClick`: nested loops over sections and rows,
      a `find` over each row's seats, leaving both loops at the first hit. */
  method FindSeat(venue: Venue, seatId: string) returns (found: Option<SeatEntry>)
    ensures found == Lookup(venue, seatId)
  {
    var sections := venue.sections;
    found := None;
    var i := 0;
    while i < |sections| && found.None?
      invariant 0 <= i <= |sections|
      invariant found == FirstMatch(Flatten(sections[..i]), seatId)
    {
      var section := sections[i];
      ghost var before := Flatten(sections[..i]);
      var j := 0;
      while j < |section.rows| && found.None?
        invariant 0 <= j <= |section.rows|
        invariant found == FirstMatch(before + FlattenRows(section.sectionLabel, section.rows[..j]), seatId)
      {
        found := FindInRow(section.sectionLabel, section.rows[j], seatId);
        FirstMatchNextRow(before, section.sectionLabel, section.rows, j, seatId);
        j := j + 1;
      }
      FirstMatchAfterPrefix(before, section, j, seatId);
      FlattenNext(sections, i);
      i := i + 1;
    }
    FirstMatchAfterSections(sections, i, seatId);
  }

  /** When the rows before row `j` hold no match, the search up to and
      including row `j` finds row `j`'s first match. */
  lemma FirstMatchNextRow(before: seq<SeatEntry>, sectionLabel: string, rows: seq<Row>, j: nat, seatId: string)
    requires j < |rows|
    requires FirstMatch(before + FlattenRows(sectionLabel, rows[..j]), seatId).None?
    ensures FirstMatch(before + FlattenRows(sectionLabel, rows[..j + 1]), seatId)
         == FirstMatch(FlattenSeats(sectionLabel, rows[j].index, rows[j].seats), seatId)
  {
    var prefix := before + FlattenRows(sectionLabel, rows[..j]);
    var rowEntries := FlattenSeats(sectionLabel, rows[j].index, rows[j].seats);
    FlattenRowsNext(sectionLabel, rows, j);
    assert before + FlattenRows(sectionLabel, rows[..j + 1]) == prefix + rowEntries;
    FirstMatchAppend(prefix, rowEntries, seatId);
  }

  /** Leaving the section loop, at its end or at a hit, the search result is
      that of the whole venue. */
  lemma FirstMatchAfterSections(sections: seq<Section>, i: nat, seatId: string)
    requires i <= |sections|
    requires i < |sections| ==> FirstMatch(Flatten(sections[..i]), seatId).Some?
    ensures FirstMatch(Flatten(sections), seatId) == FirstMatch(Flatten(sections[..i]), seatId)
  {
    assert sections == sections[..i] + sections[i..];
    FlattenAppend(sections[..i], sections[i..]);
    FirstMatchAppend(Flatten(sections[..i]), Flatten(sections[i..]), seatId);
  }

  /** Leaving the row loop of a section, either at its end or at a hit,
      the search result is that of the whole section. */
  lemma FirstMatchAfterPrefix(before: seq<SeatEntry>, section: Section, j: nat, seatId: string)
    requires j <= |section.rows|
    requires j < |section.rows| ==> FirstMatch(before + FlattenRows(section.sectionLabel, section.rows[..j]), seatId).Some?
    ensures FirstMatch(before + FlattenRows(section.sectionLabel, section.rows), seatId)
         == FirstMatch(before + FlattenRows(section.sectionLabel, section.rows[..j]), seatId)
  {
    var name := section.sectionLabel;
    assert section.rows == section.rows[..j] + section.rows[j..];
    FlattenRowsAppend(name, section.rows[..j], section.rows[j..]);
    assert before + FlattenRows(name, section.rows)
        == (before + FlattenRows(name, section.rows[..j])) + FlattenRows(name, section.rows[j..]);
    FirstMatchAppend(before + FlattenRows(name, section.rows[..j]), FlattenRows(name, section.rows[j..]), seatId);
    if j == |section.rows| {
      assert section.rows[..j] == section.rows;
    }
  }

  /** With unique ids, looking up an entry's id finds that very entry. */
  lemma LookupFindsOwnEntry(venue: Venue, k: nat)
    requires UniqueIds(Flatten(venue.sections)) && k < |Flatten(venue.sections)|
    ensures Lookup(venue, Flatten(venue.sections)[k].seat.id) == Some(Flatten(venue.sections)[k])
  {
    var entries := Flatten(venue.sections);
    var found := FirstMatch(entries, entries[k].seat.id);
    var m :| 0 <= m < |entries| && entries[m] == found.value
             && forall j :: 0 <= j < m ==> entries[j].seat.id != entries[k].seat.id;
    assert m == k;
  }

  // ---------------------------------------------------------------------
  // Selection toggle

  /** The `setSelectedSeats` updater: a selected seat is removed without any
      capacity check; an unselected one is appended unless the selection
      already holds `MaxSelections` or more, in which case it is unchanged. */
  function ToggleSelection(prev: seq<string>, seatId: string): (next: seq<string>)
    requires NoDup(prev)
    ensures NoDup(next)
    ensures forall x :: x != seatId ==> (x in next <==> x in prev)
    ensures seatId in next <==> seatId !in prev && |prev| < MaxSelections
    ensures seatId in prev ==> |next| == |prev| - 1
    ensures seatId in prev ==> next == prev[..FirstPos(prev, seatId)] + prev[FirstPos(prev, seatId) + 1..]
    ensures seatId !in prev && |prev| < MaxSelections ==> next == prev + [seatId]
    ensures seatId !in prev && |prev| >= MaxSelections ==> next == prev
    ensures |prev| <= MaxSelections ==> |next| <= MaxSelections
  {
    if seatId in prev then Delete(prev, seatId)
    else if |prev| >= MaxSelections then prev
    else Add(prev, seatId)
  }

  /** Two toggles of the same seat restore the selection: exactly when the
      seat was absent, and as a set (the seat moves to the end) when it was
      present. */
  lemma ToggleTwice(prev: seq<string>, seatId: string)
    requires NoDup(prev) && |prev| <= MaxSelections
    requires seatId in prev || |prev| < MaxSelections
    ensures forall x :: x in ToggleSelection(ToggleSelection(prev, seatId), seatId) <==> x in prev
    ensures |ToggleSelection(ToggleSelection(prev, seatId), seatId)| == |prev|
    ensures seatId !in prev ==> ToggleSelection(ToggleSelection(prev, seatId), seatId) == prev
  {
    if seatId !in prev {
      DeleteUndoesAdd(prev, seatId);
    }
  }

  /** A click can change the selection only for a seat the venue has and
      that is available. */
  predicate Eligible(venue: Option<Venue>, seatId: string) {
    venue.Some? && Lookup(venue.value, seatId).Some? && Lookup(venue.value, seatId).value.seat.status == Available
  }

  /** The selection after `handleSeatClick(seatId)`: no venue, no such seat or
      a seat that is not available leaves it unchanged (the status check
      comes first, so such a seat cannot even be deselected). */
  function SelectionAfterClick(venue: Option<Venue>, prev: seq<string>, seatId: string): (next: seq<string>)
    requires NoDup(prev)
    ensures NoDup(next)
    ensures !Eligible(venue, seatId) ==> next == prev
    ensures Eligible(venue, seatId) ==> next == ToggleSelection(prev, seatId)
    ensures |prev| <= MaxSelections ==> |next| <= MaxSelections
    ensures forall x :: x in next && x !in prev ==> Eligible(venue, x)
  {
    if Eligible(venue, seatId) then ToggleSelection(prev, seatId) else prev
  }

  /** The selection after a run of clicks. */
  function SelectionAfterClicks(venue: Option<Venue>, prev: seq<string>, clicks: seq<string>): seq<string>
    requires NoDup(prev)
    decreases |clicks|
  {
    if clicks == [] then prev
    else SelectionAfterClicks(venue, SelectionAfterClick(venue, prev, clicks[0]), clicks[1..])
  }

  /** Capacity: starting from at most `MaxSelections` seats, no run of clicks
      ever exceeds it, and the selection never holds an id twice. */
  lemma {:induction false} ClicksKeepCapacity(venue: Option<Venue>, prev: seq<string>, clicks: seq<string>)
    requires NoDup(prev) && |prev| <= MaxSelections
    ensures NoDup(SelectionAfterClicks(venue, prev, clicks))
    ensures |SelectionAfterClicks(venue, prev, clicks)| <= MaxSelections
    decreases |clicks|
  {
    if clicks != [] {
      ClicksKeepCapacity(venue, SelectionAfterClick(venue, prev, clicks[0]), clicks[1..]);
    }
  }

  /** Status gate: every id a run of clicks adds names an available seat of
      the venue. */
  lemma {:induction false} ClicksAddOnlyEligible(venue: Option<Venue>, prev: seq<string>, clicks: seq<string>)
    requires NoDup(prev)
    ensures forall x :: x in SelectionAfterClicks(venue, prev, clicks) && x !in prev ==> Eligible(venue, x)
    decreases |clicks|
  {
    if clicks != [] {
      ClicksAddOnlyEligible(venue, SelectionAfterClick(venue, prev, clicks[0]), clicks[1..]);
    }
  }

  // ---------------------------------------------------------------------
  // Focus and persistence

  /** The focus snapshot of a seat in its section and row. */
  function Details(seat: Seat, sectionLabel: string, rowIndex: int): (details: SeatDetails)
    ensures details.id == seat.id && details.col == seat.col
    ensures details.priceTier == seat.priceTier && details.status == seat.status
    ensures details.section == sectionLabel && details.row == rowIndex
  {
    SeatDetails(seat.id, sectionLabel, rowIndex, seat.col, seat.priceTier, seat.status)
  }

  /** The store after the persist effect: a non-empty selection is saved in
      insertion order, an empty one removes the key. */
  function PersistedItems(items: map<string, Text>, selected: seq<string>, writeOk: bool): (after: map<string, Text>)
    ensures |selected| > 0 && writeOk ==> LoadedIds(after) == selected
    ensures |selected| > 0 && !writeOk ==> after == items
    ensures |selected| == 0 ==> SelectionKey !in after && LoadedIds(after) == []
  {
    if |selected| > 0 then (if writeOk then items[SelectionKey := Encode(selected)] else items)
    else items - {SelectionKey}
  }

  /** The selection the rehydrate effect installs: the loaded list as a
      `Set` when it is non-empty, neither filtered against the venue nor
      capped; otherwise the current selection stays. */
  function Rehydrated(items: map<string, Text>, current: seq<string>): (selection: seq<string>)
    ensures NoDup(current) ==> NoDup(selection)
    ensures |LoadedIds(items)| > 0 ==> forall x :: x in selection <==> x in LoadedIds(items)
    ensures |LoadedIds(items)| > 0 && NoDup(LoadedIds(items)) ==> selection == LoadedIds(items)
    ensures |LoadedIds(items)| == 0 ==> selection == current
  {
    var saved := LoadedIds(items);
    if |saved| > 0 then FromArray(saved) else current
  }

  /** Reload restores what was persisted: after a successful persist, a
      fresh session's rehydration yields the same selection, in the same
      order; an empty selection leaves no entry behind. */
  lemma ReloadRestoresSelection(items: map<string, Text>, selected: seq<string>)
    requires NoDup(selected)
    ensures Rehydrated(PersistedItems(items, selected, true), []) == selected
    ensures |selected| == 0 ==> SelectionKey !in PersistedItems(items, selected, true)
  {
    LoadAfterSave(items, selected);
  }

  /** The persist effect leaves every other key alone. */
  lemma PersistTouchesOnlySelectionKey(items: map<string, Text>, selected: seq<string>, writeOk: bool, key: string)
    requires key != SelectionKey
    ensures key in PersistedItems(items, selected, writeOk) <==> key in items
    ensures key in items ==> PersistedItems(items, selected, writeOk)[key] == items[key]
  {
  }

  // ---------------------------------------------------------------------
  // The session

  /** The state `SeatingMap` owns: the venue (absent until loaded), the
      selection in insertion order, and the focus snapshot. */
  class SeatingMap {
    const venue: Option<Venue>
    const store: Store
    var selected: seq<string>
    var focus: Option<SeatDetails>

    ghost predicate Valid()
      reads this
    {
      NoDup(selected)
    }

    /** Mounting the session: the rehydrate effect reads the store; the
        persist effect then runs for the initial empty selection, which
        removes the key; when the loaded list is non-empty it becomes the
        selection and the persist effect runs again, saving it. */
    constructor(venue: Option<Venue>, store: Store, writeOk: bool)
      modifies store
      ensures Valid()
      ensures this.venue == venue && this.store == store && focus == None
      ensures selected == Rehydrated(old(store.items), [])
      ensures store.items == PersistedItems(old(store.items) - {SelectionKey}, selected, writeOk)
    {
      this.venue := venue;
      this.store := store;
      selected := [];
      focus := None;
      new;
      var saved := store.LoadSelectedSeats();
      store.RemoveItem(SelectionKey);
      if |saved| > 0 {
        selected := FromArray(saved);
        PersistSelection(writeOk);
      }
    }

    /** The persist effect. */
    method PersistSelection(writeOk: bool)
      modifies store
      ensures store.items == PersistedItems(old(store.items), selected, writeOk)
    {
      if |selected| > 0 {
        store.SaveSelectedSeats(selected, writeOk);
      } else {
        store.RemoveItem(SelectionKey);
      }
    }

    /** `handleSeatClick`: look the seat up; if there is no venue, no such
        seat, or the seat is not available, change nothing; otherwise toggle
        it, persist when the selection changed, and focus the seat, even
        when the add was refused for capacity. */
    method Click(seatId: string, writeOk: bool)
      requires Valid()
      modifies this, store
      ensures Valid()
      ensures selected == SelectionAfterClick(venue, old(selected), seatId)
      ensures Eligible(venue, seatId) ==> focus == Some(Details(Lookup(venue.value, seatId).value.seat,
                                                               Lookup(venue.value, seatId).value.sectionLabel,
                                                               Lookup(venue.value, seatId).value.rowIndex))
      ensures !Eligible(venue, seatId) ==> focus == old(focus)
      ensures selected != old(selected) ==> store.items == PersistedItems(old(store.items), selected, writeOk)
      ensures selected == old(selected) ==> store.items == old(store.items)
    {
      if venue.None? {
        return;
      }
      var found := FindSeat(venue.value, seatId);
      if found.None? || found.value.seat.status != Available {
        return;
      }
      var next := ToggleSelection(selected, seatId);
      if next != selected {
        selected := next;
        PersistSelection(writeOk);
      }
      var entry := found.value;
      focus := Some(Details(entry.seat, entry.sectionLabel, entry.rowIndex));
    }

    /** `handleSeatFocus`: replaces the focus with the given seat's snapshot,
        whatever it was, and changes nothing else. */
    method FocusSeat(seat: Seat, sectionLabel: string, rowIndex: int)
      modifies this
      ensures focus == Some(Details(seat, sectionLabel, rowIndex))
      ensures selected == old(selected)
    {
      focus := Some(Details(seat, sectionLabel, rowIndex));
    }

    /** Routes one seat-map callback to its handler. */
    method Handle(action: Action, writeOk: bool)
      requires Valid()
      modifies this, store
      ensures Valid()
      ensures action.ClickSeat? ==> selected == SelectionAfterClick(venue, old(selected), action.seatId)
      ensures action.ClickSeat? && Eligible(venue, action.seatId) ==>
        focus == Some(Details(Lookup(venue.value, action.seatId).value.seat,
                              Lookup(venue.value, action.seatId).value.sectionLabel,
                              Lookup(venue.value, action.seatId).value.rowIndex))
      ensures action.ClickSeat? && !Eligible(venue, action.seatId) ==> focus == old(focus)
      ensures action.ClickSeat? && selected != old(selected) ==>
        store.items == PersistedItems(old(store.items), selected, writeOk)
      ensures action.ClickSeat? && selected == old(selected) ==> store.items == old(store.items)
      ensures action.FocusSeat? ==> selected == old(selected) && store.items == old(store.items)
      ensures action.FocusSeat? ==> focus == Some(Details(action.seat, action.sectionLabel, action.rowIndex))
    {
      match action
      case ClickSeat(seatId) => Click(seatId, writeOk);
      case FocusSeat(seat, sectionLabel, rowIndex) => FocusSeat(seat, sectionLabel, rowIndex);
    }
  }
}
