/** The selection summary: the selected seats in venue order, each priced by
    its tier, and their subtotal. */
module SelectionSummary {
  import opened Types
  import opened SeatMap
  import opened PriceTiers

  /** The capacity the summary displays ("0/8", "n of 8"). */
  const DisplayedCapacity := 8

  /** The entries whose seat id is in `selected`, in the entries' own order. */
  function SelectedOf(entries: seq<SeatEntry>, selected: seq<string>): (data: seq<SeatEntry>)
    ensures |data| <= |entries|
    ensures forall k :: 0 <= k < |data| ==> data[k].seat.id in selected
  {
    if entries == [] then []
    else
      var last := entries[|entries| - 1];
      SelectedOf(entries[..|entries| - 1], selected) + (if last.seat.id in selected then [last] else [])
  }

  /** Exactly the entries with a selected id appear, each with its context. */
  lemma {:induction false} SelectedOfMembers(entries: seq<SeatEntry>, selected: seq<string>)
    ensures forall e :: e in SelectedOf(entries, selected) <==> e in entries && e.seat.id in selected
  {
    if entries != [] {
      SelectedOfMembers(entries[..|entries| - 1], selected);
      assert entries == entries[..|entries| - 1] + [entries[|entries| - 1]];
    }
  }

  lemma SelectedOfSnoc(entries: seq<SeatEntry>, e: SeatEntry, selected: seq<string>)
    ensures SelectedOf(entries + [e], selected) == SelectedOf(entries, selected) + (if e.seat.id in selected then [e] else [])
  {
    assert (entries + [e])[..|entries|] == entries;
  }

  /** Filtering distributes over concatenation, so the result keeps the
      venue's traversal order. */
  lemma {:induction false} SelectedOfAppend(a: seq<SeatEntry>, b: seq<SeatEntry>, selected: seq<string>)
    ensures SelectedOf(a + b, selected) == SelectedOf(a, selected) + SelectedOf(b, selected)
  {
    if b != [] {
      var ab := a + b;
      assert ab[..|ab| - 1] == a + b[..|b| - 1];
      SelectedOfAppend(a, b[..|b| - 1], selected);
    } else {
      assert a + b == a;
    }
  }

  /** The order in which seats were selected does not matter: only which
      ids are selected does. */
  lemma {:induction false} SelectedOfIgnoresSelectionOrder(entries: seq<SeatEntry>, s1: seq<string>, s2: seq<string>)
    requires forall x :: x in s1 <==> x in s2
    ensures SelectedOf(entries, s1) == SelectedOf(entries, s2)
  {
    if entries != [] {
      SelectedOfIgnoresSelectionOrder(entries[..|entries| - 1], s1, s2);
    }
  }

  /** The innermost `row.seats.forEach` of `selectedSeatsData`: pushes each
      selected seat of the row, with its context, onto `data`. */
  method PushSelectedOfRow(data: seq<SeatEntry>, sectionLabel: string, row: Row, selected: seq<string>)
    returns (pushed: seq<SeatEntry>)
    ensures pushed == data + SelectedOf(FlattenSeats(sectionLabel, row.index, row.seats), selected)
  {
    pushed := data;
    assert row.seats[..0] == [];
    var k := 0;
    while k < |row.seats|
      invariant 0 <= k <= |row.seats|
      invariant pushed == data + SelectedOf(FlattenSeats(sectionLabel, row.index, row.seats[..k]), selected)
    {
      var entry := SeatEntry(row.seats[k], sectionLabel, row.index);
      ghost var seen := FlattenSeats(sectionLabel, row.index, row.seats[..k]);
      assert FlattenSeats(sectionLabel, row.index, row.seats[..k + 1]) == seen + [entry];
      SelectedOfSnoc(seen, entry, selected);
      if row.seats[k].id in selected {
        pushed := pushed + [entry];
      }
      k := k + 1;
    }
    assert row.seats[..k] == row.seats;
  }

  /** Pushing a row's selected seats onto the data gathered from the rows
      before it gives the data of the rows up to and including it. */
  lemma SelectedOfNextRow(before: seq<SeatEntry>, data: seq<SeatEntry>, pushed: seq<SeatEntry>,
                          sectionLabel: string, rows: seq<Row>, j: nat, selected: seq<string>)
    requires j < |rows|
    requires data == before + SelectedOf(FlattenRows(sectionLabel, rows[..j]), selected)
    requires pushed == data + SelectedOf(FlattenSeats(sectionLabel, rows[j].index, rows[j].seats), selected)
    ensures pushed == before + SelectedOf(FlattenRows(sectionLabel, rows[..j + 1]), selected)
  {
    FlattenRowsNext(sectionLabel, rows, j);
    SelectedOfAppend(FlattenRows(sectionLabel, rows[..j]), FlattenSeats(sectionLabel, rows[j].index, rows[j].seats), selected);
  }

  /** Pushing a section's selected seats onto the data gathered from the
      sections before it gives the data of the sections up to and including it. */
  lemma SelectedOfNextSection(data: seq<SeatEntry>, sections: seq<Section>, i: nat, selected: seq<string>)
    requires i < |sections|
    requires data == SelectedOf(Flatten(sections[..i]), selected)
                     + SelectedOf(FlattenRows(sections[i].sectionLabel, sections[i].rows), selected)
    ensures data == SelectedOf(Flatten(sections[..i + 1]), selected)
  {
    FlattenNext(sections, i);
    SelectedOfAppend(Flatten(sections[..i]), FlattenRows(sections[i].sectionLabel, sections[i].rows), selected);
  }

  /** `selectedSeatsData`: nested loops over sections, rows and seats that
      push each selected seat with its section's label and its row's index. */
  method SelectedSeatsData(venue: Venue, selected: seq<string>) returns (data: seq<SeatEntry>)
    ensures data == SelectedOf(Flatten(venue.sections), selected)
  {
    var sections := venue.sections;
    data := [];
    var i := 0;
    while i < |sections|
      invariant 0 <= i <= |sections|
      invariant data == SelectedOf(Flatten(sections[..i]), selected)
    {
      var section := sections[i];
      ghost var before := data;
      assert section.rows[..0] == [];
      var j := 0;
      while j < |section.rows|
        invariant 0 <= j <= |section.rows|
        invariant data == before + SelectedOf(FlattenRows(section.sectionLabel, section.rows[..j]), selected)
      {
        var pushed := PushSelectedOfRow(data, section.sectionLabel, section.rows[j], selected);
        SelectedOfNextRow(before, data, pushed, section.sectionLabel, section.rows, j, selected);
        data := pushed;
        j := j + 1;
      }
      assert section.rows[..j] == section.rows;
      SelectedOfNextSection(data, sections, i, selected);
      i := i + 1;
    }
    assert sections[..i] == sections;
  }

  /** The `reduce` over the selected seats: the sum of their tier prices,
      added left to right from 0. */
  function Subtotal(data: seq<SeatEntry>): (total: int)
    ensures 0 <= total <= MaxPrice * |data|
    ensures data == [] ==> total == 0
  {
    if data == [] then 0
    else Subtotal(data[..|data| - 1]) + PriceForTier(data[|data| - 1].seat.priceTier)
  }

  /** The subtotal of two runs of seats is the sum of their subtotals. */
  lemma {:induction false} SubtotalAppend(a: seq<SeatEntry>, b: seq<SeatEntry>)
    ensures Subtotal(a + b) == Subtotal(a) + Subtotal(b)
  {
    if b != [] {
      var ab := a + b;
      assert ab[..|ab| - 1] == a + b[..|b| - 1];
      SubtotalAppend(a, b[..|b| - 1]);
    } else {
      assert a + b == a;
    }
  }

  /** One displayed line: a seat with its context and price. */
  datatype LineItem = LineItem(seatId: string, sectionLabel: string, rowIndex: int, price: int)

  /** What the summary shows: the empty-selection message, or the count of
      selected ids, one line per selected venue seat, and the subtotal. */
  datatype SummaryView =
    | NoSeatsSelected(capacity: nat)
    | Itemized(count: nat, capacity: nat, items: seq<LineItem>, subtotal: int)

  function LineItemOf(e: SeatEntry): LineItem {
    LineItem(e.seat.id, e.sectionLabel, e.rowIndex, PriceForTier(e.seat.priceTier))
  }

  /** The summary of a selection. The displayed count is the size of the
      selection, even when some ids name no seat of the venue. */
  function Summary(venue: Venue, selected: seq<string>): (view: SummaryView)
    ensures view.NoSeatsSelected? <==> |selected| == 0
    ensures view.NoSeatsSelected? ==> view.capacity == DisplayedCapacity
    ensures view.Itemized? ==> view.count == |selected| && view.capacity == DisplayedCapacity
    ensures view.Itemized? ==> 0 <= view.subtotal <= MaxPrice * |view.items|
    ensures view.Itemized? ==> forall i :: 0 <= i < |view.items| ==> view.items[i].seatId in selected
  {
    var data := SelectedOf(Flatten(venue.sections), selected);
    SelectedOfMembers(Flatten(venue.sections), selected);
    var subtotal := Subtotal(data);
    if |selected| == 0 then NoSeatsSelected(DisplayedCapacity)
    else
      var items := seq(|data|, i requires 0 <= i < |data| => LineItemOf(data[i]));
      assert forall i :: 0 <= i < |data| ==> data[i] in data;
      Itemized(|selected|, DisplayedCapacity, items, subtotal)
  }

  /** The line items are the priced selected entries, and the subtotal is
      the sum of the displayed prices. */
  lemma SummaryItems(venue: Venue, selected: seq<string>)
    requires |selected| > 0
    ensures var data := SelectedOf(Flatten(venue.sections), selected);
            var view := Summary(venue, selected);
            |view.items| == |data|
            && (forall i :: 0 <= i < |data| ==> view.items[i] == LineItemOf(data[i]))
            && view.subtotal == Subtotal(data)
  {
  }

  /** An empty selection lists nothing and costs nothing. */
  lemma {:induction false} EmptySelectionSummary(venue: Venue)
    ensures Summary(venue, []) == NoSeatsSelected(DisplayedCapacity)
    ensures SelectedOf(Flatten(venue.sections), []) == []
    ensures Subtotal(SelectedOf(Flatten(venue.sections), [])) == 0
  {
    SelectedOfNothing(Flatten(venue.sections));
  }

  lemma {:induction false} SelectedOfNothing(entries: seq<SeatEntry>)
    ensures SelectedOf(entries, []) == []
  {
    if entries != [] {
      SelectedOfNothing(entries[..|entries| - 1]);
    }
  }

  /** An id that names no seat of the venue produces no line and no price,
      though it is still counted. */
  lemma UnknownIdNotListed(venue: Venue, selected: seq<string>, id: string)
    requires id in selected
    requires forall k :: 0 <= k < |Flatten(venue.sections)| ==> Flatten(venue.sections)[k].seat.id != id
    ensures Summary(venue, selected).count == |selected|
    ensures forall i :: 0 <= i < |Summary(venue, selected).items| ==> Summary(venue, selected).items[i].seatId != id
  {
    var entries := Flatten(venue.sections);
    var data := SelectedOf(entries, selected);
    SelectedOfMembers(entries, selected);
    forall i | 0 <= i < |Summary(venue, selected).items|
      ensures Summary(venue, selected).items[i].seatId != id
    {
      assert data[i] in entries;
    }
  }
}
