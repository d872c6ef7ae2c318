/** The seat map: the flattened list of all seats with their section and
    row context, and the routing of mouse and keyboard events to the
    click and focus callbacks. */
module SeatMap {
  import opened Types
  import SeatComponent

  /** The entries of one row, in seat order. */
  function FlattenSeats(sectionLabel: string, index: int, seats: seq<Seat>): seq<SeatEntry> {
    seq(|seats|, j requires 0 <= j < |seats| => SeatEntry(seats[j], sectionLabel, index))
  }

  /** The entries of a section's rows, in row order then seat order. */
  function FlattenRows(sectionLabel: string, rows: seq<Row>): (entries: seq<SeatEntry>)
    ensures |entries| == RowsSeatCount(rows)
  {
    if rows == [] then []
    else
      var last := rows[|rows| - 1];
      FlattenRows(sectionLabel, rows[..|rows| - 1]) + FlattenSeats(sectionLabel, last.index, last.seats)
  }

  /** The entries of all sections: section order, then row order, then seat
      order, each seat paired with its section's label and its row's index.
      There is exactly one entry per seat. */
  function Flatten(sections: seq<Section>): (entries: seq<SeatEntry>)
    ensures |entries| == SeatCount(sections)
  {
    if sections == [] then []
    else
      var last := sections[|sections| - 1];
      Flatten(sections[..|sections| - 1]) + FlattenRows(last.sectionLabel, last.rows)
  }

  /** Total number of seats in a list of rows. */
  function RowsSeatCount(rows: seq<Row>): nat {
    if rows == [] then 0 else RowsSeatCount(rows[..|rows| - 1]) + |rows[|rows| - 1].seats|
  }

  /** Total number of seats in a list of sections. */
  function SeatCount(sections: seq<Section>): nat {
    if sections == [] then 0
    else SeatCount(sections[..|sections| - 1]) + RowsSeatCount(sections[|sections| - 1].rows)
  }

  /** Where seat `c` of row `r` of section `s` lands in the flattened list:
      the number of seats before it in traversal order. */
  function Position(sections: seq<Section>, s: nat, r: nat, c: nat): nat
    requires s < |sections| && r < |sections[s].rows|
  {
    SeatCount(sections[..s]) + RowsSeatCount(sections[s].rows[..r]) + c
  }

  /** `allSeats`: pushes one entry per seat inside three nested loops. */
  method AllSeats(venue: Venue) returns (entries: seq<SeatEntry>)
    ensures entries == Flatten(venue.sections)
  {
    var sections := venue.sections;
    entries := [];
    var i := 0;
    while i < |sections|
      invariant 0 <= i <= |sections|
      invariant entries == Flatten(sections[..i])
    {
      var section := sections[i];
      ghost var beforeSection := entries;
      var j := 0;
      while j < |section.rows|
        invariant 0 <= j <= |section.rows|
        invariant entries == beforeSection + FlattenRows(section.sectionLabel, section.rows[..j])
      {
        var row := section.rows[j];
        ghost var beforeRow := entries;
        var k := 0;
        while k < |row.seats|
          invariant 0 <= k <= |row.seats|
          invariant entries == beforeRow + FlattenSeats(section.sectionLabel, row.index, row.seats[..k])
        {
          FlattenSeatsNext(section.sectionLabel, row.index, row.seats, k);
          entries := entries + [SeatEntry(row.seats[k], section.sectionLabel, row.index)];
          k := k + 1;
        }
        assert row.seats[..k] == row.seats;
        FlattenRowsNext(section.sectionLabel, section.rows, j);
        j := j + 1;
      }
      assert section.rows[..j] == section.rows;
      FlattenNext(sections, i);
      i := i + 1;
    }
    assert sections[..i] == sections;
  }

  /** One more seat of a row's seats adds that seat's entry at the end. */
  lemma FlattenSeatsNext(sectionLabel: string, index: int, seats: seq<Seat>, k: nat)
    requires k < |seats|
    ensures FlattenSeats(sectionLabel, index, seats[..k + 1])
         == FlattenSeats(sectionLabel, index, seats[..k]) + [SeatEntry(seats[k], sectionLabel, index)]
  {
  }

  /** Appending a seat appends its entry. */
  lemma FlattenSeatsSnoc(sectionLabel: string, index: int, seats: seq<Seat>, seat: Seat)
    ensures FlattenSeats(sectionLabel, index, seats + [seat])
         == FlattenSeats(sectionLabel, index, seats) + [SeatEntry(seat, sectionLabel, index)]
  {
  }

  /** One more row of a section's rows adds that row's seats at the end. */
  lemma FlattenRowsNext(sectionLabel: string, rows: seq<Row>, j: nat)
    requires j < |rows|
    ensures FlattenRows(sectionLabel, rows[..j + 1])
         == FlattenRows(sectionLabel, rows[..j]) + FlattenSeats(sectionLabel, rows[j].index, rows[j].seats)
  {
    assert rows[..j + 1][..j] == rows[..j];
  }

  /** One more section of a venue's sections adds that section's seats at the end. */
  lemma FlattenNext(sections: seq<Section>, i: nat)
    requires i < |sections|
    ensures Flatten(sections[..i + 1])
         == Flatten(sections[..i]) + FlattenRows(sections[i].sectionLabel, sections[i].rows)
  {
    assert sections[..i + 1][..i] == sections[..i];
  }

  /** Appending a row appends its seats' entries. */
  lemma FlattenRowsSnoc(sectionLabel: string, rows: seq<Row>, row: Row)
    ensures FlattenRows(sectionLabel, rows + [row]) == FlattenRows(sectionLabel, rows) + FlattenSeats(sectionLabel, row.index, row.seats)
  {
    assert (rows + [row])[..|rows|] == rows;
  }

  lemma {:induction false} FlattenRowsAppend(sectionLabel: string, a: seq<Row>, b: seq<Row>)
    ensures FlattenRows(sectionLabel, a + b) == FlattenRows(sectionLabel, a) + FlattenRows(sectionLabel, b)
  {
    if b != [] {
      var ab := a + b;
      assert ab[..|ab| - 1] == a + b[..|b| - 1];
      FlattenRowsAppend(sectionLabel, a, b[..|b| - 1]);
    } else {
      assert a + b == a;
    }
  }

  /** Flattening distributes over concatenation of section lists. */
  lemma {:induction false} FlattenAppend(a: seq<Section>, b: seq<Section>)
    ensures Flatten(a + b) == Flatten(a) + Flatten(b)
  {
    if b != [] {
      var ab := a + b;
      assert ab[..|ab| - 1] == a + b[..|b| - 1];
      FlattenAppend(a, b[..|b| - 1]);
    } else {
      assert a + b == a;
    }
  }

  lemma {:induction false} FlattenRowsAt(sectionLabel: string, rows: seq<Row>, r: nat, c: nat)
    requires r < |rows| && c < |rows[r].seats|
    ensures RowsSeatCount(rows[..r]) + c < |FlattenRows(sectionLabel, rows)|
    ensures FlattenRows(sectionLabel, rows)[RowsSeatCount(rows[..r]) + c] == SeatEntry(rows[r].seats[c], sectionLabel, rows[r].index)
  {
    var init := rows[..|rows| - 1];
    if r == |rows| - 1 {
      assert rows[..r] == init;
    } else {
      assert init[..r] == rows[..r];
      FlattenRowsAt(sectionLabel, init, r, c);
    }
  }

  /** The seat at (section s, row r, column c) appears at its position with
      its own section's label and its own row's stored index. */
  lemma {:induction false} FlattenAt(sections: seq<Section>, s: nat, r: nat, c: nat)
    requires s < |sections| && r < |sections[s].rows| && c < |sections[s].rows[r].seats|
    ensures Position(sections, s, r, c) < |Flatten(sections)|
    ensures Flatten(sections)[Position(sections, s, r, c)]
         == SeatEntry(sections[s].rows[r].seats[c], sections[s].sectionLabel, sections[s].rows[r].index)
  {
    var init := sections[..|sections| - 1];
    if s == |sections| - 1 {
      assert sections[..s] == init;
      FlattenRowsAt(sections[s].sectionLabel, sections[s].rows, r, c);
    } else {
      assert init[..s] == sections[..s];
      FlattenAt(init, s, r, c);
    }
  }

  /** Where seat `c` of row `r` lands among the entries of `rows`. */
  function RowsPosition(rows: seq<Row>, r: nat, c: nat): nat
    requires r < |rows|
  {
    RowsSeatCount(rows[..r]) + c
  }

  lemma {:induction false} FlattenRowsCovers(sectionLabel: string, rows: seq<Row>, k: nat)
    requires k < |FlattenRows(sectionLabel, rows)|
    ensures exists r: nat, c: nat :: r < |rows| && c < |rows[r].seats| && k == RowsPosition(rows, r, c)
  {
    var init := rows[..|rows| - 1];
    if k < |FlattenRows(sectionLabel, init)| {
      FlattenRowsCovers(sectionLabel, init, k);
      var r: nat, c: nat :| r < |init| && c < |init[r].seats| && k == RowsPosition(init, r, c);
      assert init[..r] == rows[..r];
      assert k == RowsPosition(rows, r, c);
    } else {
      var r := |rows| - 1;
      assert rows[..r] == init;
      var c := k - RowsSeatCount(rows[..r]);
      assert k == RowsPosition(rows, r, c);
    }
  }

  /** Every entry of the flattened list comes from some seat of the venue. */
  lemma {:induction false} FlattenCovers(sections: seq<Section>, k: nat)
    requires k < |Flatten(sections)|
    ensures exists s: nat, r: nat, c: nat ::
      s < |sections| && r < |sections[s].rows| && c < |sections[s].rows[r].seats| && k == Position(sections, s, r, c)
  {
    var init := sections[..|sections| - 1];
    if k < |Flatten(init)| {
      FlattenCovers(init, k);
      var s: nat, r: nat, c: nat :| s < |init| && r < |init[s].rows| && c < |init[s].rows[r].seats| && k == Position(init, s, r, c);
      assert init[..s] == sections[..s];
      assert k == Position(sections, s, r, c);
    } else {
      var s := |sections| - 1;
      assert sections[..s] == init;
      var last := sections[s];
      FlattenRowsCovers(last.sectionLabel, last.rows, k - SeatCount(init));
      var r: nat, c: nat :| r < |last.rows| && c < |last.rows[r].seats| && k - SeatCount(init) == RowsPosition(last.rows, r, c);
      assert k == Position(sections, s, r, c);
    }
  }

  lemma {:induction false} RowsSeatCountStep(rows: seq<Row>, r: nat)
    requires r < |rows|
    ensures RowsSeatCount(rows[..r + 1]) == RowsSeatCount(rows[..r]) + |rows[r].seats|
  {
    assert rows[..r + 1][..r] == rows[..r];
  }

  lemma {:induction false} RowsSeatCountMonotone(rows: seq<Row>, a: nat, b: nat)
    requires a <= b <= |rows|
    ensures RowsSeatCount(rows[..a]) <= RowsSeatCount(rows[..b])
    decreases b - a
  {
    if a < b {
      RowsSeatCountStep(rows, a);
      RowsSeatCountMonotone(rows, a + 1, b);
    }
  }

  lemma {:induction false} SeatCountStep(sections: seq<Section>, s: nat)
    requires s < |sections|
    ensures SeatCount(sections[..s + 1]) == SeatCount(sections[..s]) + RowsSeatCount(sections[s].rows)
  {
    assert sections[..s + 1][..s] == sections[..s];
  }

  lemma {:induction false} SeatCountMonotone(sections: seq<Section>, a: nat, b: nat)
    requires a <= b <= |sections|
    ensures SeatCount(sections[..a]) <= SeatCount(sections[..b])
    decreases b - a
  {
    if a < b {
      SeatCountStep(sections, a);
      SeatCountMonotone(sections, a + 1, b);
    }
  }

  /** Traversal order: a seat earlier in (section, row, column) order has a
      strictly smaller position in the flattened list. */
  lemma PositionIncreasing(sections: seq<Section>, s1: nat, r1: nat, c1: nat, s2: nat, r2: nat, c2: nat)
    requires s1 < |sections| && r1 < |sections[s1].rows| && c1 < |sections[s1].rows[r1].seats|
    requires s2 < |sections| && r2 < |sections[s2].rows| && c2 < |sections[s2].rows[r2].seats|
    requires s1 < s2 || (s1 == s2 && r1 < r2) || (s1 == s2 && r1 == r2 && c1 < c2)
    ensures Position(sections, s1, r1, c1) < Position(sections, s2, r2, c2)
  {
    var rows1 := sections[s1].rows;
    if s1 < s2 {
      RowsSeatCountStep(rows1, r1);
      RowsSeatCountMonotone(rows1, r1 + 1, |rows1|);
      assert rows1[..|rows1|] == rows1;
      SeatCountStep(sections, s1);
      SeatCountMonotone(sections, s1 + 1, s2);
    } else if r1 < r2 {
      RowsSeatCountStep(rows1, r1);
      RowsSeatCountMonotone(rows1, r1 + 1, r2);
    }
  }

  /** Seat ids are unique across a flattened list. */
  predicate UniqueIds(entries: seq<SeatEntry>) {
    forall i, j :: 0 <= i < j < |entries| ==> entries[i].seat.id != entries[j].seat.id
  }

  /** What a seat's callbacks ask the engine to do. */
  datatype Action = ClickSeat(seatId: string) | FocusSeat(seat: Seat, sectionLabel: string, rowIndex: int)

  predicate IsActivationKey(key: string) {
    key == "Enter" || key == " "
  }

  /** `handleSeatKeyDown`: Enter or Space clicks the seat, any other key does nothing. */
  function HandleSeatKeyDown(key: string, seatId: string): (actions: seq<Action>)
    ensures |actions| <= 1
    ensures actions != [] <==> key == "Enter" || key == " "
    ensures forall a :: a in actions ==> a == ClickSeat(seatId)
  {
    if IsActivationKey(key) then [ClickSeat(seatId)] else []
  }

  /** The per-seat `onKeyDown` wrapper: the key handler first, then a focus
      for Tab, Enter or Space. */
  function OnSeatKeyDown(entry: SeatEntry, key: string): (actions: seq<Action>)
    ensures IsActivationKey(key) ==>
      actions == [ClickSeat(entry.seat.id), FocusSeat(entry.seat, entry.sectionLabel, entry.rowIndex)]
    ensures key == "Tab" ==> actions == [FocusSeat(entry.seat, entry.sectionLabel, entry.rowIndex)]
    ensures !IsActivationKey(key) && key != "Tab" ==> actions == []
    ensures forall a :: a in actions && a.ClickSeat? ==> a.seatId == entry.seat.id
  {
    HandleSeatKeyDown(key, entry.seat.id)
    + (if key == "Tab" || key == "Enter" || key == " "
       then [FocusSeat(entry.seat, entry.sectionLabel, entry.rowIndex)] else [])
  }

  /** A mouse click on a rendered seat: the `onClick` wired to the seat's
      id, which the seat only attaches when it is clickable. */
  function MouseActions(entry: SeatEntry, isSelected: bool): (actions: seq<Action>)
    ensures entry.seat.status == Available ==> actions == [ClickSeat(entry.seat.id)]
    ensures entry.seat.status != Available ==> actions == []
  {
    if SeatComponent.RenderSeat(entry.seat, isSelected).handlersAttached then [ClickSeat(entry.seat.id)] else []
  }

  /** A key press on a rendered seat: the `onKeyDown` wrapper, which the
      seat only attaches when it is clickable. */
  function KeyActions(entry: SeatEntry, isSelected: bool, key: string): (actions: seq<Action>)
    ensures entry.seat.status != Available ==> actions == []
    ensures entry.seat.status == Available ==> actions == OnSeatKeyDown(entry, key)
    ensures !IsActivationKey(key) && key != "Tab" ==> actions == []
    ensures forall a :: a in actions && a.ClickSeat? ==> a.seatId == entry.seat.id && IsActivationKey(key)
    ensures entry.seat.status == Available && IsActivationKey(key) ==>
      actions == [ClickSeat(entry.seat.id), FocusSeat(entry.seat, entry.sectionLabel, entry.rowIndex)]
    ensures entry.seat.status == Available && key == "Tab" ==>
      actions == [FocusSeat(entry.seat, entry.sectionLabel, entry.rowIndex)]
  {
    if SeatComponent.RenderSeat(entry.seat, isSelected).handlersAttached then OnSeatKeyDown(entry, key) else []
  }

  /** The rendered map: one seat view per entry, selected exactly when the
      seat's id is in the selection, interactive exactly when available. */
  function RenderMap(venue: Venue, selected: seq<string>): (views: seq<SeatComponent.SeatView>)
    ensures |views| == |Flatten(venue.sections)|
    ensures forall k :: 0 <= k < |views| ==>
      (views[k].fill == SeatComponent.SelectedFill <==> Flatten(venue.sections)[k].seat.id in selected)
    ensures forall k :: 0 <= k < |views| ==>
      (views[k].handlersAttached <==> Flatten(venue.sections)[k].seat.status == Available)
  {
    var entries := Flatten(venue.sections);
    seq(|entries|, k requires 0 <= k < |entries| =>
      SeatComponent.RenderSeat(entries[k].seat, entries[k].seat.id in selected))
  }
}
