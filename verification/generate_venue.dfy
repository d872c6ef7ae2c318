/** The fixture generator: a venue of four sections of up to 50-seat rows,
    filled section by section and row by row until a requested number of
    seats has been produced. */
module GenerateVenue {
  import opened Types
  import opened SeatMap

  const SeatsPerRow := 50
  /** The four section ids; each is a single letter. */
  const SectionIds: seq<string> := ["A", "B", "C", "D"]
  /** The tier list, indexed by section index modulo its length. */
  const TierList: seq<int> := [1, 2, 3, 4]
  /** The status list, indexed by the seat counter modulo its length. */
  const StatusList: seq<Status> := [Available, Reserved, Sold, Held]

  /** `Math.ceil(totalSeats / (seatsPerRow * 4))` for a whole number of seats. */
  function RowsPerSection(totalSeats: nat): (rows: nat)
    ensures totalSeats <= SeatsPerRow * 4 * rows
    ensures rows > 0 ==> SeatsPerRow * 4 * (rows - 1) < totalSeats
  {
    (totalSeats + SeatsPerRow * 4 - 1) / (SeatsPerRow * 4)
  }

  /** The decimal digit `d` as a character. */
  function Digit(d: nat): char
    requires d < 10
  {
    (('0' as int) + d) as char
  }

  /** `String(n)` for a whole number: its decimal digits, most significant first. */
  function DecimalString(n: nat): (s: string)
    ensures |s| >= 1
    ensures n >= 10 ==> |s| >= 2
    ensures n < 10 ==> |s| == 1
    ensures forall i :: 0 <= i < |s| ==> '0' <= s[i] <= '9'
  {
    if n < 10 then [Digit(n)] else DecimalString(n / 10) + [Digit(n % 10)]
  }

  /** Different numbers have different decimal strings. */
  lemma {:induction false} DecimalStringInjective(a: nat, b: nat)
    requires DecimalString(a) == DecimalString(b)
    ensures a == b
  {
    var s := DecimalString(a);
    if a < 10 && b < 10 {
      assert Digit(a) == s[0] == Digit(b);
    } else if a >= 10 && b >= 10 {
      assert Digit(a % 10) == s[|s| - 1] == Digit(b % 10);
      assert DecimalString(a / 10) == s[..|s| - 1] == DecimalString(b / 10);
      DecimalStringInjective(a / 10, b / 10);
    }
  }

  /** `String(col).padStart(2, '0')`. */
  function Pad2(col: nat): (s: string)
    ensures |s| >= 2
  {
    var d := DecimalString(col);
    if |d| >= 2 then d else seq(2 - |d|, _ => '0') + d
  }

  /** Below 100 the padded string is exactly the tens digit then the units digit. */
  lemma Pad2Digits(col: nat)
    requires col < 100
    ensures Pad2(col) == [Digit(col / 10), Digit(col % 10)]
  {
    if col >= 10 {
      assert DecimalString(col) == DecimalString(col / 10) + [Digit(col % 10)];
    }
  }

  /** Different columns below 100 have different padded strings. */
  lemma Pad2Injective(a: nat, b: nat)
    requires a < 100 && b < 100
    requires Pad2(a) == Pad2(b)
    ensures a == b
  {
    Pad2Digits(a);
    Pad2Digits(b);
    assert Digit(a / 10) == Digit(b / 10);
    assert Digit(a % 10) == Digit(b % 10);
  }

  /** The seat id `${sectionId}-${rowIndex}-${pad2(col)}`. */
  function SeatId(sectionId: string, rowIndex: nat, col: nat): string {
    sectionId + "-" + DecimalString(rowIndex) + "-" + Pad2(col)
  }

  /** For single-letter section ids and columns below 100, the id determines
      section, row and column. */
  lemma SeatIdInjective(s1: string, r1: nat, c1: nat, s2: string, r2: nat, c2: nat)
    requires |s1| == 1 && |s2| == 1 && c1 < 100 && c2 < 100
    requires SeatId(s1, r1, c1) == SeatId(s2, r2, c2)
    ensures s1 == s2 && r1 == r2 && c1 == c2
  {
    var id := SeatId(s1, r1, c1);
    var d1, d2 := DecimalString(r1), DecimalString(r2);
    Pad2Digits(c1);
    Pad2Digits(c2);
    assert id == s1 + "-" + d1 + "-" + Pad2(c1);
    assert id == s2 + "-" + d2 + "-" + Pad2(c2);
    assert |d1| == |d2|;
    assert s1 == id[..1] == s2;
    assert d1 == id[2..2 + |d1|] == d2;
    assert Pad2(c1) == id[|id| - 2..] == Pad2(c2);
    DecimalStringInjective(r1, r2);
    Pad2Injective(c1, c2);
  }

  /** Multiplying by a natural number is monotone. */
  lemma {:induction false} MulMonotone(a: nat, b: nat, d: nat)
    requires b <= a
    ensures b * d <= a * d
  {
    if b < a {
      MulMonotone(a - 1, b, d);
      assert a * d == (a - 1) * d + d;
    }
  }

  /** The number of seats a full section holds. */
  function SeatsPerSection(totalSeats: nat): nat {
    SeatsPerRow * RowsPerSection(totalSeats)
  }

  /** The label of the section with id `sectionId`. */
  function SectionLabel(sectionId: string): string {
    "Section " + sectionId
  }

  /** Where the generator stands: a section index counted from 0, and a row
      index and a column counted from 1. */
  datatype Place = Place(sectionIndex: nat, rowIndex: nat, col: nat)

  /** The place after `p`: the next column of the row, else the first column
      of the next row, else the first seat of the next section. */
  function Advance(p: Place, rowsPerSection: nat): Place {
    if p.col < SeatsPerRow then Place(p.sectionIndex, p.rowIndex, p.col + 1)
    else if p.rowIndex < rowsPerSection then Place(p.sectionIndex, p.rowIndex + 1, 1)
    else Place(p.sectionIndex + 1, 1, 1)
  }

  /** The place of the seat produced while the counter is `n`: the first
      seat of the first section, then one step per seat. */
  function PlaceOf(totalSeats: nat, n: nat): Place {
    if n == 0 then Place(0, 1, 1) else Advance(PlaceOf(totalSeats, n - 1), RowsPerSection(totalSeats))
  }

  /** The counter value at a place, had the counter not stopped at the total. */
  function Ordinal(totalSeats: nat, p: Place): int {
    p.sectionIndex * SeatsPerSection(totalSeats) + (p.rowIndex - 1) * SeatsPerRow + (p.col - 1)
  }

  /** Every place the counter reaches lies in a row that exists and a
      column of a row, and gives back the counter's value. */
  lemma {:induction false} PlaceOfOrdinal(totalSeats: nat, n: nat)
    requires totalSeats > 0
    ensures 1 <= PlaceOf(totalSeats, n).rowIndex <= RowsPerSection(totalSeats)
    ensures 1 <= PlaceOf(totalSeats, n).col <= SeatsPerRow
    ensures Ordinal(totalSeats, PlaceOf(totalSeats, n)) == n
  {
    if n > 0 {
      PlaceOfOrdinal(totalSeats, n - 1);
      var p := PlaceOf(totalSeats, n - 1);
      var perSection := SeatsPerSection(totalSeats);
      if p.col == SeatsPerRow && p.rowIndex == RowsPerSection(totalSeats) {
        assert (p.sectionIndex + 1) * perSection == p.sectionIndex * perSection + perSection;
      }
    }
  }

  /** A place in range has an ordinal within its section's block of seats. */
  lemma OrdinalWithinSection(totalSeats: nat, p: Place)
    requires 1 <= p.rowIndex <= RowsPerSection(totalSeats) && 1 <= p.col <= SeatsPerRow
    ensures var start := p.sectionIndex * SeatsPerSection(totalSeats);
            start <= Ordinal(totalSeats, p) < start + SeatsPerSection(totalSeats)
  {
  }

  /** Sections further on start no earlier than the end of this one. */
  lemma LaterSectionStartsAfter(totalSeats: nat, s: nat, t: nat)
    requires s < t
    ensures s * SeatsPerSection(totalSeats) + SeatsPerSection(totalSeats) <= t * SeatsPerSection(totalSeats)
  {
    var perSection := SeatsPerSection(totalSeats);
    assert (s + 1) * perSection == s * perSection + perSection;
    MulMonotone(t, s + 1, perSection);
  }

  /** Two places in range with the same ordinal are the same place. */
  lemma OrdinalInjective(totalSeats: nat, p: Place, q: Place)
    requires 1 <= p.rowIndex <= RowsPerSection(totalSeats) && 1 <= p.col <= SeatsPerRow
    requires 1 <= q.rowIndex <= RowsPerSection(totalSeats) && 1 <= q.col <= SeatsPerRow
    requires Ordinal(totalSeats, p) == Ordinal(totalSeats, q)
    ensures p == q
  {
    OrdinalWithinSection(totalSeats, p);
    OrdinalWithinSection(totalSeats, q);
    if p.sectionIndex < q.sectionIndex {
      LaterSectionStartsAfter(totalSeats, p.sectionIndex, q.sectionIndex);
    } else if q.sectionIndex < p.sectionIndex {
      LaterSectionStartsAfter(totalSeats, q.sectionIndex, p.sectionIndex);
    }
  }

  /** Every seat below the total lies in one of the four sections, in a row
      that exists, in a column of a row; and its place gives back its counter. */
  lemma PlaceOfInRange(totalSeats: nat, n: nat)
    requires n < totalSeats
    ensures PlaceOf(totalSeats, n).sectionIndex < |SectionIds|
    ensures 1 <= PlaceOf(totalSeats, n).rowIndex <= RowsPerSection(totalSeats)
    ensures 1 <= PlaceOf(totalSeats, n).col <= SeatsPerRow
    ensures Ordinal(totalSeats, PlaceOf(totalSeats, n)) == n
  {
    PlaceOfOrdinal(totalSeats, n);
    var p := PlaceOf(totalSeats, n);
    if p.sectionIndex >= 4 {
      MulMonotone(p.sectionIndex, 4, SeatsPerSection(totalSeats));
    }
  }

  /** Conversely, the counter value of a place in range below the total is
      the counter at which the generator reaches that place. */
  lemma PlaceAt(totalSeats: nat, p: Place)
    requires 1 <= p.rowIndex <= RowsPerSection(totalSeats) && 1 <= p.col <= SeatsPerRow
    requires 0 <= Ordinal(totalSeats, p) < totalSeats
    ensures PlaceOf(totalSeats, Ordinal(totalSeats, p)) == p
  {
    var n := Ordinal(totalSeats, p);
    PlaceOfInRange(totalSeats, n);
    OrdinalInjective(totalSeats, PlaceOf(totalSeats, n), p);
  }

  /** The seat object pushed for column `col` of row `rowIndex` of section
      `sectionIndex` while the seat counter is `counter`. */
  function NewSeat(sectionIndex: nat, rowIndex: nat, col: nat, counter: nat): (seat: Seat)
    requires sectionIndex < |SectionIds|
    ensures seat.id == SeatId(SectionIds[sectionIndex], rowIndex, col) && seat.col == col
    ensures seat.x == 250 * sectionIndex + 50 + 15 * col && seat.y == 50 + 30 * rowIndex
    ensures seat.priceTier == sectionIndex + 1
    ensures seat.status == StatusList[counter % 4]
    ensures seat.status == Available <==> counter % 4 == 0
  {
    var sectionX := sectionIndex * 250;
    var rowY := 50 + rowIndex * 30;
    Seat(SeatId(SectionIds[sectionIndex], rowIndex, col), col, sectionX + 50 + col * 15, rowY,
         TierList[sectionIndex % |TierList|], StatusList[counter % |StatusList|])
  }

  /** The `n`-th seat produced, with its section's label and its row's index. */
  function GeneratedSeat(totalSeats: nat, n: nat): SeatEntry
    requires n < totalSeats
  {
    var place := PlaceOf(totalSeats, n);
    PlaceOfInRange(totalSeats, n);
    SeatEntry(NewSeat(place.sectionIndex, place.rowIndex, place.col, n),
              SectionLabel(SectionIds[place.sectionIndex]), place.rowIndex)
  }

  /** The seat produced at section `sectionIndex`, row `rowIndex`, column
      `col`, in closed form: its counter value `n` is that place's ordinal;
      its id and coordinates come from section, row and column; its tier is
      one more than the section index; its status is the `n mod 4`-th. */
  lemma GeneratedSeatAt(totalSeats: nat, sectionIndex: nat, rowIndex: nat, col: nat)
    requires sectionIndex < |SectionIds| && 1 <= rowIndex <= RowsPerSection(totalSeats) && 1 <= col <= SeatsPerRow
    requires Ordinal(totalSeats, Place(sectionIndex, rowIndex, col)) < totalSeats
    ensures var n := Ordinal(totalSeats, Place(sectionIndex, rowIndex, col));
            var e := GeneratedSeat(totalSeats, n);
            e.seat.id == SeatId(SectionIds[sectionIndex], rowIndex, col) && e.seat.col == col &&
            e.seat.x == 250 * sectionIndex + 50 + 15 * col && e.seat.y == 50 + 30 * rowIndex &&
            e.seat.priceTier == sectionIndex + 1 && e.seat.status == StatusList[n % 4] &&
            e.sectionLabel == SectionLabel(SectionIds[sectionIndex]) && e.rowIndex == rowIndex
  {
    PlaceAt(totalSeats, Place(sectionIndex, rowIndex, col));
    assert TierList[sectionIndex % |TierList|] == sectionIndex + 1;
  }

  /** The first `count` seats produced for a request of `totalSeats`. */
  function Generated(totalSeats: nat, count: nat): seq<SeatEntry>
    requires count <= totalSeats
  {
    seq(count, n requires 0 <= n < count => GeneratedSeat(totalSeats, n))
  }

  /** One more seat extends the prefix by that seat. */
  lemma GeneratedNext(totalSeats: nat, count: nat)
    requires count < totalSeats
    ensures Generated(totalSeats, count + 1) == Generated(totalSeats, count) + [GeneratedSeat(totalSeats, count)]
  {
    var longer, shorter := Generated(totalSeats, count + 1), Generated(totalSeats, count);
    forall n | 0 <= n < count
      ensures longer[n] == shorter[n]
    {
    }
  }

  /** Pushing the seat for the counter's place extends the produced prefix
      by the next seat. */
  lemma PushGeneratedSeat(totalSeats: nat, sectionIndex: nat, rowIndex: nat, col: nat, n: nat,
                          start: seq<SeatEntry>, seats: seq<Seat>)
    requires n < totalSeats && sectionIndex < |SectionIds|
    requires PlaceOf(totalSeats, n) == Place(sectionIndex, rowIndex, col)
    requires start + FlattenSeats(SectionLabel(SectionIds[sectionIndex]), rowIndex, seats) == Generated(totalSeats, n)
    ensures start + FlattenSeats(SectionLabel(SectionIds[sectionIndex]), rowIndex, seats + [NewSeat(sectionIndex, rowIndex, col, n)])
         == Generated(totalSeats, n + 1)
  {
    var sectionLabel := SectionLabel(SectionIds[sectionIndex]);
    var seat := NewSeat(sectionIndex, rowIndex, col, n);
    assert GeneratedSeat(totalSeats, n) == SeatEntry(seat, sectionLabel, rowIndex);
    FlattenSeatsSnoc(sectionLabel, rowIndex, seats, seat);
    GeneratedNext(totalSeats, n);
  }

  /** The place after the last column of a row. */
  function AfterRow(sectionIndex: nat, rowIndex: nat, rowsPerSection: nat): Place {
    Advance(Place(sectionIndex, rowIndex, SeatsPerRow), rowsPerSection)
  }

  /** One `for (col ...)` loop: the seats of row `rowIndex` of section
      `sectionIndex`, from the counter's value `counter` on, stopping after 50
      seats or when the counter reaches the total. Returns the seats and the
      counter's new value. */
  method GenerateRow(totalSeats: nat, rowsPerSection: nat, sectionIndex: nat, rowIndex: nat, counter: nat)
    returns (seats: seq<Seat>, next: nat)
    requires rowsPerSection == RowsPerSection(totalSeats) && sectionIndex < |SectionIds|
    requires counter <= totalSeats
    requires counter < totalSeats ==> PlaceOf(totalSeats, counter) == Place(sectionIndex, rowIndex, 1)
    ensures counter <= next <= totalSeats && |seats| == next - counter && |seats| <= SeatsPerRow
    ensures |seats| > 0 <==> counter < totalSeats
    ensures next < totalSeats ==> PlaceOf(totalSeats, next) == AfterRow(sectionIndex, rowIndex, rowsPerSection)
    ensures Generated(totalSeats, counter) + FlattenSeats(SectionLabel(SectionIds[sectionIndex]), rowIndex, seats)
         == Generated(totalSeats, next)
    ensures forall c :: 0 <= c < |seats| ==> seats[c].col == c + 1
  {
    ghost var sectionLabel := SectionLabel(SectionIds[sectionIndex]);
    seats := [];
    next := counter;
    var col := 1;
    while col <= SeatsPerRow && next < totalSeats
      invariant 1 <= col <= SeatsPerRow + 1
      invariant next == counter + col - 1 <= totalSeats && |seats| == col - 1
      invariant next < totalSeats ==>
        PlaceOf(totalSeats, next) == if col <= SeatsPerRow then Place(sectionIndex, rowIndex, col)
                                     else AfterRow(sectionIndex, rowIndex, rowsPerSection)
      invariant forall c :: 0 <= c < |seats| ==> seats[c].col == c + 1
      invariant Generated(totalSeats, counter) + FlattenSeats(sectionLabel, rowIndex, seats) == Generated(totalSeats, next)
    {
      var seat := NewSeat(sectionIndex, rowIndex, col, next);
      PushGeneratedSeat(totalSeats, sectionIndex, rowIndex, col, next, Generated(totalSeats, counter), seats);
      seats := seats + [seat];
      next := next + 1;
      col := col + 1;
    }
  }

  /** The rows of a generated section: numbered 1, 2, ... in order, none
      empty, each of at most 50 seats with columns 1, 2, ... in order. */
  predicate GeneratedRows(rows: seq<Row>) {
    forall j :: 0 <= j < |rows| ==>
      rows[j].index == j + 1 && 0 < |rows[j].seats| <= SeatsPerRow &&
      forall c :: 0 <= c < |rows[j].seats| ==> rows[j].seats[c].col == c + 1
  }

  /** Appending the next row keeps the shape. */
  lemma KeepGeneratedRow(rows: seq<Row>, row: Row)
    requires GeneratedRows(rows)
    requires row.index == |rows| + 1 && 0 < |row.seats| <= SeatsPerRow
    requires forall c :: 0 <= c < |row.seats| ==> row.seats[c].col == c + 1
    ensures GeneratedRows(rows + [row])
  {
    var extended := rows + [row];
    forall j | 0 <= j < |extended|
      ensures extended[j].index == j + 1 && 0 < |extended[j].seats| <= SeatsPerRow
      ensures forall c :: 0 <= c < |extended[j].seats| ==> extended[j].seats[c].col == c + 1
    {
      if j < |rows| {
        assert extended[j] == rows[j];
      }
    }
  }

  /** Keeping a row exactly when it has seats extends the produced prefix
      by that row's seats. */
  lemma ExtendGeneratedRows(start: seq<SeatEntry>, upToRow: seq<SeatEntry>, throughRow: seq<SeatEntry>,
                            sectionLabel: string, rows: seq<Row>, rowIndex: int, seats: seq<Seat>, rows': seq<Row>)
    requires start + FlattenRows(sectionLabel, rows) == upToRow
    requires upToRow + FlattenSeats(sectionLabel, rowIndex, seats) == throughRow
    requires rows' == if |seats| > 0 then rows + [Row(rowIndex, seats)] else rows
    ensures start + FlattenRows(sectionLabel, rows') == throughRow
  {
    if |seats| > 0 {
      FlattenRowsSnoc(sectionLabel, rows, Row(rowIndex, seats));
    } else {
      assert FlattenSeats(sectionLabel, rowIndex, seats) == [];
    }
  }

  /** One `for (rowIndex ...)` loop: the non-empty rows of section
      `sectionIndex`, with the seat counter running on from `counter`. */
  method GenerateSection(totalSeats: nat, rowsPerSection: nat, sectionIndex: nat, counter: nat)
    returns (rows: seq<Row>, next: nat)
    requires rowsPerSection == RowsPerSection(totalSeats) && sectionIndex < |SectionIds|
    requires counter <= totalSeats
    requires counter < totalSeats ==> PlaceOf(totalSeats, counter) == Place(sectionIndex, 1, 1)
    ensures counter <= next <= totalSeats
    ensures next < totalSeats ==> PlaceOf(totalSeats, next) == Place(sectionIndex + 1, 1, 1)
    ensures Generated(totalSeats, counter) + FlattenRows(SectionLabel(SectionIds[sectionIndex]), rows)
         == Generated(totalSeats, next)
    ensures |rows| <= rowsPerSection
    ensures |rows| > 0 <==> counter < totalSeats
    ensures GeneratedRows(rows)
  {
    ghost var sectionLabel := SectionLabel(SectionIds[sectionIndex]);
    rows := [];
    next := counter;
    var rowIndex := 1;
    while rowIndex <= rowsPerSection
      invariant 1 <= rowIndex <= rowsPerSection + 1
      invariant counter <= next <= totalSeats
      invariant next < totalSeats ==>
        PlaceOf(totalSeats, next) == if rowIndex <= rowsPerSection then Place(sectionIndex, rowIndex, 1)
                                     else Place(sectionIndex + 1, 1, 1)
      invariant |rows| <= rowIndex - 1
      invariant next < totalSeats ==> |rows| == rowIndex - 1
      invariant rowIndex > 1 ==> (|rows| > 0 <==> counter < totalSeats)
      invariant GeneratedRows(rows)
      invariant Generated(totalSeats, counter) + FlattenRows(sectionLabel, rows) == Generated(totalSeats, next)
    {
      var seats, after := GenerateRow(totalSeats, rowsPerSection, sectionIndex, rowIndex, next);
      ghost var previous := rows;
      if |seats| > 0 {
        KeepGeneratedRow(rows, Row(rowIndex, seats));
        rows := rows + [Row(rowIndex, seats)];
      }
      ExtendGeneratedRows(Generated(totalSeats, counter), Generated(totalSeats, next), Generated(totalSeats, after),
                          sectionLabel, previous, rowIndex, seats, rows);
      next := after;
      rowIndex := rowIndex + 1;
    }
  }

  /** Keeping a section exactly when it has rows extends the produced prefix
      by that section's seats. */
  lemma ExtendGeneratedSections(upToSection: seq<SeatEntry>, throughSection: seq<SeatEntry>,
                                sections: seq<Section>, section: Section, sections': seq<Section>)
    requires Flatten(sections) == upToSection
    requires upToSection + FlattenRows(section.sectionLabel, section.rows) == throughSection
    requires sections' == if |section.rows| > 0 then sections + [section] else sections
    ensures Flatten(sections') == throughSection
  {
    if |section.rows| > 0 {
      assert (sections + [section])[..|sections|] == sections;
    } else {
      assert FlattenRows(section.sectionLabel, section.rows) == [];
    }
  }

  /** The `i`-th generated section: id, label and transform fixed by its
      position, and rows as `GeneratedRows` describes, at most `rowsPerSection`. */
  predicate GeneratedSection(section: Section, i: nat, rowsPerSection: nat) {
    i < |SectionIds| && section.id == SectionIds[i] && section.sectionLabel == SectionLabel(SectionIds[i]) &&
    section.transform == Transform(0, 0, 1) &&
    0 < |section.rows| <= rowsPerSection && GeneratedRows(section.rows)
  }

  /** Sections as `GeneratedSection` describes, each at its own index. */
  predicate GeneratedSections(sections: seq<Section>, rowsPerSection: nat) {
    forall i :: 0 <= i < |sections| ==> GeneratedSection(sections[i], i, rowsPerSection)
  }

  /** Appending the next section keeps the shape. */
  lemma KeepGeneratedSection(sections: seq<Section>, section: Section, rowsPerSection: nat)
    requires GeneratedSections(sections, rowsPerSection)
    requires GeneratedSection(section, |sections|, rowsPerSection)
    ensures GeneratedSections(sections + [section], rowsPerSection)
  {
    var extended := sections + [section];
    forall i | 0 <= i < |extended|
      ensures GeneratedSection(extended[i], i, rowsPerSection)
    {
      if i < |sections| {
        assert extended[i] == sections[i];
      }
    }
  }

  /** `generateVenue(totalSeats)`: exactly `totalSeats` seats, in the order
      and with the fields of the closed form, in non-empty sections of
      non-empty rows, with distinct ids. */
  method GenerateVenue(totalSeats: nat) returns (venue: Venue)
    ensures venue.venueId == "arena-01" && venue.name == "Metropolis Arena"
    ensures venue.mapSize == MapSize(1024, 768)
    ensures Flatten(venue.sections) == Generated(totalSeats, totalSeats)
    ensures SeatCount(venue.sections) == totalSeats
    ensures UniqueIds(Flatten(venue.sections))
    ensures |venue.sections| <= |SectionIds|
    ensures GeneratedSections(venue.sections, RowsPerSection(totalSeats))
  {
    var sections := [];
    var rowsPerSection := RowsPerSection(totalSeats);
    var seatCounter := 0;
    for sectionIndex := 0 to |SectionIds|
      invariant seatCounter <= totalSeats
      invariant seatCounter < totalSeats ==> PlaceOf(totalSeats, seatCounter) == Place(sectionIndex, 1, 1)
      invariant Flatten(sections) == Generated(totalSeats, seatCounter)
      invariant |sections| <= sectionIndex
      invariant seatCounter < totalSeats ==> |sections| == sectionIndex
      invariant GeneratedSections(sections, rowsPerSection)
    {
      var sectionId := SectionIds[sectionIndex];
      var rows, after := GenerateSection(totalSeats, rowsPerSection, sectionIndex, seatCounter);
      var section := Section(sectionId, SectionLabel(sectionId), Transform(0, 0, 1), rows);
      ghost var previous := sections;
      if |rows| > 0 {
        KeepGeneratedSection(sections, section, rowsPerSection);
        sections := sections + [section];
      }
      ExtendGeneratedSections(Generated(totalSeats, seatCounter), Generated(totalSeats, after), previous, section, sections);
      seatCounter := after;
    }
    if seatCounter < totalSeats {
      PlaceOfInRange(totalSeats, seatCounter);
    }
    venue := Venue("arena-01", "Metropolis Arena", MapSize(1024, 768), sections);
    GeneratedIdsUnique(totalSeats);
  }

  /** Distinct counters give distinct seat ids. */
  lemma GeneratedIdsDistinct(totalSeats: nat, a: nat, b: nat)
    requires a < b < totalSeats
    ensures GeneratedSeat(totalSeats, a).seat.id != GeneratedSeat(totalSeats, b).seat.id
  {
    var pa, pb := PlaceOf(totalSeats, a), PlaceOf(totalSeats, b);
    PlaceOfInRange(totalSeats, a);
    PlaceOfInRange(totalSeats, b);
    if GeneratedSeat(totalSeats, a).seat.id == GeneratedSeat(totalSeats, b).seat.id {
      SeatIdInjective(SectionIds[pa.sectionIndex], pa.rowIndex, pa.col, SectionIds[pb.sectionIndex], pb.rowIndex, pb.col);
    }
  }

  /** Every seat the generator produces has its own id. */
  lemma GeneratedIdsUnique(totalSeats: nat)
    ensures UniqueIds(Generated(totalSeats, totalSeats))
  {
    var seats := Generated(totalSeats, totalSeats);
    forall i, j | 0 <= i < j < |seats|
      ensures seats[i].seat.id != seats[j].seat.id
    {
      GeneratedIdsDistinct(totalSeats, i, j);
    }
  }
}
