/** The venue data model: a read-only tree of sections, rows and seats,
    and the projections that the rest of the engine derives from it. */
module Types {

  datatype Option<+T> = None | Some(value: T)

  /** A seat's booking status is exactly one of these four values. */
  datatype Status = Available | Reserved | Sold | Held

  /** Coordinates and dimensions are integers in this model. */
  datatype Seat = Seat(id: string, col: int, x: int, y: int, priceTier: int, status: Status)

  /** `index` is the human-facing row number, stored in the row and
      independent of the row's position in its section. */
  datatype Row = Row(index: int, seats: seq<Seat>)

  datatype Transform = Transform(x: int, y: int, scale: int)

  /** `sectionLabel` is the section's `label` (a reserved word in Dafny). */
  datatype Section = Section(id: string, sectionLabel: string, transform: Transform, rows: seq<Row>)

  datatype MapSize = MapSize(width: int, height: int)

  /** Seats are reachable only through `sections[].rows[].seats[]`;
      `mapSize` is the venue's `map` (a reserved word in Dafny). */
  datatype Venue = Venue(venueId: string, name: string, mapSize: MapSize, sections: seq<Section>)

  /** The focus projection of a seat; its status has the seat's own type. */
  datatype SeatDetails = SeatDetails(id: string, section: string, row: int, col: int, priceTier: int, status: Status)

  /** One element of the flattened seat list: a seat together with the label
      of its enclosing section and the index of its enclosing row. */
  datatype SeatEntry = SeatEntry(seat: Seat, sectionLabel: string, rowIndex: int)
}
