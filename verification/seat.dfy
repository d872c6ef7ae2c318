/** The visual and activation rules of one rendered seat. */
module SeatComponent {
  import opened Types

  const SelectedFill := "#3b82f6"
  const AvailableFill := "#10b981"
  const ReservedFill := "#f59e0b"
  const SoldFill := "#ef4444"
  const HeldFill := "#8b5cf6"
  /** The fallback colour for a status outside the four known ones. */
  const DefaultFill := "#6b7280"

  const SelectedStroke := "#1e40af"
  const PlainStroke := "#ffffff"

  /** The fill colour: selection overrides status; otherwise one colour per
      status, so the fallback colour is never used. */
  function StatusColor(status: Status, isSelected: bool): (fill: string)
    ensures isSelected ==> fill == SelectedFill
    ensures !isSelected ==> fill != SelectedFill && fill != DefaultFill
    ensures !isSelected ==> StatusOfFill(fill) == Some(status)
  {
    if isSelected then SelectedFill
    else
      match status
      case Available => AvailableFill
      case Reserved => ReservedFill
      case Sold => SoldFill
      case Held => HeldFill
  }

  /** Reads the status back from an unselected seat's fill; `None` for any
      other colour. */
  function StatusOfFill(fill: string): Option<Status> {
    if fill == AvailableFill then Some(Available)
    else if fill == ReservedFill then Some(Reserved)
    else if fill == SoldFill then Some(Sold)
    else if fill == HeldFill then Some(Held)
    else None
  }

  /** Only an available seat can be activated: exactly the seats drawn in
      the available colour when unselected. */
  predicate IsClickable(status: Status)
    ensures IsClickable(status) <==> StatusOfFill(StatusColor(status, false)) == Some(Available)
  {
    status == Available
  }

  /** What one seat renders: centre, fill, stroke, whether the click and key
      handlers are attached, and its tab index. */
  datatype SeatView = SeatView(
    cx: int, cy: int,
    fill: string, stroke: string, strokeWidth: int,
    handlersAttached: bool, tabIndex: int)

  /** Renders `seat`. The handlers and tab stop exist exactly when the seat
      is clickable; fill reflects selection first; stroke only selection. */
  function RenderSeat(seat: Seat, isSelected: bool): (view: SeatView)
    ensures view.cx == seat.x && view.cy == seat.y
    ensures view.handlersAttached <==> seat.status == Available
    ensures view.tabIndex == 0 <==> seat.status == Available
    ensures view.tabIndex == -1 <==> seat.status != Available
    ensures view.fill == SelectedFill <==> isSelected
    ensures !isSelected ==> StatusOfFill(view.fill) == Some(seat.status)
    ensures view.stroke == SelectedStroke <==> isSelected
    ensures view.strokeWidth == (if isSelected then 2 else 1)
  {
    var clickable := IsClickable(seat.status);
    SeatView(
      seat.x, seat.y,
      StatusColor(seat.status, isSelected),
      if isSelected then SelectedStroke else PlainStroke,
      if isSelected then 2 else 1,
      clickable,
      if clickable then 0 else -1)
  }

  /** Fill depends on status and selection only; stroke and its width on
      selection only. */
  lemma AppearanceDependsOnlyOnStatusAndSelection(a: Seat, b: Seat, isSelected: bool)
    ensures a.status == b.status ==> RenderSeat(a, isSelected).fill == RenderSeat(b, isSelected).fill
    ensures RenderSeat(a, isSelected).stroke == RenderSeat(b, isSelected).stroke
    ensures RenderSeat(a, isSelected).strokeWidth == RenderSeat(b, isSelected).strokeWidth
  {
  }
}
