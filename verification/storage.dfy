/** The persistence adapter: the selection is kept in the browser's
    key-value store under one fixed key, as a JSON array of seat ids. */
module Storage {
  import opened Types

  /** The single key the selection is stored under. */
  const SelectionKey := "selectedSeats"

  /** A stored string as the JSON codec sees it: the encoding of an id list,
      the empty string, or text that does not parse. */
  datatype Text = Json(ids: seq<string>) | Blank | Corrupt(raw: string)

  /** `JSON.stringify` of an id list. */
  function Encode(ids: seq<string>): Text {
    Json(ids)
  }

  /** `JSON.parse`: `None` where parsing throws. */
  function Decode(text: Text): (ids: Option<seq<string>>)
    requires text != Blank
    ensures ids.None? <==> text.Corrupt?
  {
    match text
    case Json(ids) => Some(ids)
    case Corrupt(_) => None
  }

  /** What `loadSelectedSeats` returns for a store: the decoded list, or the
      empty list when the key is absent, holds the empty string, or does not
      parse. */
  function LoadedIds(items: map<string, Text>): (ids: seq<string>)
    ensures SelectionKey in items && items[SelectionKey].Json? ==> ids == items[SelectionKey].ids
    ensures !(SelectionKey in items && items[SelectionKey].Json?) ==> ids == []
  {
    if SelectionKey !in items || items[SelectionKey] == Blank then []
    else
      match Decode(items[SelectionKey])
      case Some(ids) => ids
      case None => []
  }

  /** Saving then loading gives back the same ids in the same order. */
  lemma LoadAfterSave(items: map<string, Text>, ids: seq<string>)
    ensures LoadedIds(items[SelectionKey := Encode(ids)]) == ids
  {
  }

  /** A missing, empty or unparseable entry loads as the empty list. */
  lemma LoadFallsBackToEmpty(items: map<string, Text>)
    requires SelectionKey !in items || items[SelectionKey] == Blank || items[SelectionKey].Corrupt?
    ensures LoadedIds(items) == []
  {
  }

  /** The browser's key-value store, shared with keys other than the selection's. */
  class Store {
    var items: map<string, Text>

    constructor(initial: map<string, Text>)
      ensures items == initial
    {
      items := initial;
    }

    /** `saveSelectedSeats`: overwrites the selection key and nothing else.
        `writeOk` is false when the browser refuses the write, which is
        swallowed: the store is then left as it was. */
    method SaveSelectedSeats(ids: seq<string>, writeOk: bool)
      modifies this
      ensures writeOk ==> items == old(items)[SelectionKey := Encode(ids)]
      ensures !writeOk ==> items == old(items)
      ensures forall key :: key != SelectionKey ==> (key in items <==> key in old(items))
      ensures forall key :: key != SelectionKey && key in items ==> items[key] == old(items)[key]
    {
      if writeOk {
        items := items[SelectionKey := Encode(ids)];
      }
    }

    /** `loadSelectedSeats`: never fails; absence and corruption read as []. */
    method LoadSelectedSeats() returns (ids: seq<string>)
      ensures ids == LoadedIds(items)
    {
      if SelectionKey !in items {
        return [];
      }
      var stored := items[SelectionKey];
      if stored == Blank {
        return [];
      }
      var parsed := Decode(stored);
      match parsed
      case Some(list) => ids := list;
      case None => ids := [];
    }

    /** `removeItem`: drops one key. */
    method RemoveItem(key: string)
      modifies this
      ensures items == old(items) - {key}
    {
      items := items - {key};
    }
  }
}
