/** The tracker's state and the handlers that change it: the two effects
    that load and save the list, the form's handlers, the delete button and
    the render, which sorts the list for display. */
module Tracker {
  import opened Items
  import opened ItemStyle
  import opened StableSort
  import opened ExpirySort
  import opened Dates

  /** The one storage key the tracker reads and writes. */
  const StorageKey: string := "expiryItems"

  /** One row of the displayed list: the item and the class of its row. */
  datatype Row = Row(item: Item, style: string)

  /** What a render shows: a loading notice until the stored list is read,
      then the form with its current values above the list. */
  datatype View =
    | Loading
    | Page(name: string, expiryDate: string, notes: string, rows: seq<Row>)

  /** The rows for a list, each highlighted by the days left until its
      expiry date as `daysUntil` counts them for the current day. */
  function Rows(s: seq<Item>, daysUntil: string -> int): (r: seq<Row>)
    ensures |r| == |s|
    ensures forall i :: 0 <= i < |r| ==> r[i].item == s[i]
    ensures forall i :: 0 <= i < |r| ==>
      (r[i].style == "bg-red-100" <==> daysUntil(s[i].expiryDate) < 0)
    ensures forall i :: 0 <= i < |r| ==>
      (r[i].style == "bg-yellow-100" <==> 0 <= daysUntil(s[i].expiryDate) < SoonDays)
    ensures forall i :: 0 <= i < |r| ==>
      (r[i].style == "" <==> SoonDays <= daysUntil(s[i].expiryDate))
  {
    if s == [] then []
    else
      var last := s[|s| - 1];
      Rows(s[..|s| - 1], daysUntil) + [Row(last, GetItemStyle(daysUntil(last.expiryDate)))]
  }

  /** A new array holding `s`: spreading, filtering and parsing all build a
      new array rather than changing the old one. */
  method NewArray(s: seq<Item>) returns (a: array<Item>)
    ensures fresh(a) && a[..] == s
  {
    a := new Item[|s|](i requires 0 <= i < |s| => s[i]);
  }

  class App {
    var items: array<Item>
    var name: string
    var expiryDate: string
    var notes: string
    var isLoaded: bool
    /** The browser's local storage, text already parsed to lists. */
    var storage: map<string, seq<Item>>

    /** The first render's state: an empty list, an empty form, not loaded. */
    constructor (persisted: map<string, seq<Item>>)
      ensures items.Length == 0 && fresh(items)
      ensures name == "" && expiryDate == "" && notes == ""
      ensures !isLoaded && storage == persisted
    {
      items := new Item[0];
      name, expiryDate, notes := "", "", "";
      isLoaded := false;
      storage := persisted;
    }

    /** The mount effect: take the stored list when there is one, and mark
        the state loaded either way. */
    method Hydrate()
      modifies this
      ensures StorageKey in old(storage) ==> fresh(items) && items[..] == old(storage)[StorageKey]
      ensures StorageKey !in old(storage) ==> items == old(items)
      ensures isLoaded
      ensures name == old(name) && expiryDate == old(expiryDate) && notes == old(notes)
      ensures storage == old(storage)
    {
      if StorageKey in storage {
        items := NewArray(storage[StorageKey]);
      }
      isLoaded := true;
    }

    /** The save effect: write the list under the key, but only once the
        stored list has been read, so the empty first list never overwrites
        it. */
    method Save()
      modifies this
      ensures isLoaded ==> storage == old(storage)[StorageKey := items[..]]
      ensures !isLoaded ==> storage == old(storage)
      ensures items == old(items) && isLoaded == old(isLoaded)
      ensures name == old(name) && expiryDate == old(expiryDate) && notes == old(notes)
    {
      if isLoaded {
        storage := storage[StorageKey := items[..]];
      }
    }

    method SetName(value: string)
      modifies this
      ensures name == value
      ensures items == old(items) && expiryDate == old(expiryDate) && notes == old(notes)
      ensures isLoaded == old(isLoaded) && storage == old(storage)
    {
      name := value;
    }

    method SetExpiryDate(value: string)
      modifies this
      ensures expiryDate == value
      ensures items == old(items) && name == old(name) && notes == old(notes)
      ensures isLoaded == old(isLoaded) && storage == old(storage)
    {
      expiryDate := value;
    }

    method SetNotes(value: string)
      modifies this
      ensures notes == value
      ensures items == old(items) && name == old(name) && expiryDate == old(expiryDate)
      ensures isLoaded == old(isLoaded) && storage == old(storage)
    {
      notes := value;
    }

    /** The form's submit handler, at time `now` in milliseconds. With a
        name and a date it appends one item stamped with `now` and clears the
        form; otherwise it changes nothing. */
    method AddItem(now: int)
      modifies this
      ensures old(name) != "" && old(expiryDate) != "" ==>
        fresh(items) &&
        items[..] == old(items[..]) + [Item(TimestampId(now), old(name), old(expiryDate), old(notes))] &&
        name == "" && expiryDate == "" && notes == ""
      ensures old(name) == "" || old(expiryDate) == "" ==>
        items == old(items) &&
        name == old(name) && expiryDate == old(expiryDate) && notes == old(notes)
      ensures isLoaded == old(isLoaded) && storage == old(storage)
    {
      if name != "" && expiryDate != "" {
        var newItem := Item(TimestampId(now), name, expiryDate, notes);
        items := NewArray(items[..] + [newItem]);
        name, expiryDate, notes := "", "", "";
      }
    }

    /** The delete button: keep every item whose id is not `id`. */
    method DeleteItem(id: string)
      modifies this
      ensures fresh(items) && items[..] == RemoveId(old(items[..]), id)
      ensures name == old(name) && expiryDate == old(expiryDate) && notes == old(notes)
      ensures isLoaded == old(isLoaded) && storage == old(storage)
    {
      items := NewArray(RemoveId(items[..], id));
    }

    /** The render: a loading notice before the stored list is read;
        afterwards the list is sorted by expiry date in place, in the state's
        own array, and shown row by row. */
    method Render(daysUntil: string -> int) returns (view: View)
      requires isLoaded ==> Dated(items[..])
      modifies items
      ensures !isLoaded ==> view == Loading && items[..] == old(items[..])
      ensures isLoaded ==>
        items[..] == DisplayOrder(old(items[..])) &&
        view == Page(name, expiryDate, notes, Rows(items[..], daysUntil))
    {
      if !isLoaded {
        return Loading;
      }
      SortInPlace(items, ExpiryKey);
      view := Page(name, expiryDate, notes, Rows(items[..], daysUntil));
    }

    /** A submit as the page lives it. An accepted submit sets state, so the
        page renders and the save effect then sees the new list; the render
        has already sorted that list, so it is stored in expiry order. A
        rejected submit sets nothing, so nothing renders and nothing is
        saved. */
    method Submit(now: int, daysUntil: string -> int)
      requires isLoaded && Dated(items[..])
      requires expiryDate == "" || WellFormedDate(expiryDate)
      modifies this, items
      ensures old(name) != "" && old(expiryDate) != "" ==>
        var added := old(items[..]) + [Item(TimestampId(now), old(name), old(expiryDate), old(notes))];
        items[..] == DisplayOrder(added) &&
        storage == old(storage)[StorageKey := items[..]] &&
        name == "" && expiryDate == "" && notes == ""
      ensures old(name) == "" || old(expiryDate) == "" ==>
        items == old(items) && items[..] == old(items[..]) && storage == old(storage) &&
        name == old(name) && expiryDate == old(expiryDate) && notes == old(notes)
      ensures isLoaded
    {
      if name != "" && expiryDate != "" {
        ghost var before := items[..];
        AddItem(now);
        assert Dated(items[..]) by {
          forall i | 0 <= i < items.Length ensures WellFormedDate(items[i].expiryDate) {
            if i < |before| {
              assert items[i] == before[i];
            }
          }
        }
        var view := Render(daysUntil);
        Save();
      }
    }
  }
}
