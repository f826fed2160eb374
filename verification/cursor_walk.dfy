/**
 The walk as a client makes it, with cursors as text. It is the walk over keys of KeysetPagination,
 because every cursor reads back as the key it was made of.
 */
module CursorWalk {
  import opened Common
  import opened KeysetPagination
  import CursorCodec
  import Calendar
  import UuidText

  /** How a key's time and id are written in a cursor, and which key a decoded pair is compared as, if any. */
  datatype Rendering = Rendering(
    time: int -> CursorCodec.DateTime, name: Uuid -> string,
    key: (CursorCodec.DateTime, string) -> Option<Key>)

  /** Keys are told apart in writing, and ids are written without a colon, as UUIDs are. */
  ghost predicate Faithful(r: Rendering, keys: set<Key>) {
    forall k | k in keys ::
      CursorCodec.Valid(r.time(k.time)) && ':' !in r.name(k.id) && r.key(r.time(k.time), r.name(k.id)) == Some(k)
  }

  function TimeOf(t: int): CursorCodec.DateTime {
    Calendar.DateTimeOf(Max(t, 0))
  }

  /** The database compares a decoded cursor by its instant and by the UUID its second part spells. */
  function KeyOf(t: CursorCodec.DateTime, name: string): Option<Key> {
    if !CursorCodec.Valid(t) || UuidText.ParseUuid(name).None? then None
    else Some(Key(Calendar.InstantOf(t), UuidText.ParseUuid(name).value))
  }

  /** Timestamps come from the database in UTC and microseconds, ids as str() writes a UUID. */
  const RENDERING := Rendering(TimeOf, UuidText.Canonical, KeyOf)

  /** The rows a database can hold: timestamps of the calendar, ids of 128 bits. */
  predicate Storable(keys: set<Key>) {
    forall k | k in keys :: Calendar.Representable(k.time) && k.id < UuidText.Pow16(UuidText.DIGITS)
  }

  lemma RenderingIsFaithful(keys: set<Key>)
    requires Storable(keys)
    ensures Faithful(RENDERING, keys)
  {
    forall k | k in keys
      ensures CursorCodec.Valid(TimeOf(k.time)) && ':' !in UuidText.Canonical(k.id)
      ensures KeyOf(TimeOf(k.time), UuidText.Canonical(k.id)) == Some(k)
    {
      Calendar.DateTimeReadsBack(k.time);
      UuidText.CanonicalReadsBack(k.id);
    }
  }

  ghost predicate AllWithin(tables: seq<set<Key>>, keys: set<Key>) {
    forall i | 0 <= i < |tables| :: tables[i] <= keys
  }

  function CursorText(r: Rendering, k: Option<Key>): Option<string>
    requires k.Some? ==> CursorCodec.Valid(r.time(k.value.time))
  {
    if k.None? then None else Some(CursorCodec.EncodeCursor(r.time(k.value.time), r.name(k.value.id)))
  }

  /** The key that a request's cursor stands for: an empty one counts as none, an unreadable one is an error. */
  function CursorKey(r: Rendering, after: Option<string>): Result<Option<Key>, ()> {
    if after.None? || after.value == "" then Success(None)
    else
      var decoded := CursorCodec.DecodeCursor(after.value);
      if decoded.None? || r.key(decoded.value.0, decoded.value.1).None? then Failure(())
      else Success(r.key(decoded.value.0, decoded.value.1))
  }

  /** One query. An empty cursor does not filter, yet it counts as a page having gone before. */
  ghost function FetchPage(r: Rendering, visible: set<Key>, first: nat, after: Option<string>): Result<Page, ()> {
    var key := CursorKey(r, after);
    if key.Failure? then Failure(())
    else Success(Fetch(visible, first, key.value).(hasPrevious := after.Some?))
  }

  /** Without a cursor and with an empty one the first page is the same, but that the empty one counts as a page before. */
  lemma EmptyCursorIsTheFirstPage(r: Rendering, visible: set<Key>, first: nat)
    ensures FetchPage(r, visible, first, None) == Success(Fetch(visible, first, None))
    ensures !Fetch(visible, first, None).hasPrevious
    ensures FetchPage(r, visible, first, Some("")) == Success(Fetch(visible, first, None).(hasPrevious := true))
  {
  }

  /** The items a client gathers that sends each page's end cursor back as it got it. */
  ghost function TextWalk(r: Rendering, tables: seq<set<Key>>, first: nat, after: Option<string>, keys: set<Key>): Result<seq<Key>, ()>
    requires Faithful(r, keys) && AllWithin(tables, keys)
    decreases |tables|
  {
    if tables == [] then Success([])
    else
      var page := FetchPage(r, tables[0], first, after);
      if page.Failure? then Failure(())
      else
        var p := page.value;
        if !p.hasNext then Success(p.items)
        else
          EndCursorIsVisible(tables[0], first, CursorKey(r, after).value);
          assert AllWithin(tables[1..], keys);
          Prefixed(p.items, TextWalk(r, tables[1..], first, CursorText(r, p.endCursor), keys))
  }

  function Prefixed(items: seq<Key>, rest: Result<seq<Key>, ()>): Result<seq<Key>, ()> {
    if rest.Failure? then rest else Success(items + rest.value)
  }

  lemma EndCursorIsVisible(visible: set<Key>, first: nat, after: Option<Key>)
    ensures var end := Fetch(visible, first, after).endCursor; end.Some? ==> end.value in visible
  {
    PageItems(visible, first, after);
    var p := Fetch(visible, first, after);
    if p.endCursor.Some? { assert p.endCursor.value in p.items; }
  }

  lemma CursorsReadBack(r: Rendering, keys: set<Key>, k: Option<Key>)
    requires Faithful(r, keys) && (k.Some? ==> k.value in keys)
    ensures CursorKey(r, CursorText(r, k)) == Success(k)
  {
    if k.Some? {
      CursorCodec.CursorRoundTripsExactly(r.time(k.value.time), r.name(k.value.id));
      CursorCodec.CursorTextRoundTrip(r.time(k.value.time), r.name(k.value.id));
    }
  }

  /** One fetch of the walk, its cursor having been read as this key. */
  lemma TextWalkStep(r: Rendering, tables: seq<set<Key>>, first: nat, text: Option<string>, after: Option<Key>, keys: set<Key>)
    requires Faithful(r, keys) && AllWithin(tables, keys) && tables != [] && CursorKey(r, text) == Success(after)
    ensures var p := Fetch(tables[0], first, after);
            && (p.endCursor.Some? ==> p.endCursor.value in keys)
            && AllWithin(tables[1..], keys)
            && TextWalk(r, tables, first, text, keys) ==
                 if !p.hasNext then Success(p.items)
                 else Prefixed(p.items, TextWalk(r, tables[1..], first, CursorText(r, p.endCursor), keys))
  {
    EndCursorIsVisible(tables[0], first, after);
  }

  /** Going through text changes nothing: no cursor a page hands out is refused or misread. */
  lemma {:induction false} TextWalkIsKeyWalk(r: Rendering, tables: seq<set<Key>>, first: nat, after: Option<Key>, text: Option<string>, keys: set<Key>)
    requires Faithful(r, keys) && AllWithin(tables, keys) && CursorKey(r, text) == Success(after)
    ensures TextWalk(r, tables, first, text, keys) == Success(Walk(tables, first, after))
    decreases |tables|
  {
    if tables != [] {
      TextWalkStep(r, tables, first, text, after, keys);
      var p := Fetch(tables[0], first, after);
      if p.hasNext {
        CursorsReadBack(r, keys, p.endCursor);
        TextWalkIsKeyWalk(r, tables[1..], first, p.endCursor, CursorText(r, p.endCursor), keys);
      } else {
        assert p.items + [] == p.items;
      }
    }
  }

  /** So a client of this service that sends cursors back as it got them walks over keys, whatever rows there are. */
  lemma ClientsWalkOverKeys(tables: seq<set<Key>>, first: nat, keys: set<Key>)
    requires Storable(keys) && AllWithin(tables, keys)
    ensures Faithful(RENDERING, keys)
    ensures TextWalk(RENDERING, tables, first, None, keys) == Success(Walk(tables, first, None))
  {
    RenderingIsFaithful(keys);
    TextWalkIsKeyWalk(RENDERING, tables, first, None, None, keys);
  }
}
