/**
 * A slotted page (src/slotted_page.rs): a 6-byte header, a directory of 4-byte slots growing up,
 * and fixed-size payloads growing down. Slot ids are stable; payloads move when defragmenting.
 */
module SlottedPage {
  import opened Bytes
  import opened Params

  const HEADER_SIZE := 6
  const SLOT_SIZE := 4
  const PAYLOAD := KEY_SIZE + VALUE_SIZE + 20

  datatype Error = InvalidPageSize | InvalidKeySize | InvalidValueSize | NoSpace | SlotMismatch

  // A live slot: which payload area it has, counted from the end of the page, and its bytes.
  datatype Cell = Cell(area: nat, payload: seq<Byte>)

  // `areas` payload areas have been handed out since the page was new or last defragmented.
  datatype Image = Image(cells: seq<Option<Cell>>, areas: nat)

  function AreaPos(k: int): int { PAGE_SIZE - PAYLOAD * (k + 1) }

  function SlotBytes(c: Option<Cell>): (s: seq<Byte>)
    requires c.Some? ==> AreaPos(c.value.area) >= 0
    ensures |s| == SLOT_SIZE
  {
    match c
    case None => ToLe(0, 2) + ToLe(0, 2)
    case Some(cell) => ToLe(AreaPos(cell.area), 2) + ToLe(PAYLOAD, 2)
  }

  function HeaderBytes(n: nat, areas: nat): (s: seq<Byte>)
    requires PAYLOAD * areas <= PAGE_SIZE
    ensures |s| == HEADER_SIZE
  {
    ToLe(n, 2) + ToLe(HEADER_SIZE + SLOT_SIZE * n, 2) + ToLe(PAGE_SIZE - PAYLOAD * areas, 2)
  }

  predicate ImageOk(img: Image) {
    && HEADER_SIZE + SLOT_SIZE * |img.cells| <= PAGE_SIZE - PAYLOAD * img.areas
    && (forall i :: 0 <= i < |img.cells| && img.cells[i].Some? ==>
          img.cells[i].value.area < img.areas && |img.cells[i].value.payload| == PAYLOAD)
    && (forall i, j :: 0 <= i < j < |img.cells| && img.cells[i].Some? && img.cells[j].Some? ==>
          img.cells[i].value.area != img.cells[j].value.area)
  }

  function SlotOff(i: int): int { HEADER_SIZE + SLOT_SIZE * i }

  ghost predicate DirOk(s: seq<Byte>, c: Option<Cell>, i: nat)
    requires |s| == PAGE_SIZE
  {
    && SlotOff(i) + SLOT_SIZE <= PAGE_SIZE && (c.Some? ==> AreaPos(c.value.area) >= 0)
    && s[SlotOff(i)..SlotOff(i) + SLOT_SIZE] == SlotBytes(c)
  }

  ghost predicate DataOk(s: seq<Byte>, c: Option<Cell>)
    requires |s| == PAGE_SIZE
  {
    c.Some? ==> 0 <= AreaPos(c.value.area) <= PAGE_SIZE - PAYLOAD
                && s[AreaPos(c.value.area)..AreaPos(c.value.area) + PAYLOAD] == c.value.payload
  }

  ghost predicate CellOk(s: seq<Byte>, c: Option<Cell>, i: nat)
    requires |s| == PAGE_SIZE
  {
    DirOk(s, c, i) && DataOk(s, c)
  }

  /** The bytes `s` of a page hold the slots of `img`. */
  ghost predicate Holds(s: seq<Byte>, img: Image) {
    && |s| == PAGE_SIZE && ImageOk(img)
    && s[0..HEADER_SIZE] == HeaderBytes(|img.cells|, img.areas)
    && (forall i :: 0 <= i < |img.cells| ==> CellOk(s, img.cells[i], i))
  }

  /** Live payloads do not overlap each other, the directory or the free space between them. */
  lemma PayloadsDisjoint(img: Image, i: nat, j: nat)
    requires ImageOk(img) && i < j < |img.cells| && img.cells[i].Some? && img.cells[j].Some?
    ensures var (p, q) := (AreaPos(img.cells[i].value.area), AreaPos(img.cells[j].value.area));
            && (p + PAYLOAD <= q || q + PAYLOAD <= p)
            && HEADER_SIZE + SLOT_SIZE * |img.cells| <= PAGE_SIZE - PAYLOAD * img.areas <= p
            && p + PAYLOAD <= PAGE_SIZE
  {
  }

  // ---- Counting live slots ----

  ghost function Live(cells: seq<Option<Cell>>): nat {
    if cells == [] then 0 else Live(cells[..|cells| - 1]) + (if cells[|cells| - 1].Some? then 1 else 0)
  }

  ghost function Areas(cells: seq<Option<Cell>>): set<nat> {
    set i | 0 <= i < |cells| && cells[i].Some? :: cells[i].value.area
  }

  lemma {:induction false} LiveIsAreas(cells: seq<Option<Cell>>)
    requires forall i, j :: 0 <= i < j < |cells| && cells[i].Some? && cells[j].Some? ==>
               cells[i].value.area != cells[j].value.area
    ensures |Areas(cells)| == Live(cells)
  {
    if cells != [] {
      var (less, c) := (cells[..|cells| - 1], cells[|cells| - 1]);
      LiveIsAreas(less);
      if c.Some? {
        assert Areas(cells) == Areas(less) + {c.value.area};
        assert c.value.area !in Areas(less);
      } else {
        assert Areas(cells) == Areas(less);
      }
    }
  }

  lemma {:induction false} SmallSet(a: set<nat>, n: nat)
    requires forall x :: x in a ==> x < n
    ensures |a| <= n
  {
    if n > 0 {
      SmallSet(a - {n - 1}, n - 1);
      assert |a| <= |a - {n - 1}| + 1 by {
        if n - 1 in a {
          assert a == (a - {n - 1}) + {n - 1};
        } else {
          assert a == a - {n - 1};
        }
      }
    } else {
      assert a == {};
    }
  }

  /** There are never more live slots than payload areas handed out. */
  lemma LiveBound(img: Image)
    requires ImageOk(img)
    ensures Live(img.cells) <= img.areas
  {
    LiveIsAreas(img.cells);
    SmallSet(Areas(img.cells), img.areas);
  }

  // ---- Writes elsewhere ----

  lemma CellElsewhere(s: seq<Byte>, off: nat, data: seq<Byte>, c: Option<Cell>, i: nat)
    requires |s| == PAGE_SIZE && off + |data| <= PAGE_SIZE && CellOk(s, c, i)
    requires off + |data| <= SlotOff(i) || SlotOff(i) + SLOT_SIZE <= off
    requires c.Some? ==> off + |data| <= AreaPos(c.value.area) || AreaPos(c.value.area) + PAYLOAD <= off
    ensures CellOk(Splice(s, off, data), c, i)
  {
    hide Splice, SlotBytes;
    SpliceElsewhere(s, off, data, SlotOff(i), SlotOff(i) + SLOT_SIZE);
    if c.Some? {
      SpliceElsewhere(s, off, data, AreaPos(c.value.area), AreaPos(c.value.area) + PAYLOAD);
    }
  }

  lemma HeaderReads(s: seq<Byte>, img: Image)
    requires Holds(s, img)
    ensures ReadLe(s, 0, 2) == |img.cells| && ReadLe(s, 2, 2) == HEADER_SIZE + SLOT_SIZE * |img.cells|
    ensures ReadLe(s, 4, 2) == PAGE_SIZE - PAYLOAD * img.areas
  {
    var (n, a) := (|img.cells|, img.areas);
    Pow256Values();
    LeRoundTrip(n, 2);
    LeRoundTrip(HEADER_SIZE + SLOT_SIZE * n, 2);
    LeRoundTrip(PAGE_SIZE - PAYLOAD * a, 2);
    hide ToLe, FromLe;
    var h := s[0..HEADER_SIZE];
    SubSlice(s, 0, HEADER_SIZE, 0, 2);
    SubSlice(s, 0, HEADER_SIZE, 2, 4);
    SubSlice(s, 0, HEADER_SIZE, 4, 6);
    assert h[0..2] == ToLe(n, 2) && h[2..4] == ToLe(HEADER_SIZE + SLOT_SIZE * n, 2);
    assert h[4..6] == ToLe(PAGE_SIZE - PAYLOAD * a, 2);
  }

  lemma SlotReads(s: seq<Byte>, c: Option<Cell>, i: nat)
    requires |s| == PAGE_SIZE && DirOk(s, c, i)
    ensures ReadLe(s, SlotOff(i), 2) == if c.Some? then AreaPos(c.value.area) else 0
    ensures ReadLe(s, SlotOff(i) + 2, 2) == if c.Some? then PAYLOAD else 0
  {
    Pow256Values();
    var (off, pos, len) := (SlotOff(i), if c.Some? then AreaPos(c.value.area) else 0, if c.Some? then PAYLOAD else 0);
    LeRoundTrip(pos, 2);
    LeRoundTrip(len, 2);
    hide ToLe, FromLe;
    var w := s[off..off + SLOT_SIZE];
    assert w == ToLe(pos, 2) + ToLe(len, 2);
    SubSlice(s, off, off + SLOT_SIZE, 0, 2);
    SubSlice(s, off, off + SLOT_SIZE, 2, 4);
    assert w[0..2] == ToLe(pos, 2) && w[2..4] == ToLe(len, 2);
  }

  method WriteSlot(page: array<Byte>, i: nat, pos: nat, len: nat)
    requires page.Length == PAGE_SIZE && SlotOff(i) + SLOT_SIZE <= PAGE_SIZE
    modifies page
    ensures page[..] == Splice(old(page[..]), SlotOff(i), ToLe(pos, 2) + ToLe(len, 2))
  {
    hide Splice, ToLe;
    ghost var s := page[..];
    CopyInto(page, SlotOff(i), ToLe(pos, 2));
    CopyInto(page, SlotOff(i) + 2, ToLe(len, 2));
    SpliceJoin(s, SlotOff(i), ToLe(pos, 2), ToLe(len, 2));
  }

  method WriteHeader(page: array<Byte>, n: nat, start: nat, end: nat)
    requires page.Length == PAGE_SIZE
    modifies page
    ensures page[..] == Splice(old(page[..]), 0, ToLe(n, 2) + ToLe(start, 2) + ToLe(end, 2))
  {
    hide Splice, ToLe;
    ghost var s := page[..];
    CopyInto(page, 0, ToLe(n, 2));
    CopyInto(page, 2, ToLe(start, 2));
    SpliceJoin(s, 0, ToLe(n, 2), ToLe(start, 2));
    CopyInto(page, 4, ToLe(end, 2));
    SpliceJoin(s, 0, ToLe(n, 2) + ToLe(start, 2), ToLe(end, 2));
  }

  method NewPage() returns (page: array<Byte>)
    ensures fresh(page) && Holds(page[..], Image([], 0))
  {
    hide ToLe;
    page := new Byte[PAGE_SIZE](i => 0);
    WriteHeader(page, 0, HEADER_SIZE, PAGE_SIZE);
  }

  /** The free space of a page: all of it but the header, the directory and the areas handed out. */
  method FreeSpace(page: array<Byte>, ghost img: Image) returns (n: nat)
    requires page.Length == PAGE_SIZE ==> Holds(page[..], img)
    ensures page.Length == PAGE_SIZE ==> n == PAGE_SIZE - HEADER_SIZE - SLOT_SIZE * |img.cells| - PAYLOAD * img.areas
    ensures page.Length != PAGE_SIZE ==> n == 0
  {
    hide FromLe, HeaderBytes, CellOk;
    if page.Length != PAGE_SIZE {
      return 0;
    }
    HeaderReads(page[..], img);
    var start, end := ReadLe(page[..], 2, 2), ReadLe(page[..], 4, 2);
    n := if end > start then end - start else 0;
  }

  /** The lowest free slot id, if there is one. */
  method FindFreeSlot(page: array<Byte>, n: nat, ghost img: Image) returns (slot: Option<nat>)
    requires Holds(page[..], img) && n == |img.cells|
    ensures slot.Some? ==> slot.value < n && img.cells[slot.value] == None
                           && forall i :: 0 <= i < slot.value ==> img.cells[i].Some?
    ensures slot == None ==> forall i :: 0 <= i < n ==> img.cells[i].Some?
  {
    hide FromLe, HeaderBytes, SlotBytes;
    var i := 0;
    while i < n
      invariant i <= n && forall j :: 0 <= j < i ==> img.cells[j].Some?
    {
      assert CellOk(page[..], img.cells[i], i);
      SlotReads(page[..], img.cells[i], i);
      if ReadLe(page[..], SlotOff(i) + 2, 2) == 0 {
        return Some(i);
      }
      i := i + 1;
    }
    slot := None;
  }

  // ---- Insert ----

  function NewPayload(key: seq<Byte>, value: seq<Byte>): seq<Byte> {
    key + value + ToLe(0, 8) + ToLe(0, 8) + ToLe(0, 2) + ToLe(0, 2)
  }

  function Put(cells: seq<Option<Cell>>, slot: nat, c: Option<Cell>): (out: seq<Option<Cell>>)
    requires slot <= |cells|
    ensures |out| == if slot < |cells| then |cells| else |cells| + 1
    ensures out[slot] == c && forall i :: 0 <= i < |cells| && i != slot ==> out[i] == cells[i]
  {
    if slot < |cells| then cells[slot := c] else cells + [c]
  }

  lemma Inserted(s: seq<Byte>, img: Image, slot: nat, payload: seq<Byte>)
    requires Holds(s, img) && slot <= |img.cells| && (slot < |img.cells| ==> img.cells[slot] == None)
    requires |payload| == PAYLOAD
    requires var n := if slot < |img.cells| then |img.cells| else |img.cells| + 1;
             SlotOff(n) <= AreaPos(img.areas)
    ensures var n := if slot < |img.cells| then |img.cells| else |img.cells| + 1;
            var cell := Some(Cell(img.areas, payload));
            var t := Splice(Splice(Splice(s, AreaPos(img.areas), payload), SlotOff(slot), SlotBytes(cell)),
                            0, HeaderBytes(n, img.areas + 1));
            Holds(t, Image(Put(img.cells, slot, cell), img.areas + 1))
  {
    hide Splice, SlotBytes, HeaderBytes, CellOk;
    var n := if slot < |img.cells| then |img.cells| else |img.cells| + 1;
    var (cell, pos) := (Some(Cell(img.areas, payload)), AreaPos(img.areas));
    var s1 := Splice(s, pos, payload);
    var s2 := Splice(s1, SlotOff(slot), SlotBytes(cell));
    var t := Splice(s2, 0, HeaderBytes(n, img.areas + 1));
    var cells2 := Put(img.cells, slot, cell);
    forall i | 0 <= i < |cells2| ensures CellOk(t, cells2[i], i) {
      if i == slot {
        NewCell(s1, s2, t, cell, slot, n, img.areas + 1);
      } else {
        CellElsewhere(s, pos, payload, img.cells[i], i);
        CellElsewhere(s1, SlotOff(slot), SlotBytes(cell), img.cells[i], i);
        CellElsewhere(s2, 0, HeaderBytes(n, img.areas + 1), img.cells[i], i);
      }
    }
  }

  lemma NewCell(s1: seq<Byte>, s2: seq<Byte>, t: seq<Byte>, c: Option<Cell>, slot: nat, n: nat, areas: nat)
    requires c.Some? && |s1| == PAGE_SIZE && slot < n && SlotOff(n) <= AreaPos(c.value.area)
    requires AreaPos(c.value.area) + PAYLOAD <= PAGE_SIZE && PAYLOAD * areas <= PAGE_SIZE
    requires s1[AreaPos(c.value.area)..AreaPos(c.value.area) + PAYLOAD] == c.value.payload
    requires s2 == Splice(s1, SlotOff(slot), SlotBytes(c)) && t == Splice(s2, 0, HeaderBytes(n, areas))
    ensures CellOk(t, c, slot)
  {
    hide Splice, SlotBytes, HeaderBytes;
    var pos := AreaPos(c.value.area);
    SpliceElsewhere(s1, SlotOff(slot), SlotBytes(c), pos, pos + PAYLOAD);
    SpliceElsewhere(s2, 0, HeaderBytes(n, areas), pos, pos + PAYLOAD);
    SpliceElsewhere(s2, 0, HeaderBytes(n, areas), SlotOff(slot), SlotOff(slot) + SLOT_SIZE);
  }

  method WritePayload(page: array<Byte>, off: nat, key: seq<Byte>, value: seq<Byte>)
    requires |key| == KEY_SIZE && |value| == VALUE_SIZE && off + PAYLOAD <= page.Length
    modifies page
    ensures page[..] == Splice(old(page[..]), off, NewPayload(key, value))
  {
    hide Splice, ToLe;
    ghost var s := page[..];
    SpliceNothing(s, off);
    Emit(page, off, s, [], 0, key);
    ghost var d := [] + key;
    Emit(page, off, s, d, 16, value);
    d := d + value;
    Emit(page, off, s, d, 1040, ToLe(0, 8));
    d := d + ToLe(0, 8);
    Emit(page, off, s, d, 1048, ToLe(0, 8));
    d := d + ToLe(0, 8);
    Emit(page, off, s, d, 1056, ToLe(0, 2));
    d := d + ToLe(0, 2);
    Emit(page, off, s, d, 1058, ToLe(0, 2));
    d := d + ToLe(0, 2);
    assert [] + key == key;
    assert d == NewPayload(key, value);
  }

  /** Whether a record fits: a payload, and a directory entry if no slot is free. */
  ghost predicate HasRoom(img: Image) {
    var need := if exists i :: 0 <= i < |img.cells| && img.cells[i] == None then PAYLOAD else PAYLOAD + SLOT_SIZE;
    PAGE_SIZE - HEADER_SIZE - SLOT_SIZE * |img.cells| - PAYLOAD * img.areas >= need
  }

  /**
   * Inserts into the lowest free slot, or a new one, and leaves every other slot as it was; fails,
   * changing nothing, exactly when a size is wrong or there is no room.
   */
  method InsertRecord(page: array<Byte>, key: seq<Byte>, value: seq<Byte>, ghost img: Image)
    returns (r: Result<nat, Error>)
    requires page.Length == PAGE_SIZE ==> Holds(page[..], img)
    modifies page
    ensures r.Ok? <==> page.Length == PAGE_SIZE && |key| == KEY_SIZE && |value| == VALUE_SIZE && HasRoom(img)
    ensures r.Err? ==> page[..] == old(page[..])
    ensures r == Err(NoSpace) <==>
              page.Length == PAGE_SIZE && |key| == KEY_SIZE && |value| == VALUE_SIZE && !HasRoom(img)
    ensures r.Ok? ==>
              && r.value <= |img.cells|
              && (forall i :: 0 <= i < r.value ==> img.cells[i].Some?)
              && (r.value < |img.cells| ==> img.cells[r.value] == None)
              && Holds(page[..], Image(Put(img.cells, r.value, Some(Cell(img.areas, NewPayload(key, value)))),
                                       img.areas + 1))
  {
    hide Splice, SlotBytes, HeaderBytes, CellOk, ToLe, FromLe;
    if page.Length != PAGE_SIZE {
      return Err(InvalidPageSize);
    }
    if |key| != KEY_SIZE {
      return Err(InvalidKeySize);
    }
    if |value| != VALUE_SIZE {
      return Err(InvalidValueSize);
    }
    HeaderReads(page[..], img);
    var n, start, end := ReadLe(page[..], 0, 2), ReadLe(page[..], 2, 2), ReadLe(page[..], 4, 2);
    var free := FindFreeSlot(page, n, img);
    var needed := if free == None then PAYLOAD + SLOT_SIZE else PAYLOAD;
    if end - start < needed {
      return Err(NoSpace);
    }
    var slot := if free.Some? then free.value else n;
    if free == None {
      start, n := start + SLOT_SIZE, n + 1;
    }
    var pos := end - PAYLOAD;
    Inserted(page[..], img, slot, NewPayload(key, value));
    InsertedBytes(n, start, pos, img.areas, NewPayload(key, value));
    WritePayload(page, pos, key, value);
    WriteSlot(page, slot, pos, PAYLOAD);
    WriteHeader(page, n, start, pos);
    r := Ok(slot);
  }

  lemma {:induction false} InsertedBytes(n: nat, start: nat, pos: nat, areas: nat, payload: seq<Byte>)
    requires start == HEADER_SIZE + SLOT_SIZE * n && pos == AreaPos(areas) && PAYLOAD * (areas + 1) <= PAGE_SIZE
    ensures SlotBytes(Some(Cell(areas, payload))) == ToLe(pos, 2) + ToLe(PAYLOAD, 2)
    ensures HeaderBytes(n, areas + 1) == ToLe(n, 2) + ToLe(start, 2) + ToLe(pos, 2)
  {
  }

  // ---- Clear ----

  method ClearSlot(page: array<Byte>, slot: nat, ghost img: Image)
    requires page.Length == PAGE_SIZE ==> Holds(page[..], img) && slot < |img.cells|
    modifies page
    ensures page.Length == PAGE_SIZE ==> Holds(page[..], img.(cells := img.cells[slot := None]))
    ensures page.Length != PAGE_SIZE ==> page[..] == old(page[..])
  {
    hide Splice, HeaderBytes, ToLe;
    if page.Length != PAGE_SIZE {
      return;
    }
    Cleared(page[..], img, slot);
    WriteSlot(page, slot, 0, 0);
  }

  lemma Cleared(s: seq<Byte>, img: Image, slot: nat)
    requires Holds(s, img) && slot < |img.cells|
    ensures Holds(Splice(s, SlotOff(slot), SlotBytes(None)), img.(cells := img.cells[slot := None]))
  {
    hide Splice, SlotBytes, HeaderBytes;
    var w := SlotBytes(None);
    var t := Splice(s, SlotOff(slot), w);
    var cells2 := img.cells[slot := None];
    SpliceElsewhere(s, SlotOff(slot), w, 0, HEADER_SIZE);
    forall i | 0 <= i < |cells2| ensures CellOk(t, cells2[i], i) {
      if i != slot {
        assert CellOk(s, img.cells[i], i);
        CellElsewhere(s, SlotOff(slot), w, img.cells[i], i);
      }
    }
  }

  // ---- Read ----

  /** A slot's value, if the slot is live, holds this key and is not a tombstone. */
  function ValueIn(c: Option<Cell>, key: seq<Byte>): Option<seq<Byte>>
    requires c.Some? ==> |c.value.payload| == PAYLOAD
  {
    if c == None || c.value.payload[..KEY_SIZE] != key || ReadLe(c.value.payload, 1058, 2) % 2 == 1 then None
    else Some(c.value.payload[KEY_SIZE..KEY_SIZE + VALUE_SIZE])
  }

  method ReadValue(page: array<Byte>, slot: nat, key: seq<Byte>, ghost img: Image) returns (r: Option<seq<Byte>>)
    requires page.Length == PAGE_SIZE ==> Holds(page[..], img) && slot < |img.cells|
    ensures page.Length == PAGE_SIZE && |key| == KEY_SIZE ==> r == ValueIn(img.cells[slot], key)
    ensures page.Length == PAGE_SIZE && |key| == KEY_SIZE ==>
              (r.Some? <==>
                && img.cells[slot].Some? && img.cells[slot].value.payload[..KEY_SIZE] == key
                && ReadLe(img.cells[slot].value.payload, KEY_SIZE + VALUE_SIZE + 18, 2) % 2 == 0)
    ensures r.Some? ==>
              && page.Length == PAGE_SIZE && img.cells[slot].Some?
              && r.value == img.cells[slot].value.payload[KEY_SIZE..KEY_SIZE + VALUE_SIZE]
    ensures page.Length != PAGE_SIZE || |key| != KEY_SIZE ==> r == None
  {
    hide HeaderBytes, ToLe, FromLe, SlotBytes;
    if page.Length != PAGE_SIZE || |key| != KEY_SIZE {
      return None;
    }
    assert CellOk(page[..], img.cells[slot], slot);
    SlotReads(page[..], img.cells[slot], slot);
    var pos, len := ReadLe(page[..], SlotOff(slot), 2), ReadLe(page[..], SlotOff(slot) + 2, 2);
    if len != PAYLOAD {
      return None;
    }
    ghost var payload := img.cells[slot].value.payload;
    SubSlice(page[..], pos, pos + PAYLOAD, 0, KEY_SIZE);
    SubSlice(page[..], pos, pos + PAYLOAD, KEY_SIZE, KEY_SIZE + VALUE_SIZE);
    SubSlice(page[..], pos, pos + PAYLOAD, 1058, 1060);
    assert payload[0..KEY_SIZE] == payload[..KEY_SIZE];
    if page[..][pos..pos + KEY_SIZE] != key {
      return None;
    }
    if ReadLe(page[..], pos + 1058, 2) % 2 == 1 {
      return None;
    }
    r := Some(page[..][pos + KEY_SIZE..pos + KEY_SIZE + VALUE_SIZE]);
  }

  lemma {:induction false} ZeroBytes(n: nat)
    ensures forall i :: 0 <= i < n ==> ToLe(0, n)[i] == 0
  {
    if n > 0 {
      ZeroBytes(n - 1);
    }
  }

  /** A record just inserted reads back under its slot and its key. */
  lemma InsertedReads(areas: nat, key: seq<Byte>, value: seq<Byte>)
    requires |key| == KEY_SIZE && |value| == VALUE_SIZE
    ensures |NewPayload(key, value)| == PAYLOAD
    ensures ValueIn(Some(Cell(areas, NewPayload(key, value))), key) == Some(value)
    ensures NewPayload(key, value)[..KEY_SIZE + VALUE_SIZE] == key + value
    ensures forall i :: KEY_SIZE + VALUE_SIZE <= i < PAYLOAD ==> NewPayload(key, value)[i] == 0
  {
    Pow256Values();
    LeRoundTrip(0, 2);
    hide ToLe, FromLe;
    var w := NewPayload(key, value);
    var p1058 := key + value + ToLe(0, 8) + ToLe(0, 8) + ToLe(0, 2);
    assert w == p1058 + ToLe(0, 2) && w[..|w|] == w;
    SplitPrefix(w, p1058, ToLe(0, 2));
    assert w[..|key| + |value|] == p1058[..|key| + |value|] == key + value;
    SplitPrefix(w, key, value);
    ZeroBytes(2);
    ZeroBytes(8);
  }

  // ---- Overwrite ----

  function WithValue(payload: seq<Byte>, value: seq<Byte>): (w: seq<Byte>)
    requires |payload| == PAYLOAD && |value| == VALUE_SIZE
    ensures |w| == PAYLOAD && w[KEY_SIZE..KEY_SIZE + VALUE_SIZE] == value
    ensures w[..KEY_SIZE] == payload[..KEY_SIZE] && w[KEY_SIZE + VALUE_SIZE..] == payload[KEY_SIZE + VALUE_SIZE..]
  {
    payload[..KEY_SIZE] + value + payload[KEY_SIZE + VALUE_SIZE..]
  }

  lemma Overwritten(s: seq<Byte>, img: Image, slot: nat, value: seq<Byte>)
    requires Holds(s, img) && slot < |img.cells| && img.cells[slot].Some? && |value| == VALUE_SIZE
    ensures var cell := img.cells[slot].value;
            Holds(Splice(s, AreaPos(cell.area) + KEY_SIZE, value),
                  img.(cells := img.cells[slot := Some(cell.(payload := WithValue(cell.payload, value)))]))
  {
    hide Splice, SlotBytes, HeaderBytes;
    var cell := img.cells[slot].value;
    assert CellOk(s, img.cells[slot], slot);
    var (pos, off) := (AreaPos(cell.area), AreaPos(cell.area) + KEY_SIZE);
    var t := Splice(s, off, value);
    SpliceElsewhere(s, off, value, 0, HEADER_SIZE);
    var cells2 := img.cells[slot := Some(cell.(payload := WithValue(cell.payload, value)))];
    forall i | 0 <= i < |cells2| ensures CellOk(t, cells2[i], i) {
      assert CellOk(s, img.cells[i], i);
      if i != slot {
        CellElsewhere(s, off, value, img.cells[i], i);
      } else {
        SpliceElsewhere(s, off, value, SlotOff(i), SlotOff(i) + SLOT_SIZE);
        ValueReplaced(s, pos, value);
        PackedBytes(cell.area, cell.payload);
        PackedBytes(cell.area, WithValue(cell.payload, value));
      }
    }
  }

  lemma ValueReplaced(s: seq<Byte>, pos: nat, value: seq<Byte>)
    requires pos + PAYLOAD <= |s| && |value| == VALUE_SIZE
    ensures Splice(s, pos + KEY_SIZE, value)[pos..pos + PAYLOAD] == WithValue(s[pos..pos + PAYLOAD], value)
  {
    hide Splice;
    var (t, a, b, e) := (Splice(s, pos + KEY_SIZE, value), pos + KEY_SIZE, pos + KEY_SIZE + VALUE_SIZE, pos + PAYLOAD);
    SpliceElsewhere(s, a, value, pos, a);
    SpliceElsewhere(s, a, value, b, e);
    JoinSlices(t, pos, a, b);
    JoinSlices(t, pos, b, e);
    var w := s[pos..e];
    assert w[..KEY_SIZE] == s[pos..a] && w[KEY_SIZE + VALUE_SIZE..] == s[b..e];
  }

  /** Overwrites the value of a live slot whose key matches; anything else is refused unchanged. */
  method OverwriteValue(page: array<Byte>, slot: nat, key: seq<Byte>, value: seq<Byte>, ghost img: Image)
    returns (e: Option<Error>)
    requires page.Length == PAGE_SIZE ==> Holds(page[..], img) && slot < |img.cells|
    modifies page
    ensures e == None <==> page.Length == PAGE_SIZE && |key| == KEY_SIZE && |value| == VALUE_SIZE
                           && img.cells[slot].Some? && img.cells[slot].value.payload[..KEY_SIZE] == key
    ensures e.Some? ==> page[..] == old(page[..])
    ensures e == Some(SlotMismatch) <==>
              && page.Length == PAGE_SIZE && |key| == KEY_SIZE && |value| == VALUE_SIZE
              && (img.cells[slot] == None || img.cells[slot].value.payload[..KEY_SIZE] != key)
    ensures e == None ==>
              var cell := img.cells[slot].value;
              Holds(page[..], img.(cells := img.cells[slot := Some(cell.(payload := WithValue(cell.payload, value)))]))
  {
    hide Splice, HeaderBytes, ToLe, FromLe, SlotBytes;
    if page.Length != PAGE_SIZE {
      return Some(InvalidPageSize);
    }
    if |key| != KEY_SIZE {
      return Some(InvalidKeySize);
    }
    if |value| != VALUE_SIZE {
      return Some(InvalidValueSize);
    }
    assert CellOk(page[..], img.cells[slot], slot);
    SlotReads(page[..], img.cells[slot], slot);
    var pos, len := ReadLe(page[..], SlotOff(slot), 2), ReadLe(page[..], SlotOff(slot) + 2, 2);
    if len != PAYLOAD {
      return Some(SlotMismatch);
    }
    SubSlice(page[..], pos, pos + PAYLOAD, 0, KEY_SIZE);
    ghost var payload := img.cells[slot].value.payload;
    assert payload[0..KEY_SIZE] == payload[..KEY_SIZE];
    if page[..][pos..pos + KEY_SIZE] != key {
      return Some(SlotMismatch);
    }
    Overwritten(page[..], img, slot, value);
    CopyInto(page, pos + KEY_SIZE, value);
    e := None;
  }

  // ---- Defragment ----

  /** The slots with their payloads packed, in slot order, at the end of the page. */
  ghost function Packed(cells: seq<Option<Cell>>): (out: seq<Option<Cell>>)
    ensures |out| == |cells|
    ensures forall i :: 0 <= i < |cells| ==> out[i] == PackedCell(cells, i)
    ensures forall i :: 0 <= i < |cells| ==>
              && (out[i].Some? <==> cells[i].Some?)
              && (out[i].Some? ==> out[i].value.payload == cells[i].value.payload)
  {
    seq(|cells|, i requires 0 <= i < |cells| => PackedCell(cells, i))
  }

  ghost function PackedCell(cells: seq<Option<Cell>>, i: nat): Option<Cell>
    requires i < |cells|
  {
    if cells[i].Some? then Some(Cell(Live(cells[..i]), cells[i].value.payload)) else None
  }

  lemma LiveStep(cells: seq<Option<Cell>>, i: nat)
    requires i < |cells|
    ensures Live(cells[..i + 1]) == Live(cells[..i]) + (if cells[i].Some? then 1 else 0)
  {
    assert cells[..i + 1][..i] == cells[..i];
  }

  lemma {:induction false} LiveGrows(cells: seq<Option<Cell>>, i: nat, j: nat)
    requires i <= j <= |cells|
    ensures Live(cells[..i]) <= Live(cells[..j])
    decreases j
  {
    if i < j {
      LiveGrows(cells, i, j - 1);
      LiveStep(cells, j - 1);
    }
  }

  lemma PackedOk(img: Image)
    requires ImageOk(img)
    ensures ImageOk(Image(Packed(img.cells), Live(img.cells)))
  {
    var (cells, out) := (img.cells, Packed(img.cells));
    LiveBound(img);
    assert cells[..|cells|] == cells;
    forall i | 0 <= i < |out| && out[i].Some?
      ensures out[i].value.area < Live(cells)
    {
      LiveStep(cells, i);
      LiveGrows(cells, i + 1, |cells|);
    }
    forall i, j | 0 <= i < j < |out| && out[i].Some? && out[j].Some?
      ensures out[i].value.area != out[j].value.area
    {
      LiveStep(cells, i);
      LiveGrows(cells, i + 1, j);
    }
  }

  // What a page looks like when the first `i` slots have been packed and the rest not yet.
  ghost predicate HalfPacked(s: seq<Byte>, img: Image, i: nat)
    requires |s| == PAGE_SIZE && ImageOk(img) && i <= |img.cells|
  {
    && s[0..HEADER_SIZE] == HeaderBytes(|img.cells|, img.areas)
    && (forall j :: 0 <= j < i ==> CellOk(s, Packed(img.cells)[j], j))
    && (forall j :: i <= j < |img.cells| ==> DirOk(s, img.cells[j], j))
  }

  lemma DirElsewhere(s: seq<Byte>, off: nat, data: seq<Byte>, c: Option<Cell>, i: nat)
    requires |s| == PAGE_SIZE && off + |data| <= PAGE_SIZE && DirOk(s, c, i)
    requires off + |data| <= SlotOff(i) || SlotOff(i) + SLOT_SIZE <= off
    ensures DirOk(Splice(s, off, data), c, i)
  {
    hide Splice, SlotBytes;
    SpliceElsewhere(s, off, data, SlotOff(i), SlotOff(i) + SLOT_SIZE);
  }

  lemma PackOne(s: seq<Byte>, img: Image, i: nat)
    requires |s| == PAGE_SIZE && ImageOk(img) && i < |img.cells| && img.cells[i].Some? && HalfPacked(s, img, i)
    ensures var c := Packed(img.cells)[i];
            && c.Some? && c.value == Cell(Live(img.cells[..i]), img.cells[i].value.payload)
            && SlotOff(|img.cells|) <= AreaPos(c.value.area) && |c.value.payload| == PAYLOAD
            && HalfPacked(Splice(Splice(s, AreaPos(c.value.area), c.value.payload), SlotOff(i), SlotBytes(c)), img,
                          i + 1)
  {
    hide Splice, SlotBytes, HeaderBytes, CellOk, DirOk, Live, Packed;
    PackedOk(img);
    LiveBound(img);
    var (cells, out) := (img.cells, Packed(img.cells));
    var c := out[i];
    var pos := AreaPos(c.value.area);
    var s1 := Splice(s, pos, c.value.payload);
    var t := Splice(s1, SlotOff(i), SlotBytes(c));
    SpliceElsewhere(s, pos, c.value.payload, 0, HEADER_SIZE);
    SpliceElsewhere(s1, SlotOff(i), SlotBytes(c), 0, HEADER_SIZE);
    forall j | 0 <= j < i ensures CellOk(t, out[j], j) {
      CellElsewhere(s, pos, c.value.payload, out[j], j);
      CellElsewhere(s1, SlotOff(i), SlotBytes(c), out[j], j);
    }
    PackedHere(s1, t, c, i);
    forall j | i < j < |cells| ensures DirOk(t, cells[j], j) {
      DirElsewhere(s, pos, c.value.payload, cells[j], j);
      DirElsewhere(s1, SlotOff(i), SlotBytes(c), cells[j], j);
    }
  }

  lemma PackedHere(s1: seq<Byte>, t: seq<Byte>, c: Option<Cell>, i: nat)
    requires c.Some? && |s1| == PAGE_SIZE && SlotOff(i) + SLOT_SIZE <= AreaPos(c.value.area) <= PAGE_SIZE - PAYLOAD
    requires s1[AreaPos(c.value.area)..AreaPos(c.value.area) + PAYLOAD] == c.value.payload
    requires t == Splice(s1, SlotOff(i), SlotBytes(c))
    ensures CellOk(t, c, i)
  {
    hide Splice, SlotBytes;
    SpliceElsewhere(s1, SlotOff(i), SlotBytes(c), AreaPos(c.value.area), AreaPos(c.value.area) + PAYLOAD);
  }

  lemma SkipOne(s: seq<Byte>, img: Image, i: nat)
    requires |s| == PAGE_SIZE && ImageOk(img) && i < |img.cells| && img.cells[i] == None && HalfPacked(s, img, i)
    ensures HalfPacked(s, img, i + 1)
  {
    hide SlotBytes, HeaderBytes, Live;
  }

  lemma PackedHeader(s: seq<Byte>, img: Image)
    requires |s| == PAGE_SIZE && ImageOk(img) && HalfPacked(s, img, |img.cells|)
    ensures PAYLOAD * Live(img.cells) <= PAGE_SIZE
    ensures Holds(Splice(s, 0, HeaderBytes(|img.cells|, Live(img.cells))), Image(Packed(img.cells), Live(img.cells)))
  {
    hide Splice, SlotBytes, HeaderBytes, CellOk, Live, Packed;
    PackedOk(img);
    var (out, w) := (Packed(img.cells), HeaderBytes(|img.cells|, Live(img.cells)));
    forall i | 0 <= i < |out| ensures CellOk(Splice(s, 0, w), out[i], i) {
      CellElsewhere(s, 0, w, out[i], i);
    }
  }

  lemma NothingPacked(s: seq<Byte>, img: Image)
    requires Holds(s, img)
    ensures HalfPacked(s, img, 0)
  {
    hide SlotBytes, HeaderBytes;
  }

  /** The payloads of the live slots, copied out of the page before anything moves. */
  method CollectLive(page: array<Byte>, n: nat, ghost img: Image) returns (saved: seq<Option<seq<Byte>>>)
    requires Holds(page[..], img) && n == |img.cells|
    ensures |saved| == n
    ensures forall i :: 0 <= i < n ==>
              saved[i] == if img.cells[i].Some? then Some(img.cells[i].value.payload) else None
  {
    hide HeaderBytes, SlotBytes, FromLe;
    saved := [];
    var i := 0;
    while i < n
      invariant i == |saved| <= n
      invariant forall j :: 0 <= j < i ==>
                  saved[j] == if img.cells[j].Some? then Some(img.cells[j].value.payload) else None
    {
      assert CellOk(page[..], img.cells[i], i);
      SlotReads(page[..], img.cells[i], i);
      var pos, len := ReadLe(page[..], SlotOff(i), 2), ReadLe(page[..], SlotOff(i) + 2, 2);
      if len == 0 {
        saved := saved + [None];
      } else {
        saved := saved + [Some(page[..][pos..pos + len])];
      }
      i := i + 1;
    }
  }

  method PackSlot(page: array<Byte>, i: nat, payload: seq<Byte>, freeEnd: nat, ghost img: Image) returns (pos: nat)
    requires page.Length == PAGE_SIZE && ImageOk(img) && i < |img.cells| && HalfPacked(page[..], img, i)
    requires img.cells[i].Some? && img.cells[i].value.payload == payload
    requires freeEnd == PAGE_SIZE - PAYLOAD * Live(img.cells[..i])
    modifies page
    ensures HalfPacked(page[..], img, i + 1) && pos == freeEnd - PAYLOAD
  {
    hide HeaderBytes, SlotBytes, ToLe, Splice, HalfPacked, Packed, Live;
    PackOne(page[..], img, i);
    PackedBytes(Live(img.cells[..i]), payload);
    pos := freeEnd - PAYLOAD;
    CopyInto(page, pos, payload);
    WriteSlot(page, i, pos, PAYLOAD);
  }

  /**
   * Packs the live payloads at the end of the page: every slot keeps its id and its bytes, and
   * what is free afterwards is everything but the header, the directory and the live payloads.
   */
  method Defragment(page: array<Byte>, ghost img: Image) returns (e: Option<Error>)
    requires page.Length == PAGE_SIZE ==> Holds(page[..], img)
    modifies page
    ensures e == None <==> page.Length == PAGE_SIZE
    ensures e.Some? ==> page[..] == old(page[..])
    ensures e == None ==> Holds(page[..], Image(Packed(img.cells), Live(img.cells)))
  {
    hide HeaderBytes, SlotBytes, FromLe, ToLe, Splice, HalfPacked, CellOk, Packed, Live;
    if page.Length != PAGE_SIZE {
      return Some(InvalidPageSize);
    }
    HeaderReads(page[..], img);
    var n, start := ReadLe(page[..], 0, 2), ReadLe(page[..], 2, 2);
    var saved := CollectLive(page, n, img);
    NothingPacked(page[..], img);
    NoneLive(img.cells);
    var freeEnd, i := PAGE_SIZE, 0;
    while i < n
      invariant i <= n && page.Length == PAGE_SIZE && HalfPacked(page[..], img, i)
      invariant 0 <= freeEnd == PAGE_SIZE - PAYLOAD * Live(img.cells[..i])
    {
      LiveStep(img.cells, i);
      match saved[i] {
        case Some(payload) =>
          freeEnd := PackSlot(page, i, payload, freeEnd, img);
        case None =>
          SkipOne(page[..], img, i);
      }
      i := i + 1;
    }
    assert img.cells[..i] == img.cells;
    PackedHeader(page[..], img);
    HeaderIs(n, start, freeEnd, Live(img.cells));
    WriteHeader(page, n, start, freeEnd);
    e := None;
  }

  lemma NoneLive(cells: seq<Option<Cell>>)
    ensures Live(cells[..0]) == 0
  {
  }

  lemma PackedBytes(k: nat, payload: seq<Byte>)
    requires AreaPos(k) >= 0
    ensures SlotBytes(Some(Cell(k, payload))) == ToLe(AreaPos(k), 2) + ToLe(PAYLOAD, 2)
  {
  }

  lemma {:induction false} HeaderIs(n: nat, start: nat, end: nat, areas: nat)
    requires start == HEADER_SIZE + SLOT_SIZE * n && PAYLOAD * areas <= PAGE_SIZE && end == PAGE_SIZE - PAYLOAD * areas
    ensures HeaderBytes(n, areas) == ToLe(n, 2) + ToLe(start, 2) + ToLe(end, 2)
  {
  }
}
