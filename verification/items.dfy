/** Ships (`item_t`), the ship table (`bs_get_item`) and the five-slot fleet
    array with its first-free-slot insertion (`bs_add_item`). */
module Items {

  import opened Wrappers
  import opened Cells
  import opened Geometry

  /** Codes stored in an item's `type` and in the placement maps. */
  const PLACE_BLANK: Byte := 0
  const PLACE_AC: Byte := 1
  const PLACE_BS: Byte := 2
  const PLACE_DS: Byte := 3
  const PLACE_SB: Byte := 4
  const PLACE_PB: Byte := 5
  /** The `type` of a fleet slot that holds no ship. */
  const PLACE_HIT_INVALID: Byte := 0xFF

  /** `game_item_t`, in declaration order. */
  datatype ItemKind = AircraftCarrier | Battleship | Destroyer | Submarine | PatrolBoat

  /** The C enumerator value of a kind: its position in the declaration. */
  function Ordinal(k: ItemKind): nat
  {
    match k
    case AircraftCarrier => 0
    case Battleship => 1
    case Destroyer => 2
    case Submarine => 3
    case PatrolBoat => 4
  }

  /** `item_t`. A field the program never wrote is `None`; its contents are
      unspecified. */
  datatype Item = Item(
    code: Byte,
    rotation: Option<Byte>,
    places: Option<Byte>,
    sizeNormal: Option<Vec2>,
    sizeHovering: Option<Vec2>,
    pos: Option<Vec2>)
  {
    predicate IsEmptySlot() { code == PLACE_HIT_INVALID }
  }

  /** An item whose only written field is its type code. */
  function TypeOnly(code: Byte): Item
  {
    Item(code, None, None, None, None, None)
  }

  /** `bs_get_item`: the carrier and the battleship are fully described
      (lengths 5 and 4, horizontal); the other three kinds get their type
      code and nothing else. */
  function GetItem(k: ItemKind): (r: Item)
    ensures r.code == Ordinal(k) + 1
    ensures r.code != PLACE_BLANK && !r.IsEmptySlot()
    ensures r.places.Some? <==> k == AircraftCarrier || k == Battleship
    ensures r.rotation.Some? <==> k == AircraftCarrier || k == Battleship
    ensures k == AircraftCarrier ==> r.places == Some(5) && r.rotation == Some(0)
    ensures k == Battleship ==> r.places == Some(4) && r.rotation == Some(0)
    ensures !(k == AircraftCarrier || k == Battleship) ==> r == TypeOnly(r.code)
    ensures r.pos == None
  {
    match k
    case AircraftCarrier =>
      Item(PLACE_AC, Some(0), Some(5), Some(Vec2(0.0, 0.0)), Some(Vec2(10.0, 135.0)), None)
    case Battleship =>
      Item(PLACE_BS, Some(0), Some(4), Some(Vec2(10.0, 100.0)), Some(Vec2(0.0, 0.0)), None)
    case Destroyer => TypeOnly(PLACE_DS)
    case Submarine => TypeOnly(PLACE_SB)
    case PatrolBoat => TypeOnly(PLACE_PB)
  }

  /** The kind whose ship carries the given type code, as the selection
      screen pairs keys 1..5 with `PLACE_AC`..`PLACE_PB`. */
  function KindOfCode(code: Byte): (r: Option<ItemKind>)
    ensures r.Some? <==> PLACE_AC <= code <= PLACE_PB
  {
    if code == PLACE_AC then Some(AircraftCarrier)
    else if code == PLACE_BS then Some(Battleship)
    else if code == PLACE_DS then Some(Destroyer)
    else if code == PLACE_SB then Some(Submarine)
    else if code == PLACE_PB then Some(PatrolBoat)
    else None
  }

  /** The type code of `GetItem(k)` identifies `k`, and every code 1..5 is the
      code of exactly the kind `KindOfCode` names. */
  lemma GetItemCodeRoundTrip(k: ItemKind, code: Byte)
    ensures KindOfCode(GetItem(k).code) == Some(k)
    ensures PLACE_AC <= code <= PLACE_PB ==> GetItem(KindOfCode(code).value).code == code
  {
  }

  /** Different kinds never share a type code. */
  lemma GetItemInjective(k1: ItemKind, k2: ItemKind)
    ensures GetItem(k1).code == GetItem(k2).code <==> k1 == k2
  {
    GetItemCodeRoundTrip(k1, 0);
    GetItemCodeRoundTrip(k2, 0);
  }

  /** `item_t items[5]` */
  type Fleet = s: seq<Item> | |s| == 5 witness EmptyFleet()

  /** Five slots each holding nothing but the `PLACE_HIT_INVALID` type. */
  function EmptyFleet(): (f: seq<Item>)
    ensures |f| == 5 && forall i :: 0 <= i < 5 ==> f[i] == TypeOnly(PLACE_HIT_INVALID)
  {
    seq(5, _ => TypeOnly(PLACE_HIT_INVALID))
  }

  /** Slot `k` is empty and no lower slot is. */
  predicate IsFirstFree(fleet: Fleet, k: int)
  {
    0 <= k < 5 && fleet[k].IsEmptySlot() && forall j :: 0 <= j < k ==> !fleet[j].IsEmptySlot()
  }

  predicate HasFree(fleet: Fleet)
  {
    exists k :: 0 <= k < 5 && fleet[k].IsEmptySlot()
  }

  datatype AddResult = AddResult(added: bool, fleet: Fleet)

  /** The loop of `bs_add_item` from index `i` on, every slot below `i`
      being already known to be occupied. */
  function AddFrom(fleet: Fleet, item: Item, i: nat): (r: AddResult)
    requires i <= 5
    ensures r.added <==> exists k :: i <= k < 5 && fleet[k].IsEmptySlot()
    ensures forall k :: i <= k < 5 && fleet[k].IsEmptySlot() && (forall j :: i <= j < k ==> !fleet[j].IsEmptySlot())
              ==> r.fleet == fleet[k := item]
    ensures !r.added ==> r.fleet == fleet
    decreases 5 - i
  {
    if i == 5 then AddResult(false, fleet)
    else if fleet[i].code == PLACE_HIT_INVALID then AddResult(true, fleet[i := item])
    else AddFrom(fleet, item, i + 1)
  }

  /** `bs_add_item`: the item is copied into the lowest empty slot and the
      call reports whether there was one. Nothing about the item is checked. */
  function AddItem(fleet: Fleet, item: Item): (r: AddResult)
    ensures r.added <==> HasFree(fleet)
    ensures forall k :: IsFirstFree(fleet, k) ==> r.fleet == fleet[k := item]
    ensures !r.added ==> r.fleet == fleet
  {
    AddFrom(fleet, item, 0)
  }

  /** On success exactly one slot changed, it was the first empty one, and it
      now holds the item. */
  lemma AddItemFrame(fleet: Fleet, item: Item)
    requires AddItem(fleet, item).added
    ensures exists k :: IsFirstFree(fleet, k)
              && AddItem(fleet, item).fleet[k] == item
              && forall j :: 0 <= j < 5 && j != k ==> AddItem(fleet, item).fleet[j] == fleet[j]
  {
    var k :| 0 <= k < 5 && fleet[k].IsEmptySlot();
    FirstFreeExists(fleet, k);
  }

  lemma {:induction false} FirstFreeExists(fleet: Fleet, k: int)
    requires 0 <= k < 5 && fleet[k].IsEmptySlot()
    ensures exists m :: IsFirstFree(fleet, m)
    decreases k
  {
    if forall j :: 0 <= j < k ==> !fleet[j].IsEmptySlot() {
      assert IsFirstFree(fleet, k);
    } else {
      var j :| 0 <= j < k && fleet[j].IsEmptySlot();
      FirstFreeExists(fleet, j);
    }
  }

  /** Successive `bs_add_item` calls, one per item, collecting the results. */
  function AddAll(fleet: Fleet, items: seq<Item>): (r: (seq<bool>, Fleet))
    ensures |r.0| == |items|
    decreases |items|
  {
    if |items| == 0 then ([], fleet)
    else
      var first := AddItem(fleet, items[0]);
      var rest := AddAll(first.fleet, items[1..]);
      ([first.added] + rest.0, rest.1)
  }

  function Min(a: int, b: int): int { if a <= b then a else b }

  /** The ships that go in after the first `n` slots are occupied. */
  predicate FilledUpTo(fleet: Fleet, n: nat)
  {
    && n <= 5
    && (forall j :: 0 <= j < n ==> !fleet[j].IsEmptySlot())
    && (forall j :: n <= j < 5 ==> fleet[j].IsEmptySlot())
  }

  predicate AllShips(items: seq<Item>)
  {
    forall i :: 0 <= i < |items| ==> !items[i].IsEmptySlot()
  }

  /** A fleet whose first `n` slots are occupied and whose remaining slots are
      empty accepts exactly `5 - n` more ships. */
  lemma {:induction false} AddAllAccepts(fleet: Fleet, n: nat, items: seq<Item>)
    requires FilledUpTo(fleet, n) && AllShips(items)
    ensures forall i :: 0 <= i < |items| ==> (AddAll(fleet, items).0[i] <==> n + i < 5)
    decreases |items|
  {
    if |items| > 0 {
      var first := AddItem(fleet, items[0]);
      var rest := AddAll(first.fleet, items[1..]);
      var r := AddAll(fleet, items);
      assert r.0 == [first.added] + rest.0;
      if n < 5 {
        AddIntoFirstFree(fleet, n, items[0]);
        AddAllAccepts(first.fleet, n + 1, items[1..]);
      } else {
        AddIntoFull(fleet, items[0]);
        AddAllAccepts(fleet, n, items[1..]);
      }
      forall i | 0 <= i < |items|
        ensures r.0[i] <==> n + i < 5
      {
        if i > 0 {
          assert r.0[i] == rest.0[i - 1];
        }
      }
    }
  }

  /** The fleet after `items` have gone, in order, into the free slots from
      `n` on: as many as fit, the rest of the fleet untouched. */
  function Placed(fleet: Fleet, n: nat, items: seq<Item>): (r: seq<Item>)
    requires n <= 5
    ensures |r| == 5
    ensures forall j :: 0 <= j < 5 ==> r[j] == if n <= j < n + Min(5 - n, |items|) then items[j - n] else fleet[j]
  {
    seq(5, j requires 0 <= j < 5 => if n <= j < n + Min(5 - n, |items|) then items[j - n] else fleet[j])
  }

  /** ... and places them in slot order after the occupied ones, leaving
      every other slot as it was. */
  lemma {:induction false} AddAllPlaces(fleet: Fleet, n: nat, items: seq<Item>)
    requires FilledUpTo(fleet, n) && AllShips(items)
    ensures AddAll(fleet, items).1 == Placed(fleet, n, items)
    decreases |items|
  {
    if |items| == 0 {
      assert Placed(fleet, n, items) == fleet;
    } else {
      var first := AddItem(fleet, items[0]);
      var tail := items[1..];
      assert AddAll(fleet, items).1 == AddAll(first.fleet, tail).1;
      if n < 5 {
        AddIntoFirstFree(fleet, n, items[0]);
        AddAllPlaces(first.fleet, n + 1, tail);
        PlacedShift(fleet, n, items);
      } else {
        AddIntoFull(fleet, items[0]);
        AddAllPlaces(fleet, n, tail);
        assert Placed(fleet, 5, items) == fleet == Placed(fleet, 5, tail);
      }
    }
  }

  /** One step of `AddAllPlaces`: putting `items[0]` in slot `n` and the rest
      after it is putting all of `items` from slot `n` on. */
  lemma PlacedShift(fleet: Fleet, n: nat, items: seq<Item>)
    requires n < 5 && |items| > 0
    ensures Placed(fleet[n := items[0]], n + 1, items[1..]) == Placed(fleet, n, items)
  {
    var a := Placed(fleet[n := items[0]], n + 1, items[1..]);
    var b := Placed(fleet, n, items);
    forall j | 0 <= j < 5
      ensures a[j] == b[j]
    {
      if n < j < n + Min(5 - n, |items|) {
        assert items[1..][j - (n + 1)] == items[j - n];
      }
    }
  }

  lemma AddIntoFirstFree(fleet: Fleet, n: nat, item: Item)
    requires n < 5
    requires forall j :: 0 <= j < n ==> !fleet[j].IsEmptySlot()
    requires fleet[n].IsEmptySlot()
    ensures AddItem(fleet, item) == AddResult(true, fleet[n := item])
  {
    assert IsFirstFree(fleet, n);
  }

  lemma AddIntoFull(fleet: Fleet, item: Item)
    requires forall j :: 0 <= j < 5 ==> !fleet[j].IsEmptySlot()
    ensures AddItem(fleet, item) == AddResult(false, fleet)
  {
  }

  /** Five ships go into an empty fleet in order; every further one is
      refused and leaves the fleet as it is. */
  lemma EmptyFleetTakesFive(items: seq<Item>)
    requires AllShips(items)
    ensures forall i :: 0 <= i < |items| ==> (AddAll(EmptyFleet(), items).0[i] <==> i < 5)
    ensures |items| >= 5 ==> AddAll(EmptyFleet(), items).1 == items[..5]
  {
    var empty: Fleet := EmptyFleet();
    assert FilledUpTo(empty, 0);
    AddAllAccepts(empty, 0, items);
    AddAllPlaces(empty, 0, items);
    if |items| >= 5 {
      PlacedFromEmpty(items);
    }
  }

  lemma PlacedFromEmpty(items: seq<Item>)
    requires |items| >= 5
    ensures Placed(EmptyFleet(), 0, items) == items[..5]
  {
    var placed := Placed(EmptyFleet(), 0, items);
    assert forall j :: 0 <= j < 5 ==> placed[j] == items[..5][j];
  }
}
