/** `board_t`: both players' placement maps, hit maps and fleets, and the
    blank board `bs_new_board` produces. */
module Board {

  import opened Cells
  import opened Items

  /** No shot recorded at a cell. */
  const HIT_BLANK: Byte := 0

  datatype Board = Board(
    aPlaces: Map10,
    bPlaces: Map10,
    aHitmap: Map10,
    bHitmap: Map10,
    aItems: Fleet,
    bItems: Fleet)

  predicate AllEqual(m: Map10, v: Byte)
  {
    forall x, y :: 0 <= x < SIDE && 0 <= y < SIDE ==> m[x][y] == v
  }

  /** Every map entry blank and every fleet slot holding nothing but the
      empty-slot marker. */
  predicate IsBlank(b: Board)
  {
    && AllEqual(b.aPlaces, PLACE_BLANK) && AllEqual(b.bPlaces, PLACE_BLANK)
    && AllEqual(b.aHitmap, HIT_BLANK) && AllEqual(b.bHitmap, HIT_BLANK)
    && (forall i :: 0 <= i < 5 ==> b.aItems[i] == TypeOnly(PLACE_HIT_INVALID))
    && (forall i :: 0 <= i < 5 ==> b.bItems[i] == TypeOnly(PLACE_HIT_INVALID))
  }

  /** `bs_new_board`: all four maps blank, all ten fleet slots marked empty;
      the other item fields are left unwritten. */
  function NewBoard(): (b: Board)
    ensures AllEqual(b.aPlaces, PLACE_BLANK) && AllEqual(b.bPlaces, PLACE_BLANK)
    ensures AllEqual(b.aHitmap, HIT_BLANK) && AllEqual(b.bHitmap, HIT_BLANK)
    ensures forall i :: 0 <= i < 5 ==> b.aItems[i].IsEmptySlot() && b.bItems[i].IsEmptySlot()
    ensures b.aItems == EmptyFleet() && b.bItems == EmptyFleet()
  {
    Board(Filled(PLACE_BLANK), Filled(PLACE_BLANK), Filled(HIT_BLANK), Filled(HIT_BLANK),
          EmptyFleet(), EmptyFleet())
  }

  /** The new board is the one and only blank board. */
  lemma NewBoardIsTheBlankBoard(b: Board)
    ensures IsBlank(b) <==> b == NewBoard()
  {
    var n := NewBoard();
    if IsBlank(b) {
      MapsEqual(b.aPlaces, n.aPlaces);
      MapsEqual(b.bPlaces, n.bPlaces);
      MapsEqual(b.aHitmap, n.aHitmap);
      MapsEqual(b.bHitmap, n.bHitmap);
      assert b.aItems == n.aItems;
      assert b.bItems == n.bItems;
    }
  }

  /** Either fleet of a new board accepts five ships, in slot order, and
      refuses the sixth without change. */
  lemma NewBoardFleetTakesFive(items: seq<Item>)
    requires |items| == 6
    requires forall i :: 0 <= i < 6 ==> !items[i].IsEmptySlot()
    ensures var r := AddAll(NewBoard().aItems, items);
            (forall i :: 0 <= i < 5 ==> r.0[i]) && !r.0[5] && r.1 == items[..5]
    ensures AddAll(NewBoard().bItems, items) == AddAll(NewBoard().aItems, items)
  {
    EmptyFleetTakesFive(items);
  }
}
