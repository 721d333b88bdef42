/** The Wishlist table and the three handlers that change it:
    `add_to_wishlist`, `delete_from_wishlist` and `update_wishlist_item`.
    The table maps a row id to its entry; the flash notice a handler shows
    is returned as a value. */
module Wishlists {
  import opened Wrappers
  import opened Text
  import opened Games

  type WishlistId = int

  /** A row of the Wishlist table; `targetPrice` is in dollars. */
  datatype WishlistEntry = WishlistEntry(gameId: GameId, targetPrice: Option<real>)

  datatype FlashCategory = Success | Danger

  /** The notices the handlers flash. */
  datatype Notice =
    | Removed(gameName: string)
    | TargetUpdated(gameName: string, price: real)
    | NotFound
    | InvalidSubmission
  {
    function Category(): FlashCategory
    {
      match this
      case Removed(_) => Success
      case TargetUpdated(_, _) => Success
      case NotFound => Danger
      case InvalidSubmission => Danger
    }

    function Message(): string
    {
      match this
      case Removed(name) => name + " has been removed from your wishlist."
      case TargetUpdated(name, price) => "Updated target price for " + name + " to $" + Fixed2(price) + "."
      case NotFound => "Wishlist item not found."
      case InvalidSubmission => "Invalid form submission."
    }
  }

  type Wishlist = map<WishlistId, WishlistEntry>

  /** Every entry refers to an existing game (the foreign key). */
  predicate RefsValid(wl: Wishlist, gameCount: nat)
  {
    forall id | id in wl :: 1 <= wl[id].gameId <= gameCount
  }

  /** `Wishlist.query.filter_by(game_id=g).first()` finds a row. */
  predicate HasEntryFor(wl: Wishlist, g: GameId)
  {
    exists id | id in wl :: wl[id].gameId == g
  }

  ghost function EntriesFor(wl: Wishlist, g: GameId): set<WishlistId>
  {
    set id | id in wl && wl[id].gameId == g
  }

  /** The intent of the duplicate check: at most one entry per game. */
  ghost predicate OneEntryPerGame(wl: Wishlist)
  {
    forall i, j | i in wl && j in wl && wl[i].gameId == wl[j].gameId :: i == j
  }

  lemma {:induction false} MaxExists(s: set<int>)
    requires s != {}
    ensures exists m :: m in s && forall x | x in s :: x <= m
    decreases |s|
  {
    if forall z :: z !in s {
      assert false;
    }
    var y :| y in s;
    var rest := s - {y};
    if rest == {} {
      forall x | x in s ensures x <= y {
        assert x in rest || x == y;
      }
    } else {
      MaxExists(rest);
      var m :| m in rest && forall x | x in rest :: x <= m;
      var top := if m < y then y else m;
      forall x | x in s ensures x <= top {
        assert x in rest || x == y;
      }
      assert top in s;
    }
  }

  /** The row id SQLite gives a new row: one more than the largest, or 1
      in an empty table. */
  function NextId(keys: set<WishlistId>): (id: WishlistId)
    ensures id !in keys
    ensures forall k | k in keys :: k < id
    ensures keys == {} ==> id == 1
    ensures keys != {} ==> id - 1 in keys
  {
    if keys == {} then 1
    else
      MaxExists(keys);
      var m :| m in keys && forall x | x in keys :: x <= m;
      m + 1
  }

  /** `add_to_wishlist`: a new entry when the game exists and has none yet,
      nothing otherwise. */
  function AddEntry(wl: Wishlist, gameCount: nat, g: GameId, target: Option<real>): Wishlist
  {
    if 1 <= g <= gameCount && !HasEntryFor(wl, g) then wl[NextId(wl.Keys) := WishlistEntry(g, target)]
    else wl
  }

  /** `delete_from_wishlist`: the new table and the notice. */
  function DeleteEntry(wl: Wishlist, games: seq<Game>, id: WishlistId): (Wishlist, Notice)
    requires RefsValid(wl, |games|)
  {
    if id in wl then (wl - {id}, Removed(games[wl[id].gameId - 1].name))
    else (wl, NotFound)
  }

  /** `update_wishlist_item`: the new table and the notice. A missing or
      zero id, or a missing or unparsable price, is an invalid submission. */
  function UpdateEntry(wl: Wishlist, games: seq<Game>, id: Option<int>, price: Option<real>): (Wishlist, Notice)
    requires RefsValid(wl, |games|)
  {
    if id.None? || id.value == 0 || price.None? then (wl, InvalidSubmission)
    else if id.value !in wl then (wl, NotFound)
    else
      var entry := wl[id.value];
      (wl[id.value := entry.(targetPrice := price)], TargetUpdated(games[entry.gameId - 1].name, price.value))
  }

  // ---- add ---------------------------------------------------------------

  /** Adding is a no-op for a missing game or a game already listed, and
      otherwise adds exactly one entry, for that game and target price,
      leaving every other entry as it was. */
  lemma AddEntryCases(wl: Wishlist, gameCount: nat, g: GameId, target: Option<real>)
    ensures var r := AddEntry(wl, gameCount, g, target);
      && (!(1 <= g <= gameCount) || HasEntryFor(wl, g) ==> r == wl)
      && (1 <= g <= gameCount && !HasEntryFor(wl, g) ==>
            && |r| == |wl| + 1
            && (forall k | k in wl :: k in r && r[k] == wl[k])
            && (forall k | k in r && k !in wl :: r[k] == WishlistEntry(g, target)))
  {
  }

  /** Adding keeps at most one entry per game. */
  lemma AddEntryKeepsOneEntryPerGame(wl: Wishlist, gameCount: nat, g: GameId, target: Option<real>)
    requires OneEntryPerGame(wl)
    ensures OneEntryPerGame(AddEntry(wl, gameCount, g, target))
  {
    var r := AddEntry(wl, gameCount, g, target);
    if 1 <= g <= gameCount && !HasEntryFor(wl, g) {
      assert forall k | k in wl :: wl[k].gameId != g;
    }
  }

  lemma AddEntryKeepsRefs(wl: Wishlist, gameCount: nat, g: GameId, target: Option<real>)
    requires RefsValid(wl, gameCount)
    ensures RefsValid(AddEntry(wl, gameCount, g, target), gameCount)
  {
  }

  /** After an add of an existing game, the game is listed. */
  lemma AddEntryLists(wl: Wishlist, gameCount: nat, g: GameId, target: Option<real>)
    requires 1 <= g <= gameCount
    ensures HasEntryFor(AddEntry(wl, gameCount, g, target), g)
  {
    if !HasEntryFor(wl, g) {
      var id := NextId(wl.Keys);
      assert AddEntry(wl, gameCount, g, target)[id].gameId == g;
    }
  }

  /** Adding the same game a second time changes nothing. */
  lemma AddEntryIdempotent(wl: Wishlist, gameCount: nat, g: GameId, t1: Option<real>, t2: Option<real>)
    ensures var once := AddEntry(wl, gameCount, g, t1);
      AddEntry(once, gameCount, g, t2) == once
  {
    if 1 <= g <= gameCount {
      AddEntryLists(wl, gameCount, g, t1);
    }
  }

  /** Two adds of an existing game in a row leave exactly one entry for it. */
  lemma AddTwiceLeavesOneEntry(wl: Wishlist, gameCount: nat, g: GameId, t1: Option<real>, t2: Option<real>)
    requires OneEntryPerGame(wl)
    requires 1 <= g <= gameCount
    ensures |EntriesFor(AddEntry(AddEntry(wl, gameCount, g, t1), gameCount, g, t2), g)| == 1
  {
    var once := AddEntry(wl, gameCount, g, t1);
    AddEntryIdempotent(wl, gameCount, g, t1, t2);
    AddEntryLists(wl, gameCount, g, t1);
    AddEntryKeepsOneEntryPerGame(wl, gameCount, g, t1);
    var id :| id in once && once[id].gameId == g;
    assert forall x | x in EntriesFor(once, g) :: x == id;
    assert EntriesFor(once, g) == {id};
  }

  // ---- delete ------------------------------------------------------------

  /** A missing id changes nothing and is reported as not found; an existing
      id loses exactly its entry and the notice names its game. */
  lemma DeleteEntryCases(wl: Wishlist, games: seq<Game>, id: WishlistId)
    requires RefsValid(wl, |games|)
    ensures var (r, notice) := DeleteEntry(wl, games, id);
      && (id !in wl ==> r == wl && notice.Category() == Danger && notice.Message() == "Wishlist item not found.")
      && (id in wl ==>
            && r.Keys == wl.Keys - {id}
            && |r| == |wl| - 1
            && (forall k | k in r :: r[k] == wl[k])
            && notice.Category() == Success
            && notice.Message() == games[wl[id].gameId - 1].name + " has been removed from your wishlist.")
  {
    if id in wl {
      assert (wl - {id}).Keys == wl.Keys - {id};
    }
  }

  lemma DeleteEntryKeepsInvariants(wl: Wishlist, games: seq<Game>, id: WishlistId)
    requires RefsValid(wl, |games|)
    ensures OneEntryPerGame(wl) ==> OneEntryPerGame(DeleteEntry(wl, games, id).0)
    ensures RefsValid(DeleteEntry(wl, games, id).0, |games|)
  {
  }

  // ---- update ------------------------------------------------------------

  /** An invalid submission or a missing entry changes nothing; otherwise
      only the entry's target price changes, to the submitted price. */
  lemma UpdateEntryCases(wl: Wishlist, games: seq<Game>, id: Option<int>, price: Option<real>)
    requires RefsValid(wl, |games|)
    ensures var (r, notice) := UpdateEntry(wl, games, id, price);
      && (id.None? || id == Some(0) || price.None? ==>
            r == wl && notice.Category() == Danger && notice.Message() == "Invalid form submission.")
      && (id.Some? && id != Some(0) && price.Some? && id.value !in wl ==>
            r == wl && notice.Category() == Danger && notice.Message() == "Wishlist item not found.")
      && (id.Some? && id != Some(0) && price.Some? && id.value in wl ==>
            && r.Keys == wl.Keys
            && r[id.value] == WishlistEntry(wl[id.value].gameId, price)
            && (forall k | k in wl && k != id.value :: r[k] == wl[k])
            && notice.Category() == Success
            && notice == TargetUpdated(games[wl[id.value].gameId - 1].name, price.value))
  {
  }

  lemma UpdateEntryKeepsInvariants(wl: Wishlist, games: seq<Game>, id: Option<int>, price: Option<real>)
    requires RefsValid(wl, |games|)
    ensures OneEntryPerGame(wl) ==> OneEntryPerGame(UpdateEntry(wl, games, id, price).0)
    ensures RefsValid(UpdateEntry(wl, games, id, price).0, |games|)
  {
  }

  /** A target price of 4.5 is shown as "4.50". */
  lemma FourFifty()
    ensures Fixed2(4.5) == "4.50"
  {
    assert RoundHalfEven(450.0) == 450;
    assert DecimalText(4) == "4";
  }
}
