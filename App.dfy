/** The application's database: the Game and Wishlist tables and the
    request handlers that change them. */
module App {
  import opened Wrappers
  import opened SteamLookup
  import opened Games
  import opened Wishlists

  class Database {
    /** The Game table; the row at index `i` has id `i + 1`. */
    var games: seq<Game>
    /** The Wishlist table, keyed by row id. */
    var wishlist: Wishlist

    /** Names are unique (the column constraint), every wishlist entry
        refers to a game, and no game is listed twice. */
    ghost predicate Valid()
      reads this
    {
      && Distinct(Names(games))
      && RefsValid(wishlist, |games|)
      && OneEntryPerGame(wishlist)
    }

    constructor ()
      ensures Valid()
      ensures games == [] && wishlist == map[]
    {
      games := [];
      wishlist := map[];
    }

    /** `search`: the database is consulted first; the store is always
        asked. With local matches only existing rows are repriced and the
        local matches are shown; otherwise every result is upserted and the
        inserted rows are shown, unless an insert hits the unique-name
        constraint, in which case nothing is written. */
    method Search(query: string, search: Option<seq<SearchItem>>, details: map<AppId, Option<int>>)
      returns (response: SearchResponse)
      requires Valid()
      modifies this
      ensures Valid()
      ensures (games, response) == SearchSpec(old(games), query, search, details)
      ensures wishlist == old(wishlist)
    {
      var local := LocalMatches(games, query);
      var steamGames := GetSteamPriceByName(query, search, details);
      if local != [] {
        RefreshPricesSpec(games, steamGames);
        RefreshMatched(steamGames);
        response := Rendered(local);
      } else {
        response := InsertOrUpdate(steamGames);
      }
    }

    /** The loop of the local-match branch: the first row with each
        result's steam id takes the result's price. */
    method RefreshMatched(steamGames: seq<SteamGame>)
      modifies this
      ensures games == RefreshPrices(old(games), steamGames)
      ensures wishlist == old(wishlist)
    {
      var k := 0;
      while k < |steamGames|
        invariant k <= |steamGames|
        invariant games == RefreshPrices(old(games), steamGames[..k])
        invariant wishlist == old(wishlist)
      {
        var steamGame := steamGames[k];
        var existing := IndexOf(SteamIds(games), steamGame.appid);
        if existing.Some? {
          games := SetPrice(games, existing.value, steamGame.price);
        }
        RefreshPrefix(old(games), steamGames, k);
        k := k + 1;
      }
      assert steamGames[..k] == steamGames;
    }

    /** The no-match branch: the staged rows are written only when no
        insert hits the unique-name constraint, as the rolled-back
        transaction leaves it. */
    method InsertOrUpdate(steamGames: seq<SteamGame>) returns (response: SearchResponse)
      requires Valid()
      modifies this
      ensures Valid()
      ensures Reconcile(old(games), steamGames).None? ==> games == old(games) && response == NameConflict
      ensures Reconcile(old(games), steamGames).Some? ==>
        games == Reconcile(old(games), steamGames).value && response == Rendered(NewIds(|old(games)|, |games|))
      ensures wishlist == old(wishlist)
    {
      var staged, newGames := StageResults(games, steamGames);
      if staged.None? {
        response := NameConflict;
      } else {
        ReconcileKeepsNamesDistinct(games, steamGames);
        games := staged.value;
        response := Rendered(newGames);
      }
    }

    /** `add_to_wishlist`: lists an existing game once, with the optional
        target price; a missing or already listed game changes nothing. */
    method AddToWishlist(gameId: GameId, targetPrice: Option<real>)
      requires Valid()
      modifies this
      ensures Valid()
      ensures games == old(games)
      ensures wishlist == AddEntry(old(wishlist), |games|, gameId, targetPrice)
    {
      AddEntryKeepsOneEntryPerGame(wishlist, |games|, gameId, targetPrice);
      if 1 <= gameId <= |games| {
        if !HasEntryFor(wishlist, gameId) {
          wishlist := wishlist[NextId(wishlist.Keys) := WishlistEntry(gameId, targetPrice)];
        }
      }
    }

    /** `delete_from_wishlist`: removes the entry with that id and flashes
        the game's name, or flashes that the item was not found. */
    method DeleteFromWishlist(id: WishlistId) returns (notice: Notice)
      requires Valid()
      modifies this
      ensures Valid()
      ensures games == old(games)
      ensures (wishlist, notice) == DeleteEntry(old(wishlist), games, id)
    {
      DeleteEntryKeepsInvariants(wishlist, games, id);
      if id in wishlist {
        var name := games[wishlist[id].gameId - 1].name;
        wishlist := wishlist - {id};
        notice := Removed(name);
      } else {
        notice := NotFound;
      }
    }

    /** `update_wishlist_item`: sets the entry's target price; a missing or
        zero id or a missing price is an invalid submission, an unknown id
        is not found. */
    method UpdateWishlistItem(id: Option<int>, targetPrice: Option<real>) returns (notice: Notice)
      requires Valid()
      modifies this
      ensures Valid()
      ensures games == old(games)
      ensures (wishlist, notice) == UpdateEntry(old(wishlist), games, id, targetPrice)
    {
      UpdateEntryKeepsInvariants(wishlist, games, id, targetPrice);
      if id.None? || id.value == 0 || targetPrice.None? {
        notice := InvalidSubmission;
        return;
      }
      if id.value in wishlist {
        var entry := wishlist[id.value];
        wishlist := wishlist[id.value := entry.(targetPrice := targetPrice)];
        notice := TargetUpdated(games[entry.gameId - 1].name, targetPrice.value);
      } else {
        notice := NotFound;
      }
    }
  }

  /** The loop of the no-match branch over the session's view of the Game
      table: each result updates the first row with its steam id or is
      added as a new row, and the added rows' ids are collected. `None`
      when an insert hits the unique-name constraint. */
  method StageResults(rows: seq<Game>, steamGames: seq<SteamGame>)
    returns (staged: Option<seq<Game>>, newGames: seq<GameId>)
    ensures staged == Reconcile(rows, steamGames)
    ensures staged.Some? ==> newGames == NewIds(|rows|, |staged.value|)
  {
    var current := rows;
    newGames := [];
    var k := 0;
    while k < |steamGames|
      invariant k <= |steamGames|
      invariant Reconcile(rows, steamGames[..k]) == Some(current)
      invariant |rows| <= |current|
      invariant newGames == NewIds(|rows|, |current|)
    {
      var steamGame := steamGames[k];
      var before := current;
      var existing := IndexOf(SteamIds(current), steamGame.appid);
      if existing.Some? {
        current := SetPrice(current, existing.value, steamGame.price);
        assert UpsertOne(before, steamGame) == Some(current);
        ReconcileStep(rows, steamGames, k, before, current);
      } else if steamGame.name in Names(current) {
        assert UpsertOne(before, steamGame).None?;
        ReconcileStepFails(rows, steamGames, k, before);
        return None, [];
      } else {
        current := current + [Game(steamGame.name, steamGame.appid, steamGame.price)];
        NewIdsSnoc(|rows|, |current| - 1);
        newGames := newGames + [|current|];
        assert UpsertOne(before, steamGame) == Some(current);
        ReconcileStep(rows, steamGames, k, before, current);
      }
      k := k + 1;
    }
    assert steamGames[..k] == steamGames;
    staged := Some(current);
  }
}
