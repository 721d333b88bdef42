# best-price-tracker, modelled in Dafny

best-price-tracker is a small Flask application. It looks games up in the
Steam store, keeps their prices in a SQLite `Game` table and lets the user
keep a wishlist of games with target prices. This project models the core
of `app.py`:

- the Steam price lookup (`get_steam_price_by_name` and `fetch_price_data`):
  the name filter on search results and the price normalisation from cents to dollars;
- the `search` handler: the case-insensitive `ilike` query on the Game table,
  the price refresh when local rows match, and the insert-or-update pass
  when none do;
- the wishlist handlers `add_to_wishlist`, `delete_from_wishlist` and
  `update_wishlist_item`, with their flash notices;
- the `Game` and `Wishlist` row shapes.

The HTTP answers of the Steam store are parameters:
- the store search is `Option<seq<SearchItem>>`, with `None` for a failed request;
- the app-details answers are a `map<AppId, Option<int>>`:
  - a missing key is a details call that failed;
  - `None` is an answer without `price_overview`;
  - `Some(c)` is an answer whose `final` price is `c` cents.
- The one details answer per app id stands in for every details call of a
  request. The source calls the store once per search result (app.py:74), so
  two results with the same app id could get different answers there.

Files:

- `Wrappers.dfy`: `Option`.
- `Text.dfy`: the string operations the core relies on:
  - Python's `str.lower` and `str.split()`, and the substring `in`;
  - SQLite's `LIKE`;
  - the `:.2f` formatting of a price.
- `SteamLookup.dfy`: the lookup, as a specification function `Lookup` and a
  method `GetSteamPriceByName` that has the source's loop.
- `Games.dfy`: the Game table as a sequence, where the row at index `i` has id `i + 1`.
  It holds the local query and the two update loops of `search` as
  specification functions with their properties. `SearchSpec` is the whole handler.
- `Wishlists.dfy`: the Wishlist table as a map from row id to entry, and
  the three wishlist handlers as specification functions with their properties.
- `App.dfy`: the class `Database`, which holds both tables. Its methods
  `Search`, `AddToWishlist`, `DeleteFromWishlist` and `UpdateWishlistItem`
  update the tables in place as the handlers do. Each method is proved
  equal to its specification function and to preserve the invariant
  `Valid()`:
  - game names are unique;
  - every wishlist entry refers to a game;
  - no game is listed twice.

Modelling decisions:

- Row ids. Games are never deleted, and SQLite gives a new row the largest
  row id plus one. So game ids are exactly `1..n`, and
  `filter_by(...).first()` finds the lowest matching id.
- Search results. They are processed one after the other over the live table.
  Autoflush makes a game inserted earlier in the loop visible to the
  `steam_id` query of a later result.
- `ilike` is SQLite's `lower(name) LIKE lower('%q%')`. So `%` and `_` in the
  query act as wildcards. For a query without them it is a case-insensitive
  substring test (`Games.IlikeIsSubstring`).
- Name conflicts. With no local match, a search whose insert hits the unique-name
  constraint fails. The session is rolled back, so the table is left
  as it was. The model reports this as `NameConflict`.
- Rows shown after a refresh. `search` renders the rows the local query
  fetched before the refresh (app.py:108, 124). They are the same ORM
  objects the refresh loop updates, and the commit expires them, so the page
  shows them with their refreshed prices. The model therefore returns the
  matched row ids together with the refreshed table
  (`Games.SearchWithLocalMatches`).
- Steam ids. The `steam_id` column is declared as text. The model uses the
  numeric app id: SQLite stores the integer as its decimal text and converts
  the integer it is compared with in the same way, so equality agrees.

## Model

| member | source | states |
|---|---|---|
| Text.Lower | app.py:72 | lower-casing keeps the length and maps each character independently (ASCII letters to lower case) |
| Text.Words | app.py:72 | every word `split()` yields is non-empty and contains no whitespace |
| Text.WordsAroundSpace | app.py:72 | a whitespace character separates words: the split of `a`, a space and `b` is the split of `a` followed by the split of `b` |
| Text.WordsOfWord | app.py:72 | a non-empty run without whitespace splits into exactly itself; with the two rows above and `Words([]) == []` this fixes `split()` on every string |
| Text.WordsConcat | app.py:72 | the words of a string, joined, are the string with its whitespace removed: nothing else is lost or added |
| Text.WordsAreSubstrings | app.py:72 | every word of a string occurs in it |
| Text.ContainsIffOccurs | app.py:72 | Python's `word in name` holds exactly when the word occurs at some position of the name |
| Text.ContainsTransitive | app.py:72 | a substring of a substring is a substring |
| Text.ContainsInSuffix | app.py:72 | a substring of a suffix of a string is a substring of the string |
| Text.LikeAnything | app.py:108 | the pattern `%` matches every string |
| Text.LowerNoWildcards | app.py:108 | lower-casing a query adds no `%` or `_` wildcard |
| Text.LikeLiteralPrefix | app.py:108 | a wildcard-free pattern prefix matches exactly the same prefix of the string |
| Text.LikeIsContains | app.py:108 | for a wildcard-free query, `LIKE '%q%'` holds exactly when `q` is a substring |
| Text.DecimalText | app.py:228 | the decimal digits of a whole number are a non-empty string of digits, a single digit exactly below 10, and without a leading zero except for 0 itself |
| Text.DecimalRoundTrip | app.py:228 | reading back the decimal digits of `n` gives `n` |
| Text.RoundHalfEven | app.py:228 | rounding to a whole number of cents moves the value by at most one half |
| Text.TwoDigitValue | app.py:228 | the two cent digits printed read back as the cents modulo 100 |
| Text.Fixed2Value | app.py:228 | the whole part and the two decimals printed denote a value within 0.005 of the price |
| Text.Fixed2Denotes | app.py:228 | `:.2f` of a non-negative price is digits, a point and exactly two digits, with no leading zero before a longer whole part, and denotes a value within 0.005 of the price |
| SteamLookup.DollarPrice | app.py:79 | dollars are cents divided by 100; a zero price gives 0.0; a positive price stays positive |
| SteamLookup.Collect | app.py:70-81 | the lookup returns at most one entry per search result |
| SteamLookup.CollectPrefix | app.py:71-80 | one more pass of the loop appends exactly the entry, if any, of the next search result |
| SteamLookup.CollectSnoc | app.py:71-80 | one more search result at the end adds its entry, if any, at the end |
| SteamLookup.GetSteamPriceByName | app.py:62-84 | the loop returns exactly `Lookup`, the results that pass the filter and have a price, in order; a failed search returns the empty list |
| SteamLookup.CollectAppend | app.py:71-80 | the result keeps the order of the search results: two runs of results give the concatenation of their entries |
| SteamLookup.AppendedMember | app.py:72-80 | a search result appends an entry exactly when `Priced`, the loop body, gives one: it passes the filter and has a price; the entry is that one |
| SteamLookup.PricedInSnoc | app.py:71-80 | some result of a list with one more result at its end gives an entry exactly when an earlier one does or the new one does |
| SteamLookup.CollectMembers | app.py:71-80 | an entry is returned exactly when some search result passes the filter, has a price, and yields that entry |
| SteamLookup.LookupEntries | app.py:72-80 | every returned entry has a search result's name and id, passes the name filter, and has that result's price in dollars |
| SteamLookup.LookupKeeps | app.py:72-80 | a result that passes the filter and has a price is never dropped |
| SteamLookup.ShortWordsMatchEverything | app.py:72 | words of at most two characters are ignored: for a query made only of them the name filter `NameMatches` lets every name through |
| SteamLookup.ContainingNameMatches | app.py:72 | a name that contains the whole query, ignoring case, passes the name filter `NameMatches` |
| SteamLookup.NineteenNinetyNine | app.py:79 | 1999 cents is 19.99 dollars |
| Games.IndexOf | app.py:118 | `filter_by(steam_id=a).first()`: the lowest-id row with that steam id, and none exactly when no row has it |
| Games.IndexOfIs | app.py:118 | a row that has the steam id and follows no other row with it is the one found |
| Games.IndexOfPrefix | app.py:136 | appending rows does not change which row is found for a steam id already present |
| Games.IndexOfAppended | app.py:136-143 | a row appended with a new steam id is the one found for it |
| Games.LastPrice | app.py:116-122 | there is a last price for an app id exactly when some entry has that id, and an entry with that id has that price |
| Games.RefreshStepMissing | app.py:117-119 | a result whose app id is in no row leaves the description of the refreshed prices as it was |
| Games.RefreshStepFound | app.py:117-122 | a result whose app id is found sets the price of the first row with it, as the description of the refreshed prices says |
| Games.LocalMatches | app.py:108 | `ilike(...).all()`: exactly the ids of the rows whose name matches, in increasing id order |
| Games.LowerPattern | app.py:108 | lower-casing the pattern `%q%` lower-cases only the query |
| Games.IlikeIsSubstring | app.py:108 | for a query without `%` or `_`, `ilike` is a case-insensitive substring test |
| Games.IlikeSelf | app.py:108 | a name without wildcard characters is found by searching for itself |
| Games.RefreshPricesSpec | app.py:112-127 | the refresh loop keeps every row, name and steam id; a row gets the price of the last result with its steam id if it is the first row with that id, and otherwise keeps its price |
| Games.RefreshedIsRefreshPrices | app.py:112-127 | that description pins the refreshed table down completely |
| Games.RefreshPrefix | app.py:117-122 | one more pass of the refresh loop applies exactly the next result |
| Games.UpsertOne | app.py:136-143 | one result fails exactly when its app id is in no row and its name is taken; otherwise it keeps every old row's name and steam id, adds at most one row, and leaves a row with its app id |
| Games.Reconcile | app.py:134-144 | the insert-or-update loop never removes a row, keeps every old row's name and steam id, and adds at most one row per result |
| Games.FirstResultStep | app.py:134-143 | how the first result naming an app id moves when one more result is processed |
| Games.UpdateKeepsOldRows | app.py:136-139 | a price update keeps every old row's name and steam id |
| Games.UpdateKeepsRow | app.py:136-139 | a price update keeps the description of a row inserted earlier |
| Games.UpdateKeepsAllResults | app.py:136-139 | after an update every result processed so far, and this one, has a row with its app id |
| Games.UpdateOldPrices | app.py:136-139 | an update step keeps the old rows' names, steam ids and refreshed prices |
| Games.UpdateNewRows | app.py:136-139 | an update step keeps the inserted rows' description |
| Games.ReconcileStepUpdate | app.py:136-139 | an update step preserves the loop's description |
| Games.InsertKeepsRow | app.py:140-143 | an insert keeps the description of every row inserted before it |
| Games.InsertedNewRow | app.py:140-143 | the row an insert appends has the name of the first result with its app id and the price of the last one |
| Games.InsertNewRowsInserted | app.py:140-143 | an insert step keeps every inserted row's description |
| Games.InsertNewRowsOrder | app.py:140-143 | an insert step keeps the inserted rows in the order the results first name them |
| Games.ReconcileStepInsert | app.py:140-143 | an insert step preserves the loop's description |
| Games.ReconcileSpec | app.py:130-145 | when the loop succeeds, the old rows keep name and steam id and get refreshed prices; each new row is the first with its steam id, has the name of the first result with that id and the price of the last one; new rows follow result order; every result's app id has a row |
| Games.ReconcilePricesEveryResult | app.py:134-144 | after the loop every result's game is in the table at the price of the last result with its app id |
| Games.ReconcileKeepsNamesDistinct | app.py:39 | the loop keeps game names unique |
| Games.ReconcileSucceedsOnFreshNames | app.py:39 | results with names new to the table and to each other never hit the unique-name constraint |
| Games.ReconcileOfKnownIds | app.py:112-145 | when every result's app id is already in the table, both loops write the same table |
| Games.ReconcileConflictPersists | app.py:134-144 | once an insert hits the unique-name constraint, the whole batch fails |
| Games.ReconcilePrefix | app.py:135-143 | one more pass of the insert-or-update loop applies exactly the next result, and a failed batch stays failed |
| Games.NewIdsSnoc | app.py:141-143 | an insert appends the new row's id to the list of new games |
| Games.SearchWithLocalMatches | app.py:106-127 | with local matches only prices change, as the refresh describes, and the response shows the local matches |
| Games.SearchWithoutLocalMatches | app.py:128-145 | without local matches the table is reconciled as described, and the response shows exactly the inserted rows, in order |
| Games.SearchFailureShowsLocal | app.py:82-84 | a failed store search changes nothing and shows the local matches, which may be none |
| Games.PortalFound | app.py:70-80 | a query "Portal" keeps the store's Portal result (app 400) with its price in dollars |
| Games.PortalMatchesLocally | app.py:108 | a table holding only Portal matches a search for "Portal" with id 1 |
| Games.PortalFirstSearch | app.py:128-145 | a first search for "Portal" inserts it at 9.99 and shows it |
| Games.PortalSecondSearch | app.py:112-124 | a second search for "Portal" at 499 cents reprices the row to 4.99 and shows it |
| Games.NameTakenConflicts | app.py:39 | inserting a name another steam id already holds fails the search |
| Wishlists.NextId | app.py:47-48 | a new wishlist row id is fresh and larger than every existing id, and is 1 in an empty table |
| Wishlists.AddEntryCases | app.py:151-169 | adding a missing game, or one already listed, changes nothing; otherwise it adds exactly one entry, with that game and target price, and keeps every other entry |
| Wishlists.AddEntryKeepsOneEntryPerGame | app.py:156-161 | adding never lists a game twice |
| Wishlists.AddEntryKeepsRefs | app.py:156-161 | adding keeps every entry pointing at an existing game |
| Wishlists.AddEntryLists | app.py:151-169 | after adding an existing game it is listed |
| Wishlists.AddEntryIdempotent | app.py:156-166 | adding the same game again changes nothing |
| Wishlists.AddTwiceLeavesOneEntry | app.py:156-166 | two adds of the same game leave exactly one entry for it |
| Wishlists.DeleteEntryCases | app.py:172-181 | an unknown id changes nothing and flashes "Wishlist item not found." as danger; a known id loses exactly its entry and flashes the game's name as success |
| Wishlists.DeleteEntryKeepsInvariants | app.py:172-181 | deleting keeps references valid and games listed at most once |
| Wishlists.UpdateEntryCases | app.py:206-233 | a missing or zero id or a missing price is an invalid submission and an unknown id is not found, neither changing anything; otherwise only that entry's target price changes, to the new price, with a success notice |
| Wishlists.UpdateEntryKeepsInvariants | app.py:206-233 | updating keeps references valid and games listed at most once |
| Wishlists.FourFifty | app.py:228 | a target price of 4.5 is shown as "4.50" |
| App.Database.constructor | app.py:36-55 | the tables start empty and valid |
| App.Database.Search | app.py:103-148 | the handler's loops leave the table and response `SearchSpec` gives; the wishlist is untouched and names stay unique |
| App.Database.RefreshMatched | app.py:116-122 | the refresh loop leaves the table `RefreshPrices` gives, and the wishlist untouched |
| App.Database.InsertOrUpdate | app.py:130-145 | when the batch fails the table is unchanged and the response is a name conflict; otherwise the table is the reconciled one, the response shows exactly the new rows, names stay unique and the wishlist is untouched |
| App.StageResults | app.py:134-143 | the loop's staged table is `Reconcile` of the old one, and the new games are the ids of the appended rows, in order |
| App.Database.AddToWishlist | app.py:151-169 | the new wishlist is `AddEntry` of the old one, and the invariant holds |
| App.Database.DeleteFromWishlist | app.py:172-181 | the new wishlist and the notice are `DeleteEntry` of the old one, and the invariant holds |
| App.Database.UpdateWishlistItem | app.py:206-233 | the new wishlist and the notice are `UpdateEntry` of the old one, and the invariant holds |

## Left out

- HTTP, Flask routing, templates, redirects and the URL of the store requests: the store answers are parameters and each handler returns its response or notice.
- The `/wishlist` listing, the index page, the request logger and all logging: they change no state.
- The start-up code and the migrations: they create the schema the data model fixes.
- Text.Lower: only ASCII letters are lower-cased. Python's `str.lower` and SQLite's `lower()` handle more or fewer characters outside ASCII; game names and search queries are assumed to be ASCII. A non-ASCII lower-casing can also change a word's length, and so which query words the filter's `len(word) > 2` keeps.
- A missing `final` field, or a search result without a name or id, raises an unhandled error in the source; the model assumes well-formed store answers.
- SteamLookup.DollarPrice: exact rational arithmetic, not binary floating point; prices are reals.
- Text.Fixed2: rounds the exact value half to even, where Python rounds the nearest binary double; they can differ when the exact value and its nearest double fall on different sides of a half cent, or on a tie.
- Different details answers for the same app id within one request: the model has one answer per app id.
- A `None` search query (a form without `game_name`): the query is a string.
- The race between the check for an existing wishlist entry and its insert: the handlers run one at a time.
- The 100-character limit on names and the 20-character limit on steam ids: SQLite does not enforce them.
- Parsing of form fields: the wishlist id and target price arrive already parsed, `None` for a missing or unparsable field.
- A NaN or infinite target price: prices are reals.
