/** The Steam price lookup of `get_steam_price_by_name` and
    `fetch_price_data`. The two HTTP calls are inputs: the store search
    answers with a list of results or fails (`None`), and `details` maps an
    app id to the `final` field of its price overview in cents. An app id
    missing from `details` is a details call that failed; `None` is an
    answer without a price overview. */
module SteamLookup {
  import opened Wrappers
  import opened Text

  type AppId = nat

  /** One item of the store search response: its `name` and `id`. */
  datatype SearchItem = SearchItem(name: string, appid: AppId)

  /** One entry of `matching_games`; `price` is in dollars. */
  datatype SteamGame = SteamGame(name: string, appid: AppId, price: real)

  /** The filter on search results: every word of the lower-cased query
      longer than two characters occurs in the lower-cased result name. */
  predicate NameMatches(query: string, name: string)
  {
    var words := Words(Lower(query));
    forall k :: 0 <= k < |words| && |words[k]| > 2 ==> Contains(Lower(name), words[k])
  }

  /** `fetch_price_data`, reduced to the `final` price: nothing when the
      details call failed or carried no price overview. */
  function FetchPriceData(details: map<AppId, Option<int>>, appid: AppId): (r: Option<int>)
    ensures r.Some? <==> appid in details && details[appid].Some?
    ensures r.Some? ==> r == details[appid]
  {
    if appid in details then details[appid] else None
  }

  /** Cents to dollars; a zero (falsy) price is 0.0. */
  function DollarPrice(cents: int): (dollars: real)
    ensures dollars * 100.0 == cents as real
    ensures cents == 0 ==> dollars == 0.0
    ensures cents > 0 ==> dollars > 0.0
  {
    if cents != 0 then cents as real / 100.0 else 0.0
  }

  /** What one search result contributes to the lookup: an entry when its
      name passes the filter and its details carry a price, nothing else. */
  function Priced(query: string, details: map<AppId, Option<int>>, item: SearchItem): Option<SteamGame>
  {
    if !NameMatches(query, item.name) then None
    else match FetchPriceData(details, item.appid)
      case None => None
      case Some(cents) => Some(SteamGame(item.name, item.appid, DollarPrice(cents)))
  }

  /** The entries one search result appends: its entry, if any. */
  function Appended(query: string, details: map<AppId, Option<int>>, item: SearchItem): seq<SteamGame>
  {
    match Priced(query, details, item)
    case None => []
    case Some(g) => [g]
  }

  /** The entries the loop over `items` appends, in order. */
  function Collect(query: string, items: seq<SearchItem>, details: map<AppId, Option<int>>): (r: seq<SteamGame>)
    ensures |r| <= |items|
  {
    if items == [] then []
    else Collect(query, items[..|items| - 1], details) + Appended(query, details, items[|items| - 1])
  }

  /** One more iteration of the lookup loop. */
  lemma CollectPrefix(query: string, items: seq<SearchItem>, details: map<AppId, Option<int>>, i: nat,
                      before: seq<SteamGame>, after: seq<SteamGame>)
    requires i < |items|
    requires before == Collect(query, items[..i], details)
    requires after == before + Appended(query, details, items[i])
    ensures after == Collect(query, items[..i + 1], details)
  {
    assert items[..i + 1][..i] == items[..i];
  }

  /** The whole lookup; a failed search yields the empty list. */
  function Lookup(query: string, search: Option<seq<SearchItem>>, details: map<AppId, Option<int>>): seq<SteamGame>
  {
    match search
    case None => []
    case Some(items) => Collect(query, items, details)
  }

  method GetSteamPriceByName(query: string, search: Option<seq<SearchItem>>, details: map<AppId, Option<int>>)
    returns (matches: seq<SteamGame>)
    ensures matches == Lookup(query, search, details)
  {
    matches := [];
    if search.None? {
      return;
    }
    var results := search.value;
    var i := 0;
    while i < |results|
      invariant 0 <= i <= |results|
      invariant matches == Collect(query, results[..i], details)
    {
      var game := results[i];
      ghost var before := matches;
      if NameMatches(query, game.name) {
        var priceData := FetchPriceData(details, game.appid);
        if priceData.Some? {
          matches := matches + [SteamGame(game.name, game.appid, DollarPrice(priceData.value))];
        }
      }
      CollectPrefix(query, results, details, i, before, matches);
      i := i + 1;
    }
    assert results[..i] == results;
  }

  lemma ConcatAssoc<T>(x: seq<T>, y: seq<T>, z: seq<T>)
    ensures (x + y) + z == x + (y + z)
  {
  }

  lemma SnocSplit<T>(a: seq<T>, b: seq<T>)
    requires b != []
    ensures b == b[..|b| - 1] + [b[|b| - 1]]
    ensures a + b == (a + b[..|b| - 1]) + [b[|b| - 1]]
  {
  }

  lemma InConcat<T>(x: T, a: seq<T>, b: seq<T>)
    ensures x in a + b <==> x in a || x in b
  {
  }

  /** One more search result appends its entry, if any. */
  lemma CollectSnoc(query: string, xs: seq<SearchItem>, y: SearchItem, details: map<AppId, Option<int>>)
    ensures Collect(query, xs + [y], details) == Collect(query, xs, details) + Appended(query, details, y)
  {
    assert (xs + [y])[..|xs|] == xs;
  }

  /** The lookup keeps the order of the search results: looking up two runs
      of results one after the other gives the concatenation. */
  lemma {:induction false} CollectAppend(query: string, a: seq<SearchItem>, b: seq<SearchItem>, details: map<AppId, Option<int>>)
    ensures Collect(query, a + b, details) == Collect(query, a, details) + Collect(query, b, details)
    decreases |b|
  {
    if b == [] {
      assert a + b == a;
    } else {
      var b', y := b[..|b| - 1], b[|b| - 1];
      SnocSplit(a, b);
      CollectAppend(query, a, b', details);
      CollectSnoc(query, a + b', y, details);
      CollectSnoc(query, b', y, details);
      ConcatAssoc(Collect(query, a, details), Collect(query, b', details), Appended(query, details, y));
    }
  }

  lemma AppendedMember(query: string, details: map<AppId, Option<int>>, y: SearchItem, g: SteamGame)
    ensures g in Appended(query, details, y) <==> Priced(query, details, y) == Some(g)
  {
  }

  /** Some result of `init + [y]` gives `g` exactly when one of `init` does or `y` does. */
  lemma PricedInSnoc(query: string, details: map<AppId, Option<int>>, items: seq<SearchItem>,
                     init: seq<SearchItem>, g: SteamGame)
    requires items != [] && init == items[..|items| - 1]
    ensures (exists i :: 0 <= i < |items| && Priced(query, details, items[i]) == Some(g))
        <==> (exists i :: 0 <= i < |init| && Priced(query, details, init[i]) == Some(g))
             || Priced(query, details, items[|items| - 1]) == Some(g)
  {
    if i :| 0 <= i < |init| && Priced(query, details, init[i]) == Some(g) {
      assert items[i] == init[i];
    }
    if i :| 0 <= i < |items| && Priced(query, details, items[i]) == Some(g) {
      if i < |init| {
        assert init[i] == items[i];
      }
    }
  }

  /** An entry is in the lookup result exactly when some search result
      passes the name filter, has a price, and gives that entry. */
  lemma {:induction false} CollectMembers(query: string, items: seq<SearchItem>, details: map<AppId, Option<int>>, g: SteamGame)
    ensures g in Collect(query, items, details)
        <==> exists i :: 0 <= i < |items| && Priced(query, details, items[i]) == Some(g)
    decreases |items|
  {
    if items != [] {
      var init, y := items[..|items| - 1], items[|items| - 1];
      CollectMembers(query, init, details, g);
      SnocSplit([], items);
      CollectSnoc(query, init, y, details);
      InConcat(g, Collect(query, init, details), Appended(query, details, y));
      AppendedMember(query, details, y, g);
      PricedInSnoc(query, details, items, init, g);
    }
  }

  /** Every entry of the lookup result carries the name and app id of a
      search result that passed the filter and had a price, with that price
      turned into dollars; results without price data are dropped. */
  lemma LookupEntries(query: string, items: seq<SearchItem>, details: map<AppId, Option<int>>, g: SteamGame)
    requires g in Lookup(query, Some(items), details)
    ensures exists i :: (0 <= i < |items|
                         && items[i].name == g.name && items[i].appid == g.appid
                         && NameMatches(query, g.name)
                         && g.appid in details && details[g.appid].Some?
                         && g.price == DollarPrice(details[g.appid].value))
  {
    CollectMembers(query, items, details, g);
  }

  /** A result that passes the filter and has a price is never dropped. */
  lemma LookupKeeps(query: string, items: seq<SearchItem>, details: map<AppId, Option<int>>, i: nat)
    requires i < |items|
    requires NameMatches(query, items[i].name)
    requires items[i].appid in details && details[items[i].appid].Some?
    ensures SteamGame(items[i].name, items[i].appid, DollarPrice(details[items[i].appid].value))
            in Lookup(query, Some(items), details)
  {
    CollectMembers(query, items, details,
      SteamGame(items[i].name, items[i].appid, DollarPrice(details[items[i].appid].value)));
  }

  /** A query whose words are all at most two characters long lets every
      name through. */
  lemma ShortWordsMatchEverything(query: string, name: string)
    requires forall k :: 0 <= k < |Words(Lower(query))| ==> |Words(Lower(query))[k]| <= 2
    ensures NameMatches(query, name)
  {
  }

  /** A name that contains the whole query, ignoring case, passes the
      filter: every query word is a piece of the query. */
  lemma ContainingNameMatches(query: string, name: string)
    requires Contains(Lower(name), Lower(query))
    ensures NameMatches(query, name)
  {
    var words := Words(Lower(query));
    WordsAreSubstrings(Lower(query));
    forall k | 0 <= k < |words| && |words[k]| > 2
      ensures Contains(Lower(name), words[k])
    {
      ContainsTransitive(Lower(name), Lower(query), words[k]);
    }
  }

  /** The upstream price 1999 cents is 19.99 dollars. */
  lemma NineteenNinetyNine()
    ensures DollarPrice(1999) == 19.99
  {
  }
}
