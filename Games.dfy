/** The Game table and the `search` workflow over it. The table is the
    sequence of rows in row-id order: SQLite hands out row ids as the largest
    id plus one and this application never deletes a game, so the game with
    id `n` is row `n - 1`. */
module Games {
  import opened Wrappers
  import opened Text
  import opened SteamLookup

  type GameId = nat

  /** A row of the Game table; `price` is in dollars. */
  datatype Game = Game(name: string, steamId: AppId, price: real)

  /** What `search` renders: the ids of the game rows it shows, or the
      unhandled unique-name violation of an insert (the request fails and the
      session is rolled back). */
  datatype SearchResponse = Rendered(shown: seq<GameId>) | NameConflict

  function SteamIds(rows: seq<Game>): (ids: seq<AppId>)
    ensures |ids| == |rows|
    ensures forall i :: 0 <= i < |rows| ==> ids[i] == rows[i].steamId
  {
    seq(|rows|, i requires 0 <= i < |rows| => rows[i].steamId)
  }

  function Names(rows: seq<Game>): (names: seq<string>)
    ensures |names| == |rows|
    ensures forall i :: 0 <= i < |rows| ==> names[i] == rows[i].name
  {
    seq(|rows|, i requires 0 <= i < |rows| => rows[i].name)
  }

  function AppIds(items: seq<SteamGame>): (ids: seq<AppId>)
    ensures |ids| == |items|
    ensures forall i :: 0 <= i < |items| ==> ids[i] == items[i].appid
  {
    seq(|items|, i requires 0 <= i < |items| => items[i].appid)
  }

  predicate Distinct(xs: seq<string>)
  {
    forall i, j :: 0 <= i < j < |xs| ==> xs[i] != xs[j]
  }

  /** The position of the first `a` in `xs`: `filter_by(steam_id=a).first()`
      on the Game table, which scans rows in row-id order. */
  function IndexOf(xs: seq<AppId>, a: AppId): (r: Option<nat>)
    ensures r.Some? ==> r.value < |xs| && xs[r.value] == a && forall j :: 0 <= j < r.value ==> xs[j] != a
    ensures r.None? <==> a !in xs
  {
    if xs == [] then None
    else if xs[0] == a then Some(0)
    else match IndexOf(xs[1..], a)
      case None => None
      case Some(k) => Some(k + 1)
  }

  lemma IndexOfIs(xs: seq<AppId>, a: AppId, i: nat)
    requires i < |xs| && xs[i] == a
    requires forall j :: 0 <= j < i ==> xs[j] != a
    ensures IndexOf(xs, a) == Some(i)
  {
  }

  /** Extending a sequence does not move the first occurrence of a value
      that was already there. */
  lemma IndexOfPrefix(xs: seq<AppId>, ys: seq<AppId>, a: AppId)
    requires |xs| <= |ys|
    requires forall i :: 0 <= i < |xs| ==> ys[i] == xs[i]
    requires a in xs
    ensures IndexOf(ys, a) == IndexOf(xs, a)
  {
    var i := IndexOf(xs, a).value;
    IndexOfIs(ys, a, i);
  }

  lemma IndexOfAppended(xs: seq<AppId>, a: AppId)
    requires a !in xs
    ensures IndexOf(xs + [a], a) == Some(|xs|)
  {
    IndexOfIs(xs + [a], a, |xs|);
  }

  /** The price of the last search result with app id `a`: the value the
      row with that steam id holds once the loop is over. */
  function LastPrice(items: seq<SteamGame>, a: AppId): (r: Option<real>)
    ensures r.None? <==> a !in AppIds(items)
    ensures r.Some? ==> exists k :: 0 <= k < |items| && items[k].appid == a && items[k].price == r.value
                                    && forall l :: k < l < |items| ==> items[l].appid != a
  {
    if items == [] then None
    else
      var init, x := items[..|items| - 1], items[|items| - 1];
      assert AppIds(items) == AppIds(init) + [x.appid];
      if x.appid == a then Some(x.price)
      else
        assert forall k :: 0 <= k < |init| ==> items[k] == init[k];
        LastPrice(init, a)
  }

  /** The position of the first search result with app id `a`, or the
      length of the results when there is none. */
  function FirstResult(items: seq<SteamGame>, a: AppId): nat
  {
    match IndexOf(AppIds(items), a)
    case None => |items|
    case Some(k) => k
  }

  function SetPrice(rows: seq<Game>, i: nat, p: real): seq<Game>
    requires i < |rows|
  {
    rows[i := rows[i].(price := p)]
  }

  lemma SetPriceColumns(rows: seq<Game>, i: nat, p: real)
    requires i < |rows|
    ensures SteamIds(SetPrice(rows, i, p)) == SteamIds(rows)
    ensures Names(SetPrice(rows, i, p)) == Names(rows)
  {
  }

  lemma AppendColumns(rows: seq<Game>, g: Game)
    ensures SteamIds(rows + [g]) == SteamIds(rows) + [g.steamId]
    ensures Names(rows + [g]) == Names(rows) + [g.name]
  {
  }

  lemma AppIdsInit(items: seq<SteamGame>)
    requires items != []
    ensures AppIds(items) == AppIds(items[..|items| - 1]) + [items[|items| - 1].appid]
  {
  }

  // ---- the local query -------------------------------------------------

  /** `Game.name.ilike('%q%')`: SQLite's `lower(name) LIKE lower('%q%')`. */
  predicate Ilike(name: string, query: string)
  {
    Like(Lower(name), Lower("%" + query + "%"))
  }

  /** `Game.query.filter(Game.name.ilike(...)).all()`: the ids of the rows
      whose name matches, in row-id order. */
  function LocalMatches(rows: seq<Game>, query: string): (ids: seq<GameId>)
    ensures forall id :: id in ids <==> 1 <= id <= |rows| && Ilike(rows[id - 1].name, query)
    ensures forall i, j :: 0 <= i < j < |ids| ==> ids[i] < ids[j]
    ensures forall i :: 0 <= i < |ids| ==> ids[i] <= |rows|
  {
    if rows == [] then []
    else
      var init := rows[..|rows| - 1];
      assert forall i :: 0 <= i < |init| ==> init[i] == rows[i];
      LocalMatches(init, query) + if Ilike(rows[|rows| - 1].name, query) then [|rows|] else []
  }

  lemma LowerPattern(query: string)
    ensures Lower("%" + query + "%") == "%" + Lower(query) + "%"
  {
    var p := "%" + query + "%";
    var l := "%" + Lower(query) + "%";
    forall i | 0 <= i < |p| ensures Lower(p)[i] == l[i] {
      if 0 < i < |p| - 1 {
        assert p[i] == query[i - 1];
      }
    }
  }

  /** As long as the query holds no `%` or `_`, the local query is a
      case-insensitive substring test. */
  lemma IlikeIsSubstring(name: string, query: string)
    requires NoWildcards(Lower(query))
    ensures Ilike(name, query) <==> Contains(Lower(name), Lower(query))
  {
    LowerPattern(query);
    LikeIsContains(Lower(name), Lower(query));
  }

  /** A name without wildcard characters is found by searching for itself. */
  lemma IlikeSelf(name: string)
    requires NoWildcards(name)
    ensures Ilike(name, name)
  {
    LowerNoWildcards(name);
    IlikeIsSubstring(name, name);
    ContainsSelf(Lower(name));
  }

  // ---- the refresh loop when local rows matched (app.py:116-122) ---------

  /** One iteration: the first row with the result's app id takes its price. */
  function RefreshOne(rows: seq<Game>, g: SteamGame): seq<Game>
  {
    match IndexOf(SteamIds(rows), g.appid)
    case None => rows
    case Some(i) => SetPrice(rows, i, g.price)
  }

  function RefreshPrices(rows: seq<Game>, items: seq<SteamGame>): seq<Game>
  {
    if items == [] then rows
    else RefreshOne(RefreshPrices(rows, items[..|items| - 1]), items[|items| - 1])
  }

  /** The price row `i` has after all results have been applied: the last
      matching result's price if the row is the first with its steam id,
      its old price otherwise. */
  ghost function RefreshedPrice(rows: seq<Game>, items: seq<SteamGame>, i: nat): real
    requires i < |rows|
  {
    var a := rows[i].steamId;
    if IndexOf(SteamIds(rows), a) == Some(i) && LastPrice(items, a).Some? then LastPrice(items, a).value
    else rows[i].price
  }

  /** `r` is `rows` with only prices refreshed: the same rows, names and
      steam ids, each price as `RefreshedPrice` says. */
  ghost predicate Refreshed(rows: seq<Game>, items: seq<SteamGame>, r: seq<Game>)
  {
    && |r| == |rows|
    && SteamIds(r) == SteamIds(rows)
    && Names(r) == Names(rows)
    && forall i :: 0 <= i < |rows| ==> r[i].price == RefreshedPrice(rows, items, i)
  }

  /** A result whose app id is in no row leaves the refreshed prices as they were. */
  lemma RefreshStepMissing(rows: seq<Game>, items: seq<SteamGame>, p: seq<SteamGame>, t: seq<Game>)
    requires items != [] && p == items[..|items| - 1]
    requires Refreshed(rows, p, t)
    requires IndexOf(SteamIds(t), items[|items| - 1].appid).None?
    ensures Refreshed(rows, items, t)
  {
    forall i | 0 <= i < |rows| ensures t[i].price == RefreshedPrice(rows, items, i) {
      assert rows[i].steamId == SteamIds(t)[i];
    }
  }

  /** A result whose app id first occurs at row `j` sets that row's price. */
  lemma RefreshStepFound(rows: seq<Game>, items: seq<SteamGame>, p: seq<SteamGame>, t: seq<Game>, j: nat)
    requires items != [] && p == items[..|items| - 1]
    requires Refreshed(rows, p, t)
    requires IndexOf(SteamIds(t), items[|items| - 1].appid) == Some(j)
    ensures Refreshed(rows, items, SetPrice(t, j, items[|items| - 1].price))
  {
    var x := items[|items| - 1];
    SetPriceColumns(t, j, x.price);
    var r := SetPrice(t, j, x.price);
    forall i | 0 <= i < |rows| ensures r[i].price == RefreshedPrice(rows, items, i) {
      if rows[i].steamId == x.appid {
        assert IndexOf(SteamIds(rows), x.appid) == Some(j);
      }
    }
  }

  lemma {:induction false} RefreshPricesSpec(rows: seq<Game>, items: seq<SteamGame>)
    ensures Refreshed(rows, items, RefreshPrices(rows, items))
    decreases |items|
  {
    if items != [] {
      var p, x := items[..|items| - 1], items[|items| - 1];
      var t := RefreshPrices(rows, p);
      RefreshPricesSpec(rows, p);
      assert RefreshPrices(rows, items) == RefreshOne(t, x);
      match IndexOf(SteamIds(t), x.appid)
      case None =>
        RefreshStepMissing(rows, items, p, t);
      case Some(j) =>
        RefreshStepFound(rows, items, p, t, j);
    }
  }

  /** `Refreshed` pins the table down: it is exactly what the loop computes. */
  lemma RefreshedIsRefreshPrices(rows: seq<Game>, items: seq<SteamGame>, r: seq<Game>)
    requires Refreshed(rows, items, r)
    ensures r == RefreshPrices(rows, items)
  {
    var s := RefreshPrices(rows, items);
    RefreshPricesSpec(rows, items);
    forall i | 0 <= i < |r| ensures r[i] == s[i] {
      assert SteamIds(r)[i] == SteamIds(s)[i] && Names(r)[i] == Names(s)[i];
    }
  }

  // ---- the insert-or-update loop when nothing matched (app.py:132-145) ---

  /** One iteration: update the first row with the result's app id, or
      insert a new row; an insert whose name is taken violates the
      unique-name constraint. */
  function UpsertOne(rows: seq<Game>, g: SteamGame): (r: Option<seq<Game>>)
    ensures r.None? <==> g.appid !in SteamIds(rows) && g.name in Names(rows)
    ensures r.Some? ==> OldRowsKept(rows, r.value) && |r.value| <= |rows| + 1
    ensures r.Some? ==> g.appid in SteamIds(r.value)
  {
    match IndexOf(SteamIds(rows), g.appid)
    case Some(i) => Some(SetPrice(rows, i, g.price))
    case None =>
      if g.name in Names(rows) then None
      else
        AppendColumns(rows, Game(g.name, g.appid, g.price));
        Some(rows + [Game(g.name, g.appid, g.price)])
  }

  function Reconcile(rows: seq<Game>, items: seq<SteamGame>): (r: Option<seq<Game>>)
    ensures r.Some? ==> OldRowsKept(rows, r.value) && |r.value| <= |rows| + |items|
  {
    if items == [] then Some(rows)
    else match Reconcile(rows, items[..|items| - 1])
      case None => None
      case Some(t) => UpsertOne(t, items[|items| - 1])
  }

  /** The first `|rows|` rows of `r` are the old rows, names and steam ids
      unchanged. */
  ghost predicate OldRowsKept(rows: seq<Game>, r: seq<Game>)
  {
    && |rows| <= |r|
    && forall i :: 0 <= i < |rows| ==> r[i].name == rows[i].name && r[i].steamId == rows[i].steamId
  }

  /** Row `i` of `r`, past the old rows, was inserted for the results: its
      steam id was not in the table, it is the first row with that id, and
      it holds the name of the first result with that id and the price of
      the last one. */
  ghost predicate InsertedRow(rows: seq<Game>, items: seq<SteamGame>, r: seq<Game>, i: nat)
    requires |rows| <= i < |r|
  {
    var a := r[i].steamId;
    && a !in SteamIds(rows)
    && IndexOf(SteamIds(r), a) == Some(i)
    && IndexOf(AppIds(items), a).Some?
    && items[IndexOf(AppIds(items), a).value].name == r[i].name
    && LastPrice(items, a) == Some(r[i].price)
  }

  /** What the insert-or-update loop leaves: the old rows keep their names
      and steam ids and get refreshed prices; every row past them was
      inserted for a result, in the order the results first name them; and
      every result's app id is in the table. */
  ghost predicate Reconciled(rows: seq<Game>, items: seq<SteamGame>, r: seq<Game>)
  {
    && OldRowsKept(rows, r)
    && (forall i :: 0 <= i < |rows| ==> r[i].price == RefreshedPrice(rows, items, i))
    && (forall i :: |rows| <= i < |r| ==> InsertedRow(rows, items, r, i))
    && (forall i, j :: |rows| <= i < j < |r| ==> FirstResult(items, r[i].steamId) < FirstResult(items, r[j].steamId))
    && (forall k :: 0 <= k < |items| ==> items[k].appid in SteamIds(r))
  }

  /** How the first occurrence of an app id among the results moves when
      one more result is appended. */
  lemma FirstResultStep(items: seq<SteamGame>, a: AppId)
    requires items != []
    ensures var p := items[..|items| - 1];
      a in AppIds(p) ==> IndexOf(AppIds(items), a) == IndexOf(AppIds(p), a) && FirstResult(items, a) == FirstResult(p, a)
    ensures var p := items[..|items| - 1];
      a !in AppIds(p) && a == items[|items| - 1].appid ==> IndexOf(AppIds(items), a) == Some(|p|)
  {
    var p := items[..|items| - 1];
    AppIdsInit(items);
    if a in AppIds(p) {
      IndexOfPrefix(AppIds(p), AppIds(items), a);
    } else if a == items[|items| - 1].appid {
      IndexOfAppended(AppIds(p), a);
    }
  }

  /** A price update keeps every old row's name and steam id. */
  lemma UpdateKeepsOldRows(rows: seq<Game>, t: seq<Game>, j: nat, price: real)
    requires j < |t|
    requires OldRowsKept(rows, t)
    ensures OldRowsKept(rows, SetPrice(t, j, price))
  {
  }

  lemma UpdateOldPrices(rows: seq<Game>, items: seq<SteamGame>, t: seq<Game>, j: nat)
    requires items != []
    requires OldRowsKept(rows, t)
    requires forall i :: 0 <= i < |rows| ==> t[i].price == RefreshedPrice(rows, items[..|items| - 1], i)
    requires IndexOf(SteamIds(t), items[|items| - 1].appid) == Some(j)
    ensures var r := SetPrice(t, j, items[|items| - 1].price);
      forall i :: 0 <= i < |rows| ==> r[i].price == RefreshedPrice(rows, items, i)
  {
    var x := items[|items| - 1];
    forall i | 0 <= i < |rows| && rows[i].steamId == x.appid
      ensures IndexOf(SteamIds(rows), x.appid) == Some(j)
    {
      assert forall k :: 0 <= k < |rows| ==> SteamIds(t)[k] == SteamIds(rows)[k];
      IndexOfPrefix(SteamIds(rows), SteamIds(t), x.appid);
    }
  }

  /** A price update keeps the description of a row inserted earlier. */
  lemma UpdateKeepsRow(rows: seq<Game>, items: seq<SteamGame>, p: seq<SteamGame>, t: seq<Game>, j: nat, i: nat)
    requires items != [] && p == items[..|items| - 1]
    requires |rows| <= i < |t|
    requires InsertedRow(rows, p, t, i)
    requires IndexOf(SteamIds(t), items[|items| - 1].appid) == Some(j)
    ensures InsertedRow(rows, items, SetPrice(t, j, items[|items| - 1].price), i)
  {
    var x := items[|items| - 1];
    var r := SetPrice(t, j, x.price);
    var a := t[i].steamId;
    SetPriceColumns(t, j, x.price);
    FirstResultStep(items, a);
    if a == x.appid {
      assert i == j;
      assert LastPrice(items, a) == Some(x.price);
    } else {
      assert r[i] == t[i];
      assert LastPrice(items, a) == LastPrice(p, a);
    }
  }

  lemma UpdateNewRows(rows: seq<Game>, items: seq<SteamGame>, p: seq<SteamGame>, t: seq<Game>, j: nat)
    requires items != [] && p == items[..|items| - 1]
    requires |rows| <= |t|
    requires forall i :: |rows| <= i < |t| ==> InsertedRow(rows, p, t, i)
    requires forall i, k :: |rows| <= i < k < |t| ==> FirstResult(p, t[i].steamId) < FirstResult(p, t[k].steamId)
    requires IndexOf(SteamIds(t), items[|items| - 1].appid) == Some(j)
    ensures var r := SetPrice(t, j, items[|items| - 1].price);
      && (forall i :: |rows| <= i < |r| ==> InsertedRow(rows, items, r, i))
      && (forall i, k :: |rows| <= i < k < |r| ==> FirstResult(items, r[i].steamId) < FirstResult(items, r[k].steamId))
  {
    var x := items[|items| - 1];
    var r := SetPrice(t, j, x.price);
    SetPriceColumns(t, j, x.price);
    forall i | |rows| <= i < |r| ensures InsertedRow(rows, items, r, i) {
      UpdateKeepsRow(rows, items, p, t, j, i);
    }
    forall i, k | |rows| <= i < k < |r|
      ensures FirstResult(items, r[i].steamId) < FirstResult(items, r[k].steamId)
    {
      assert InsertedRow(rows, p, t, i) && InsertedRow(rows, p, t, k);
      FirstResultStep(items, t[i].steamId);
      FirstResultStep(items, t[k].steamId);
    }
  }

  /** A price update keeps every result's app id in the table. */
  lemma UpdateKeepsAllResults(items: seq<SteamGame>, p: seq<SteamGame>, t: seq<Game>, j: nat)
    requires items != [] && p == items[..|items| - 1]
    requires forall k :: 0 <= k < |p| ==> p[k].appid in SteamIds(t)
    requires IndexOf(SteamIds(t), items[|items| - 1].appid) == Some(j)
    ensures forall k :: 0 <= k < |items| ==> items[k].appid in SteamIds(SetPrice(t, j, items[|items| - 1].price))
  {
    var x := items[|items| - 1];
    SetPriceColumns(t, j, x.price);
    forall k | 0 <= k < |items| ensures items[k].appid in SteamIds(t) {
      if k < |p| {
        assert items[k] == p[k];
      }
    }
  }

  lemma ReconcileStepUpdate(rows: seq<Game>, items: seq<SteamGame>, t: seq<Game>, j: nat)
    requires items != []
    requires Reconciled(rows, items[..|items| - 1], t)
    requires IndexOf(SteamIds(t), items[|items| - 1].appid) == Some(j)
    ensures Reconciled(rows, items, SetPrice(t, j, items[|items| - 1].price))
  {
    UpdateKeepsOldRows(rows, t, j, items[|items| - 1].price);
    UpdateOldPrices(rows, items, t, j);
    UpdateNewRows(rows, items, items[..|items| - 1], t, j);
    UpdateKeepsAllResults(items, items[..|items| - 1], t, j);
  }

  /** An insert keeps the description of a row inserted before it. */
  lemma InsertKeepsRow(rows: seq<Game>, items: seq<SteamGame>, t: seq<Game>, i: nat)
    requires items != []
    requires |rows| <= i < |t|
    requires InsertedRow(rows, items[..|items| - 1], t, i)
    requires items[|items| - 1].appid !in SteamIds(t)
    ensures var x := items[|items| - 1];
      InsertedRow(rows, items, t + [Game(x.name, x.appid, x.price)], i)
  {
    var x := items[|items| - 1];
    var r := t + [Game(x.name, x.appid, x.price)];
    var a := t[i].steamId;
    assert r[i] == t[i];
    assert a != x.appid;
    AppendColumns(t, Game(x.name, x.appid, x.price));
    IndexOfPrefix(SteamIds(t), SteamIds(r), a);
    FirstResultStep(items, a);
  }

  /** The row an insert appends meets the description. */
  lemma InsertedNewRow(rows: seq<Game>, items: seq<SteamGame>, t: seq<Game>)
    requires items != []
    requires |rows| <= |t|
    requires items[|items| - 1].appid !in SteamIds(t)
    requires items[|items| - 1].appid !in AppIds(items[..|items| - 1])
    requires items[|items| - 1].appid !in SteamIds(rows)
    ensures var x := items[|items| - 1];
      InsertedRow(rows, items, t + [Game(x.name, x.appid, x.price)], |t|)
  {
    var x := items[|items| - 1];
    AppendColumns(t, Game(x.name, x.appid, x.price));
    FirstResultStep(items, x.appid);
    IndexOfAppended(SteamIds(t), x.appid);
  }

  lemma InsertNewRowsInserted(rows: seq<Game>, items: seq<SteamGame>, p: seq<SteamGame>, t: seq<Game>)
    requires items != [] && p == items[..|items| - 1]
    requires |rows| <= |t|
    requires forall i :: |rows| <= i < |t| ==> InsertedRow(rows, p, t, i)
    requires items[|items| - 1].appid !in SteamIds(t)
    requires items[|items| - 1].appid !in AppIds(items[..|items| - 1])
    requires items[|items| - 1].appid !in SteamIds(rows)
    ensures var x := items[|items| - 1];
      var r := t + [Game(x.name, x.appid, x.price)];
      forall i :: |rows| <= i < |r| ==> InsertedRow(rows, items, r, i)
  {
    var x := items[|items| - 1];
    var r := t + [Game(x.name, x.appid, x.price)];
    forall i | |rows| <= i < |r| ensures InsertedRow(rows, items, r, i) {
      if i < |t| {
        InsertKeepsRow(rows, items, t, i);
      } else {
        InsertedNewRow(rows, items, t);
      }
    }
  }

  lemma InsertNewRowsOrder(rows: seq<Game>, items: seq<SteamGame>, t: seq<Game>)
    requires items != []
    requires Reconciled(rows, items[..|items| - 1], t)
    requires items[|items| - 1].appid !in AppIds(items[..|items| - 1])
    ensures var x := items[|items| - 1];
      var r := t + [Game(x.name, x.appid, x.price)];
      forall i, k :: |rows| <= i < k < |r| ==> FirstResult(items, r[i].steamId) < FirstResult(items, r[k].steamId)
  {
    var p, x := items[..|items| - 1], items[|items| - 1];
    var r := t + [Game(x.name, x.appid, x.price)];
    FirstResultStep(items, x.appid);
    forall i, k | |rows| <= i < k < |r|
      ensures FirstResult(items, r[i].steamId) < FirstResult(items, r[k].steamId)
    {
      assert InsertedRow(rows, p, t, i);
      FirstResultStep(items, t[i].steamId);
      if k < |t| {
        assert InsertedRow(rows, p, t, k);
        FirstResultStep(items, t[k].steamId);
      }
    }
  }

  lemma ReconcileStepInsert(rows: seq<Game>, items: seq<SteamGame>, t: seq<Game>)
    requires items != []
    requires Reconciled(rows, items[..|items| - 1], t)
    requires items[|items| - 1].appid !in SteamIds(t)
    ensures var x := items[|items| - 1];
      Reconciled(rows, items, t + [Game(x.name, x.appid, x.price)])
  {
    var p, x := items[..|items| - 1], items[|items| - 1];
    var r := t + [Game(x.name, x.appid, x.price)];
    AppendColumns(t, Game(x.name, x.appid, x.price));
    forall k | 0 <= k < |p| ensures AppIds(p)[k] != x.appid {
      assert p[k].appid in SteamIds(t);
    }
    forall i | 0 <= i < |rows| ensures SteamIds(rows)[i] != x.appid {
      assert SteamIds(rows)[i] == SteamIds(t)[i];
    }
    InsertNewRowsInserted(rows, items, p, t);
    InsertNewRowsOrder(rows, items, t);
    forall k | 0 <= k < |items| ensures items[k].appid in SteamIds(r) {
      if k < |p| {
        assert items[k] == p[k];
        assert p[k].appid in SteamIds(t);
      }
    }
  }

  /** The insert-or-update loop meets its closed-form description. */
  lemma {:induction false} ReconcileSpec(rows: seq<Game>, items: seq<SteamGame>)
    requires Reconcile(rows, items).Some?
    ensures Reconciled(rows, items, Reconcile(rows, items).value)
    decreases |items|
  {
    if items != [] {
      var p, x := items[..|items| - 1], items[|items| - 1];
      ReconcileSpec(rows, p);
      var t := Reconcile(rows, p).value;
      match IndexOf(SteamIds(t), x.appid)
      case Some(j) =>
        ReconcileStepUpdate(rows, items, t, j);
      case None =>
        ReconcileStepInsert(rows, items, t);
    }
  }

  /** After the loop every result's app id has a row, and the first such
      row holds the price of the last result with that id. */
  lemma ReconcilePricesEveryResult(rows: seq<Game>, items: seq<SteamGame>, k: nat)
    requires Reconcile(rows, items).Some?
    requires k < |items|
    ensures var r := Reconcile(rows, items).value;
      && IndexOf(SteamIds(r), items[k].appid).Some?
      && r[IndexOf(SteamIds(r), items[k].appid).value].price == LastPrice(items, items[k].appid).value
  {
    var r := Reconcile(rows, items).value;
    ReconcileSpec(rows, items);
    var a := items[k].appid;
    assert a in AppIds(items);
    var i := IndexOf(SteamIds(r), a).value;
    if a in SteamIds(rows) {
      IndexOfPrefix(SteamIds(rows), SteamIds(r), a);
    } else {
      assert forall m :: 0 <= m < |rows| ==> SteamIds(r)[m] == SteamIds(rows)[m];
      assert i >= |rows|;
      assert InsertedRow(rows, items, r, i);
    }
  }

  /** Updates keep names and an insert is refused when its name is taken,
      so the loop keeps game names unique. */
  lemma {:induction false} ReconcileKeepsNamesDistinct(rows: seq<Game>, items: seq<SteamGame>)
    requires Distinct(Names(rows))
    requires Reconcile(rows, items).Some?
    ensures Distinct(Names(Reconcile(rows, items).value))
    decreases |items|
  {
    if items != [] {
      var p, x := items[..|items| - 1], items[|items| - 1];
      ReconcileKeepsNamesDistinct(rows, p);
      var t := Reconcile(rows, p).value;
      match IndexOf(SteamIds(t), x.appid)
      case Some(j) =>
        SetPriceColumns(t, j, x.price);
      case None =>
        AppendColumns(t, Game(x.name, x.appid, x.price));
    }
  }

  /** Results whose names are new to the table and to each other never hit
      the unique-name constraint. */
  lemma {:induction false} ReconcileSucceedsOnFreshNames(rows: seq<Game>, items: seq<SteamGame>)
    requires forall k :: 0 <= k < |items| ==> items[k].name !in Names(rows)
    requires forall k, l :: 0 <= k < l < |items| ==> items[k].name != items[l].name
    ensures Reconcile(rows, items).Some?
    decreases |items|
  {
    if items != [] {
      var p, x := items[..|items| - 1], items[|items| - 1];
      ReconcileSucceedsOnFreshNames(rows, p);
      var t := Reconcile(rows, p).value;
      ReconcileSpec(rows, p);
      forall i | 0 <= i < |t| ensures Names(t)[i] != x.name {
        if i < |rows| {
          assert Names(t)[i] == Names(rows)[i];
        } else {
          assert InsertedRow(rows, p, t, i);
          var k := IndexOf(AppIds(p), t[i].steamId).value;
          assert items[k] == p[k];
        }
      }
    }
  }

  /** When every result's app id is already in the table, inserting never
      happens and the two loops write the same table. */
  lemma {:induction false} ReconcileOfKnownIds(rows: seq<Game>, items: seq<SteamGame>)
    requires forall k :: 0 <= k < |items| ==> items[k].appid in SteamIds(rows)
    ensures Reconcile(rows, items) == Some(RefreshPrices(rows, items))
    decreases |items|
  {
    if items != [] {
      var p, x := items[..|items| - 1], items[|items| - 1];
      assert forall k :: 0 <= k < |p| ==> p[k] == items[k];
      ReconcileOfKnownIds(rows, p);
      RefreshPricesSpec(rows, p);
      assert x.appid in SteamIds(RefreshPrices(rows, p));
    }
  }

  /** Once an insert has hit the unique-name constraint, later results
      cannot undo it: the whole batch fails. */
  lemma {:induction false} ReconcileConflictPersists(rows: seq<Game>, items: seq<SteamGame>, n: nat)
    requires n <= |items|
    requires Reconcile(rows, items[..n]).None?
    ensures Reconcile(rows, items).None?
    decreases |items| - n
  {
    if n == |items| {
      assert items[..n] == items;
    } else {
      var p := items[..|items| - 1];
      assert p[..n] == items[..n];
      ReconcileConflictPersists(rows, p, n);
    }
  }

  /** One more iteration of the insert-or-update loop. */
  lemma ReconcilePrefix(rows: seq<Game>, items: seq<SteamGame>, k: nat)
    requires k < |items|
    ensures Reconcile(rows, items[..k + 1])
         == match Reconcile(rows, items[..k]) case None => None case Some(t) => UpsertOne(t, items[k])
  {
    assert items[..k + 1][..k] == items[..k];
  }

  /** A pass of the insert-or-update loop that succeeds extends a successful prefix. */
  lemma ReconcileStep(rows: seq<Game>, items: seq<SteamGame>, k: nat, before: seq<Game>, after: seq<Game>)
    requires k < |items|
    requires Reconcile(rows, items[..k]) == Some(before)
    requires UpsertOne(before, items[k]) == Some(after)
    ensures Reconcile(rows, items[..k + 1]) == Some(after)
  {
    ReconcilePrefix(rows, items, k);
  }

  /** A pass that hits the unique-name constraint fails the whole batch. */
  lemma ReconcileStepFails(rows: seq<Game>, items: seq<SteamGame>, k: nat, before: seq<Game>)
    requires k < |items|
    requires Reconcile(rows, items[..k]) == Some(before)
    requires UpsertOne(before, items[k]).None?
    ensures Reconcile(rows, items).None?
  {
    ReconcilePrefix(rows, items, k);
    ReconcileConflictPersists(rows, items, k + 1);
  }

  /** One more iteration of the refresh loop. */
  lemma RefreshPrefix(rows: seq<Game>, items: seq<SteamGame>, k: nat)
    requires k < |items|
    ensures RefreshPrices(rows, items[..k + 1]) == RefreshOne(RefreshPrices(rows, items[..k]), items[k])
  {
    assert items[..k + 1][..k] == items[..k];
  }

  // ---- the whole search -------------------------------------------------

  /** The ids of the rows appended past the first `before`. */
  function NewIds(before: nat, after: nat): (ids: seq<GameId>)
    requires before <= after
  {
    seq(after - before, k requires 0 <= k < after - before => before + 1 + k)
  }

  lemma NewIdsSnoc(before: nat, after: nat)
    requires before <= after
    ensures NewIds(before, after + 1) == NewIds(before, after) + [after + 1]
  {
  }

  /** `search`: the new table and the response, given the query, the store
      search answer and the details answers. */
  function SearchSpec(rows: seq<Game>, query: string, search: Option<seq<SearchItem>>,
                      details: map<AppId, Option<int>>): (seqAndResponse: (seq<Game>, SearchResponse))
  {
    var local := LocalMatches(rows, query);
    var found := Lookup(query, search, details);
    if local != [] then (RefreshPrices(rows, found), Rendered(local))
    else match Reconcile(rows, found)
      case None => (rows, NameConflict)
      case Some(r) => (r, Rendered(NewIds(|rows|, |r|)))
  }

  /** With local matches the table keeps its rows, names and steam ids,
      only refreshed prices change, and the response is the rows that
      matched before the refresh. */
  lemma SearchWithLocalMatches(rows: seq<Game>, query: string, search: Option<seq<SearchItem>>,
                               details: map<AppId, Option<int>>)
    requires LocalMatches(rows, query) != []
    ensures var (r, response) := SearchSpec(rows, query, search, details);
      && Refreshed(rows, Lookup(query, search, details), r)
      && response == Rendered(LocalMatches(rows, query))
  {
    RefreshPricesSpec(rows, Lookup(query, search, details));
  }

  /** Without local matches the response is exactly the inserted rows, in
      result order, each holding a result's name and app id; old rows keep
      their names and steam ids; every result's app id is in the table. */
  lemma SearchWithoutLocalMatches(rows: seq<Game>, query: string, search: Option<seq<SearchItem>>,
                                  details: map<AppId, Option<int>>)
    requires LocalMatches(rows, query) == []
    requires Reconcile(rows, Lookup(query, search, details)).Some?
    ensures var (r, response) := SearchSpec(rows, query, search, details);
      && Reconciled(rows, Lookup(query, search, details), r)
      && response.Rendered?
      && |response.shown| == |r| - |rows|
      && forall k :: 0 <= k < |response.shown| ==> response.shown[k] == |rows| + 1 + k
  {
    ReconcileSpec(rows, Lookup(query, search, details));
  }

  /** A failed store search changes nothing and shows the local matches. */
  lemma SearchFailureShowsLocal(rows: seq<Game>, query: string, details: map<AppId, Option<int>>)
    ensures SearchSpec(rows, query, None, details) == (rows, Rendered(LocalMatches(rows, query)))
  {
    assert NewIds(|rows|, |rows|) == [];
  }

  /** The store offers Portal (app 400) for a query "Portal". */
  lemma PortalFound(cents: int)
    ensures Lookup("Portal", Some([SearchItem("Portal", 400)]), map[400 := Some(cents)])
         == [SteamGame("Portal", 400, DollarPrice(cents))]
  {
    ContainingNameMatches("Portal", "Portal");
    assert [SearchItem("Portal", 400)][..0] == [];
  }

  /** A row named "Portal" matches the query "Portal" locally. */
  lemma PortalMatchesLocally(price: real)
    ensures LocalMatches([Game("Portal", 400, price)], "Portal") == [1]
  {
    IlikeSelf("Portal");
    assert [Game("Portal", 400, price)][..0] == [];
  }

  /** Searching for "Portal" on an empty table when the store has Portal
      (app 400) at 999 cents inserts it and shows it. */
  lemma PortalFirstSearch()
    ensures SearchSpec([], "Portal", Some([SearchItem("Portal", 400)]), map[400 := Some(999)])
         == ([Game("Portal", 400, 9.99)], Rendered([1]))
  {
    PortalFound(999);
    var found := [SteamGame("Portal", 400, 9.99)];
    var none: seq<Game> := [];
    assert found[..0] == [];
    assert SteamIds(none) == [] && Names(none) == [];
    assert IndexOf(SteamIds(none), 400) == None;
    assert none + [Game("Portal", 400, 9.99)] == [Game("Portal", 400, 9.99)];
    assert UpsertOne(none, found[0]) == Some([Game("Portal", 400, 9.99)]);
    assert Reconcile(none, found) == Some([Game("Portal", 400, 9.99)]);
    assert NewIds(0, 1) == [1];
  }

  /** Searching again when the store now asks 499 cents: the row matched
      locally, so it is updated in place and shown, with the new price. */
  lemma PortalSecondSearch()
    ensures SearchSpec([Game("Portal", 400, 9.99)], "Portal", Some([SearchItem("Portal", 400)]), map[400 := Some(499)])
         == ([Game("Portal", 400, 4.99)], Rendered([1]))
  {
    PortalFound(499);
    PortalMatchesLocally(9.99);
    var rows := [Game("Portal", 400, 9.99)];
    var found := [SteamGame("Portal", 400, 4.99)];
    assert found[..0] == [];
    assert IndexOf(SteamIds(rows), 400) == Some(0);
    assert RefreshPrices(rows, found) == [Game("Portal", 400, 4.99)];
  }

  /** An insert whose name another steam id already holds fails the search. */
  lemma NameTakenConflicts()
    ensures Reconcile([Game("Portal", 400, 9.99)], [SteamGame("Portal", 401, 4.99)]) == None
  {
    var rows := [Game("Portal", 400, 9.99)];
    var items := [SteamGame("Portal", 401, 4.99)];
    assert items[..0] == [];
    assert Names(rows)[0] == "Portal";
    assert 401 !in SteamIds(rows);
  }
}
