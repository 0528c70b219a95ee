/** The assembly-order sync: a period is cut into 30-day windows, each window is fetched page by
    page, and every order fetched is upserted. */
module FbsWindows {
  import opened Common
  import opened Orders
  import opened OrderDedup
  import opened RowHistories

  const SECOND := 1_000_000                       // times are in microseconds
  const WINDOW := 2_592_000_000_000               // 30 days

  datatype Window = Window(from: int, to: int)

  // ----- Splitting the period

  function Min(a: int, b: int): int {
    if a < b then a else b
  }

  function Windows(from: int, to: int): seq<Window>
    decreases if from < to then to - from else 0
  {
    if from >= to then []
    else [Window(from, Min(from + WINDOW, to))] + Windows(Min(from + WINDOW, to), to)
  }

  method SplitWindows(from: int, to: int) returns (ws: seq<Window>)
    ensures ws == Windows(from, to)
  {
    ws := [];
    var start := from;
    while start < to
      invariant ws + Windows(start, to) == Windows(from, to)
    {
      var end := Min(start + WINDOW, to);
      assert Windows(start, to) == [Window(start, end)] + Windows(end, to);
      ws := ws + [Window(start, end)];
      start := end;
    }
  }

  /** `ws` tiles the period: each window is non-empty and at most 30 days long, each begins where the one
      before ends, the first begins and the last ends with the period, and none could be spared. */
  ghost predicate Tiles(ws: seq<Window>, from: int, to: int) {
    && ws != [] && ws[0].from == from && ws[|ws| - 1].to == to
    && (forall i | 0 <= i < |ws| :: ws[i].from < ws[i].to <= ws[i].from + 30 * 24 * 3600 * 1_000_000)
    && (forall i, j | 0 <= i < |ws| && j == i + 1 && j < |ws| :: ws[i].to == ws[j].from)
    && (|ws| - 1) * (30 * 24 * 3600 * 1_000_000) < to - from <= |ws| * (30 * 24 * 3600 * 1_000_000)
  }

  lemma {:induction false} WindowsTile(from: int, to: int)
    ensures if from < to then Tiles(Windows(from, to), from, to) else Windows(from, to) == []
    decreases if from < to then to - from else 0
  {
    var mid := Min(from + WINDOW, to);
    if mid < to {
      WindowsTile(mid, to);
    }
  }

  // ----- One window's pages

  /** One page of a listing: what `/api/v3/orders` returns from `cursor`, with the cursor that follows.
      The last page may come with a zero cursor, or be followed by an empty page. */
  function ServePage<T>(listing: seq<T>, cursor: nat, limit: nat, closes: bool): (seq<T>, nat) {
    var from := if cursor < |listing| then cursor else |listing|;
    var to := if from + limit < |listing| then from + limit else |listing|;
    (listing[from..to], if closes && to == |listing| then 0 else to)
  }

  method GetFbsOrders<T>(listing: seq<T>, limit: nat, closes: bool) returns (all: seq<T>)
    requires limit > 0
    ensures all == listing
  {
    all := [];
    var next := 0;
    while true
      invariant next <= |listing| && all == listing[..next]
      decreases |listing| - next
    {
      var (orders, following) := ServePage(listing, next, limit, closes);
      all := all + orders;
      if following == 0 || orders == [] {
        break;
      }
      next := following;
    }
  }

  // ----- The fetched orders

  /** An order of the marketplace with its creation time in whole seconds. */
  datatype FbsOrder = FbsOrder(created: int, arrival: Arrival)

  /** The orders created within a closed range of seconds, in listing order. */
  function CreatedWithin(listing: seq<FbsOrder>, from: int, to: int): seq<FbsOrder> {
    if listing == [] then []
    else
      var n := |listing| - 1;
      var rest := CreatedWithin(listing[..n], from, to);
      if from <= listing[n].created <= to then rest + [listing[n]] else rest
  }

  /** `_wb_unix_timestamp_utc` drops the microseconds. */
  function UnixSeconds(t: int): int {
    t / SECOND
  }

  function Fetch(listing: seq<FbsOrder>, w: Window): seq<FbsOrder> {
    CreatedWithin(listing, UnixSeconds(w.from), UnixSeconds(w.to))
  }

  function FetchAll(listing: seq<FbsOrder>, ws: seq<Window>): seq<FbsOrder> {
    if ws == [] then [] else Fetch(listing, ws[0]) + FetchAll(listing, ws[1..])
  }

  function Arrivals(orders: seq<FbsOrder>): seq<Arrival> {
    seq(|orders|, i requires 0 <= i < |orders| => orders[i].arrival)
  }

  /** The entries of one sale. */
  function Of(listing: seq<FbsOrder>, x: Identity): seq<FbsOrder> {
    if listing == [] then []
    else
      var n := |listing| - 1;
      if ArrivalIdentity(listing[n].arrival) == x then Of(listing[..n], x) + [listing[n]] else Of(listing[..n], x)
  }

  /** What the sync stores is normalised as historical: every arrival is a statistics order. */
  ghost predicate Historical(orders: seq<FbsOrder>, sridOf: (int, string) -> Option<string>) {
    forall o | o in orders :: ArrivalAgrees(o.arrival, sridOf) && o.arrival.order.source == Some(StatisticsOrder)
  }

  /** No entry created at or after second `b` is listed before one created earlier, nor one created after
      it before one created by it. */
  ghost predicate InOrderAt(listing: seq<FbsOrder>, b: int) {
    forall i, j | 0 <= i < j < |listing| ::
      && (listing[j].created < b ==> listing[i].created < b)
      && (listing[j].created <= b ==> listing[i].created <= b)
  }

  /** The listing is in order at every second where two windows of the period meet. */
  ghost predicate InOrderAcross(listing: seq<FbsOrder>, from: int, to: int) {
    forall w | w in Windows(from, to) && w.to < to :: InOrderAt(listing, UnixSeconds(w.to))
  }

  /** Each sale's own entries are; entries of different sales may come in any order. */
  ghost predicate SalesInOrderAcross(listing: seq<FbsOrder>, from: int, to: int) {
    forall x :: InOrderAcross(Of(listing, x), from, to)
  }

  /** Entries of one sale all carry one creation time, as they do when no sale is listed twice. */
  ghost predicate CreatedOnce(listing: seq<FbsOrder>) {
    forall o, o' | o in listing && o' in listing && ArrivalIdentity(o.arrival) == ArrivalIdentity(o'.arrival) ::
      o.created == o'.created
  }

  lemma {:induction false} OfMembers(listing: seq<FbsOrder>, x: Identity)
    ensures forall o | o in Of(listing, x) :: o in listing && ArrivalIdentity(o.arrival) == x
  {
    if listing != [] {
      OfMembers(listing[..|listing| - 1], x);
    }
  }

  lemma CreatedOnceIsInOrder(listing: seq<FbsOrder>, from: int, to: int)
    requires CreatedOnce(listing)
    ensures SalesInOrderAcross(listing, from, to)
  {
    forall x, w | w in Windows(from, to) && w.to < to ensures InOrderAt(Of(listing, x), UnixSeconds(w.to)) {
      OfMembers(listing, x);
      var h := Of(listing, x);
      forall i, j | 0 <= i < j < |h| ensures h[i].created == h[j].created {
        assert h[i] in h && h[j] in h;
      }
    }
  }

  lemma {:induction false} WithinMembers(listing: seq<FbsOrder>, from: int, to: int)
    ensures forall o | o in CreatedWithin(listing, from, to) :: o in listing
  {
    if listing != [] {
      WithinMembers(listing[..|listing| - 1], from, to);
    }
  }

  lemma {:induction false} WithinEmpty(listing: seq<FbsOrder>, from: int, to: int)
    requires forall i | 0 <= i < |listing| :: listing[i].created < from
    ensures CreatedWithin(listing, from, to) == []
  {
    if listing != [] {
      WithinEmpty(listing[..|listing| - 1], from, to);
    }
  }

  lemma {:induction false} WithinSplits(listing: seq<FbsOrder>, from: int, mid: int, to: int)
    requires forall i, j | 0 <= i < j < |listing| && listing[j].created < mid :: listing[i].created < mid
    requires from <= mid <= to + 1
    ensures CreatedWithin(listing, from, to) == CreatedWithin(listing, from, mid - 1) + CreatedWithin(listing, mid, to)
    decreases |listing|
  {
    if listing != [] {
      var n := |listing| - 1;
      WithinSplits(listing[..n], from, mid, to);
      if listing[n].created < mid {
        WithinEmpty(listing, mid, to);
        WithinEmpty(listing[..n], mid, to);
      }
    }
  }

  /** What two windows that meet at `mid` fetch: the orders of that second twice. */
  lemma TwoWindowsOverlap(listing: seq<FbsOrder>, from: int, mid: int, to: int)
    requires InOrderAt(listing, mid) && from <= mid <= to
    ensures var a, b, c := CreatedWithin(listing, from, mid - 1), CreatedWithin(listing, mid, mid), CreatedWithin(listing, mid + 1, to);
            && CreatedWithin(listing, from, mid) + CreatedWithin(listing, mid, to) == a + b + b + c
            && CreatedWithin(listing, from, to) == a + b + c
  {
    WithinSplits(listing, from, mid, mid);
    WithinSplits(listing, mid, mid + 1, to);
    WithinSplits(listing, from, mid + 1, to);
  }

  lemma ArrivalsAppend(a: seq<FbsOrder>, b: seq<FbsOrder>)
    ensures Arrivals(a + b) == Arrivals(a) + Arrivals(b)
  {
  }

  lemma ArrivalsOf(orders: seq<FbsOrder>)
    ensures forall a :: a in Arrivals(orders) <==> exists o | o in orders :: o.arrival == a
  {
    forall o | o in orders ensures o.arrival in Arrivals(orders) {
      var i :| 0 <= i < |orders| && orders[i] == o;
      assert Arrivals(orders)[i] == o.arrival;
    }
  }

  // ----- One sale, seen through the windows

  lemma {:induction false} OfAppend(a: seq<FbsOrder>, b: seq<FbsOrder>, x: Identity)
    ensures Of(a + b, x) == Of(a, x) + Of(b, x)
    decreases |b|
  {
    if b == [] {
      assert a + b == a;
    } else {
      OfAppend(a, b[..|b| - 1], x);
      assert (a + b)[..|a + b| - 1] == a + b[..|b| - 1];
    }
  }

  lemma {:induction false} OfWithin(listing: seq<FbsOrder>, from: int, to: int, x: Identity)
    ensures Of(CreatedWithin(listing, from, to), x) == CreatedWithin(Of(listing, x), from, to)
  {
    if listing != [] {
      var rest, o := listing[..|listing| - 1], listing[|listing| - 1];
      OfWithin(rest, from, to, x);
    }
  }

  lemma {:induction false} OfFetchAll(listing: seq<FbsOrder>, ws: seq<Window>, x: Identity)
    ensures Of(FetchAll(listing, ws), x) == FetchAll(Of(listing, x), ws)
    decreases |ws|
  {
    if ws != [] {
      OfFetchAll(listing, ws[1..], x);
      OfWithin(listing, UnixSeconds(ws[0].from), UnixSeconds(ws[0].to), x);
      OfAppend(Fetch(listing, ws[0]), FetchAll(listing, ws[1..]), x);
    }
  }

  lemma {:induction false} HistoryOfArrivals(orders: seq<FbsOrder>, x: Identity)
    ensures HistoryOf(Arrivals(orders), x) == Arrivals(Of(orders, x))
  {
    if orders != [] {
      var n := |orders| - 1;
      HistoryOfArrivals(orders[..n], x);
      assert Arrivals(orders)[..n] == Arrivals(orders[..n]);
    }
  }

  // ----- Windows against one fetch

  /** The orders of the second in which two windows meet come twice; that makes nothing else of a row. */
  lemma TwoWindowsSameRow(
    row: Option<Order>, h: seq<FbsOrder>, from: int, mid: int, to: int, sridOf: (int, string) -> Option<string>)
    requires Historical(h, sridOf) && InOrderAt(h, mid) && from <= mid <= to
    ensures Fold(row, Arrivals(CreatedWithin(h, from, mid) + CreatedWithin(h, mid, to)))
         == Fold(row, Arrivals(CreatedWithin(h, from, to)))
  {
    var a, b, c := CreatedWithin(h, from, mid - 1), CreatedWithin(h, mid, mid), CreatedWithin(h, mid + 1, to);
    TwoWindowsOverlap(h, from, mid, to);
    WithinMembers(h, mid, mid);
    ArrivalsAppend(a, b);
    ArrivalsAppend(a + b, b);
    ArrivalsAppend(a + b + b, c);
    ArrivalsAppend(a + b, c);
    FoldAppend(row, Arrivals(a + b + b), Arrivals(c));
    FoldAppend(row, Arrivals(a + b), Arrivals(c));
    FoldAppend(row, Arrivals(a + b), Arrivals(b));
    FoldAppend(row, Arrivals(a), Arrivals(b));
    ReplayedHistory(Fold(row, Arrivals(a)), Arrivals(b));
  }

  lemma {:induction false} WindowsSameRow(
    row: Option<Order>, h: seq<FbsOrder>, from: int, to: int, sridOf: (int, string) -> Option<string>)
    requires from < to && Historical(h, sridOf) && InOrderAcross(h, from, to)
    ensures Fold(row, Arrivals(FetchAll(h, Windows(from, to)))) == Fold(row, Arrivals(Fetch(h, Window(from, to))))
    decreases if from < to then to - from else 0
  {
    var mid := Min(from + WINDOW, to);
    var ws, first := Windows(from, to), Fetch(h, Window(from, mid));
    assert ws == [Window(from, mid)] + Windows(mid, to);
    var later := FetchAll(h, Windows(mid, to));
    assert ws[0] == Window(from, mid) && ws[1..] == Windows(mid, to);
    if mid == to {
      assert later == [] && first + later == first;
    } else {
      var second := Fetch(h, Window(mid, to));
      assert Window(from, mid) in ws;
      WindowsSameRow(Fold(row, Arrivals(first)), h, mid, to, sridOf);
      ArrivalsAppend(first, later);
      ArrivalsAppend(first, second);
      FoldAppend(row, Arrivals(first), Arrivals(later));
      FoldAppend(row, Arrivals(first), Arrivals(second));
      TwoWindowsSameRow(row, h, UnixSeconds(from), UnixSeconds(mid), UnixSeconds(to), sridOf);
    }
  }

  lemma TwoWindowsSameOrder(sales: seq<Identity>, listing: seq<FbsOrder>, from: int, mid: int, to: int)
    requires InOrderAt(listing, mid) && from <= mid <= to
    ensures Noted(sales, Arrivals(CreatedWithin(listing, from, mid) + CreatedWithin(listing, mid, to)))
         == Noted(sales, Arrivals(CreatedWithin(listing, from, to)))
  {
    var a, b, c := CreatedWithin(listing, from, mid - 1), CreatedWithin(listing, mid, mid), CreatedWithin(listing, mid + 1, to);
    TwoWindowsOverlap(listing, from, mid, to);
    ArrivalsAppend(a, b);
    ArrivalsAppend(a + b, b);
    ArrivalsAppend(a + b + b, c);
    ArrivalsAppend(a + b, c);
    NotedAppend(sales, Arrivals(a + b + b), Arrivals(c));
    NotedAppend(sales, Arrivals(a + b), Arrivals(c));
    NotedAppend(sales, Arrivals(a + b), Arrivals(b));
    NotedHolds(sales, Arrivals(a + b));
    NotedHolds(Noted(sales, Arrivals(a + b)), Arrivals(b));
  }

  lemma {:induction false} WindowsSameOrder(sales: seq<Identity>, listing: seq<FbsOrder>, from: int, to: int)
    requires from < to && InOrderAcross(listing, from, to)
    ensures Noted(sales, Arrivals(FetchAll(listing, Windows(from, to))))
         == Noted(sales, Arrivals(Fetch(listing, Window(from, to))))
    decreases if from < to then to - from else 0
  {
    var mid := Min(from + WINDOW, to);
    var ws, first := Windows(from, to), Fetch(listing, Window(from, mid));
    assert ws == [Window(from, mid)] + Windows(mid, to);
    var later := FetchAll(listing, Windows(mid, to));
    assert ws[0] == Window(from, mid) && ws[1..] == Windows(mid, to);
    if mid == to {
      assert later == [] && first + later == first;
    } else {
      var second := Fetch(listing, Window(mid, to));
      assert Window(from, mid) in ws;
      WindowsSameOrder(Noted(sales, Arrivals(first)), listing, mid, to);
      ArrivalsAppend(first, later);
      ArrivalsAppend(first, second);
      NotedAppend(sales, Arrivals(first), Arrivals(later));
      NotedAppend(sales, Arrivals(first), Arrivals(second));
      TwoWindowsSameOrder(sales, listing, UnixSeconds(from), UnixSeconds(mid), UnixSeconds(to));
    }
  }

  lemma {:induction false} WithinHas(listing: seq<FbsOrder>, from: int, to: int, o: FbsOrder)
    ensures o in CreatedWithin(listing, from, to) <==> o in listing && from <= o.created <= to
  {
    if listing != [] {
      WithinHas(listing[..|listing| - 1], from, to, o);
    }
  }

  lemma {:induction false} FetchAllHas(listing: seq<FbsOrder>, ws: seq<Window>, o: FbsOrder)
    ensures o in FetchAll(listing, ws) <==>
            o in listing && exists w | w in ws :: UnixSeconds(w.from) <= o.created <= UnixSeconds(w.to)
    decreases |ws|
  {
    if ws != [] {
      FetchAllHas(listing, ws[1..], o);
      WithinHas(listing, UnixSeconds(ws[0].from), UnixSeconds(ws[0].to), o);
      assert forall w :: w in ws <==> w == ws[0] || w in ws[1..];
    }
  }

  lemma {:induction false} FetchAllMembers(listing: seq<FbsOrder>, ws: seq<Window>)
    ensures forall o | o in FetchAll(listing, ws) :: o in listing
    decreases |ws|
  {
    if ws != [] {
      FetchAllMembers(listing, ws[1..]);
      WithinMembers(listing, UnixSeconds(ws[0].from), UnixSeconds(ws[0].to));
    }
  }

  lemma FetchesAgree(listing: seq<FbsOrder>, from: int, to: int, sridOf: (int, string) -> Option<string>)
    requires Historical(listing, sridOf)
    ensures forall a | a in Arrivals(FetchAll(listing, Windows(from, to))) || a in Arrivals(Fetch(listing, Window(from, to))) ::
              ArrivalAgrees(a, sridOf)
  {
    FetchAllMembers(listing, Windows(from, to));
    WithinMembers(listing, UnixSeconds(from), UnixSeconds(to));
    ArrivalsOf(FetchAll(listing, Windows(from, to)));
    ArrivalsOf(Fetch(listing, Window(from, to)));
  }

  lemma WindowsSameFolds(
    orders: seq<Order>, listing: seq<FbsOrder>, sridOf: (int, string) -> Option<string>, from: int, to: int, x: Identity)
    requires from < to && Historical(listing, sridOf) && SalesInOrderAcross(listing, from, to)
    ensures Fold(RowOf(orders, x), HistoryOf(Arrivals(FetchAll(listing, Windows(from, to))), x))
         == Fold(RowOf(orders, x), HistoryOf(Arrivals(Fetch(listing, Window(from, to))), x))
  {
    var h := Of(listing, x);
    HistoryOfArrivals(FetchAll(listing, Windows(from, to)), x);
    HistoryOfArrivals(Fetch(listing, Window(from, to)), x);
    OfFetchAll(listing, Windows(from, to), x);
    OfWithin(listing, UnixSeconds(from), UnixSeconds(to), x);
    OfMembers(listing, x);
    WindowsSameRow(RowOf(orders, x), h, from, to, sridOf);
  }

  /** The windowed sync refines one fetch of the whole period, for a listing in any order and with any
      repeats, as long as no sale's own entries are listed against their creation times across a second
      where windows meet: the same rows result, in all columns but their ids.  If the whole listing is
      in order across those seconds, the tables are equal. */
  lemma WindowedSyncIsOneFetch(
    orders: seq<Order>, listing: seq<FbsOrder>, sridOf: (int, string) -> Option<string>, from: int, to: int)
    requires Tidy(orders, sridOf) && Historical(listing, sridOf)
    requires from < to && SalesInOrderAcross(listing, from, to)
    ensures var windowed, whole := After(orders, Arrivals(FetchAll(listing, Windows(from, to)))),
                                   After(orders, Arrivals(Fetch(listing, Window(from, to))));
            && windowed.Ok? && whole.Ok? && SameRows(windowed.value, whole.value)
            && (InOrderAcross(listing, from, to) ==> windowed == whole)
  {
    var p, q := Arrivals(FetchAll(listing, Windows(from, to))), Arrivals(Fetch(listing, Window(from, to)));
    FetchesAgree(listing, from, to, sridOf);
    forall x ensures Fold(RowOf(orders, x), HistoryOf(p, x)) == Fold(RowOf(orders, x), HistoryOf(q, x)) {
      WindowsSameFolds(orders, listing, sridOf, from, to, x);
    }
    SameFoldsSameRows(orders, p, q, sridOf);
    if InOrderAcross(listing, from, to) {
      WindowsSameOrder(SalesOf(orders), listing, from, to);
      SameFoldsSameTable(orders, p, q, sridOf);
    }
  }

  // ----- The sync loop

  /** `served` lists the positions of the windows that can be fetched: all of them, in order, and no other. */
  ghost predicate InService(ws: seq<Window>, down: Window -> bool, served: seq<nat>) {
    && (forall k | 0 <= k < |served| :: served[k] < |ws| && !down(ws[served[k]]))
    && (forall j, k | 0 <= j < k < |served| :: served[j] < served[k])
    && (forall i: nat | i < |ws| && !down(ws[i]) :: i in served)
  }

  function WindowsAt(ws: seq<Window>, positions: seq<nat>): seq<Window>
    requires forall k | 0 <= k < |positions| :: positions[k] < |ws|
  {
    seq(|positions|, k requires 0 <= k < |positions| => ws[positions[k]])
  }

  lemma ServiceNext(ws: seq<Window>, down: Window -> bool, served: seq<nat>, i: nat)
    requires i < |ws| && InService(ws[..i], down, served)
    ensures InService(ws[..i + 1], down, if down(ws[i]) then served else served + [i])
  {
    var next := if down(ws[i]) then served else served + [i];
    forall j: nat | j < i + 1 && !down(ws[..i + 1][j]) ensures j in next {
      if j == i {
        assert next[|served|] == i;
      } else {
        assert !down(ws[..i][j]) && j in served;
      }
    }
  }

  lemma AtNext(ws: seq<Window>, served: seq<nat>, i: nat)
    requires i < |ws| && forall k | 0 <= k < |served| :: served[k] < i
    ensures WindowsAt(ws[..i + 1], served) == WindowsAt(ws[..i], served)
    ensures WindowsAt(ws[..i + 1], served + [i]) == WindowsAt(ws[..i], served) + [ws[i]]
  {
  }

  /** Where every window can be fetched, all are. */
  lemma AllInService(ws: seq<Window>, down: Window -> bool, served: seq<nat>)
    requires InService(ws, down, served) && forall w | w in ws :: !down(w)
    ensures WindowsAt(ws, served) == ws
  {
    forall k: nat | k < |ws| ensures k < |served| && served[k] == k {
      Unskipped(|ws|, served, k);
    }
    if served != [] {
      Spreads(served, |served| - 1);
      assert served[|served| - 1] < |ws|;
    }
    if ws != [] {
      Unskipped(|ws|, served, |ws| - 1);
    }
  }

  lemma {:induction false} Unskipped(n: nat, served: seq<nat>, k: nat)
    requires forall i, j | 0 <= i < j < |served| :: served[i] < served[j]
    requires forall i: nat | i < n :: i in served
    requires k < n
    ensures k < |served| && served[k] == k
  {
    assert k in served;
    var i :| 0 <= i < |served| && served[i] == k;
    Spreads(served, i);
    if i < k {
      Unskipped(n, served, i);
    }
  }

  lemma {:induction false} Spreads(served: seq<nat>, k: nat)
    requires forall i, j | 0 <= i < j < |served| :: served[i] < served[j]
    requires k < |served|
    ensures served[k] >= k
  {
    if k > 0 {
      Spreads(served, k - 1);
    }
  }

  lemma {:induction false} FetchAllSnoc(listing: seq<FbsOrder>, ws: seq<Window>, w: Window)
    ensures FetchAll(listing, ws + [w]) == FetchAll(listing, ws) + Fetch(listing, w)
    decreases |ws|
  {
    if ws == [] {
      assert FetchAll(listing, [w]) == Fetch(listing, w) + FetchAll(listing, []);
    } else {
      FetchAllSnoc(listing, ws[1..], w);
      assert (ws + [w])[1..] == ws[1..] + [w];
      assert FetchAll(listing, ws) + Fetch(listing, w)
          == Fetch(listing, ws[0]) + (FetchAll(listing, ws[1..]) + Fetch(listing, w));
    }
  }

  /** An order whose upsert raises is skipped; the others go on. */
  datatype Tally = Tally(orders: seq<Order>, created: nat, updated: nat, skipped: nat)

  ghost function Stored(t: Tally, a: Arrival): Tally {
    match Upsert(t.orders, a)
    case Err(_) => t.(skipped := t.skipped + 1)
    case Ok(u) => if u.created then t.(orders := u.orders, created := t.created + 1)
                  else t.(orders := u.orders, updated := t.updated + 1)
  }

  ghost function StoredAll(t: Tally, arrivals: seq<Arrival>): Tally {
    if arrivals == [] then t else Stored(StoredAll(t, arrivals[..|arrivals| - 1]), arrivals[|arrivals| - 1])
  }

  lemma StoredNext(t: Tally, arrivals: seq<Arrival>, i: nat)
    requires i < |arrivals|
    ensures StoredAll(t, arrivals[..i + 1]) == Stored(StoredAll(t, arrivals[..i]), arrivals[i])
  {
    assert arrivals[..i + 1][..i] == arrivals[..i];
  }

  lemma {:induction false} StoredAppend(t: Tally, first: seq<Arrival>, second: seq<Arrival>)
    ensures StoredAll(t, first + second) == StoredAll(StoredAll(t, first), second)
    decreases |second|
  {
    if second == [] {
      assert first + second == first;
    } else {
      StoredAppend(t, first, second[..|second| - 1]);
      assert (first + second)[..|first + second| - 1] == first + second[..|second| - 1];
    }
  }

  /** Where no upsert raises, nothing is skipped; and created orders are the rows added, always. */
  lemma {:induction false} StoredIsAfter(t: Tally, arrivals: seq<Arrival>)
    ensures var s := StoredAll(t, arrivals);
            && s.created + s.updated + s.skipped == t.created + t.updated + t.skipped + |arrivals|
            && |s.orders| - |t.orders| == s.created - t.created
            && (After(t.orders, arrivals).Ok? ==> s.orders == After(t.orders, arrivals).value && s.skipped == t.skipped)
    decreases |arrivals|
  {
    if arrivals != [] {
      StoredIsAfter(t, arrivals[..|arrivals| - 1]);
    }
  }

  /** The table after an upsert, or as it was if that raises. */
  ghost predicate Follows(before: seq<Order>, a: Arrival, after: seq<Order>) {
    match Upsert(before, a)
    case Ok(u) => after == u.orders
    case Err(_) => after == before
  }

  /** `tables` are the tables between the upserts of a run that goes on whatever raises. */
  ghost predicate IsRun(tables: seq<seq<Order>>, arrivals: seq<Arrival>) {
    |tables| == |arrivals| + 1 && forall i | 0 <= i < |arrivals| :: Follows(tables[i], arrivals[i], tables[i + 1])
  }

  ghost predicate RaisesAt(tables: seq<seq<Order>>, arrivals: seq<Arrival>, i: nat) {
    i < |tables| && i < |arrivals| && Upsert(tables[i], arrivals[i]).Err?
  }

  ghost function Raised(tables: seq<seq<Order>>, arrivals: seq<Arrival>): set<nat> {
    set i: nat | i < |arrivals| && RaisesAt(tables, arrivals, i)
  }

  lemma RunNext(tables: seq<seq<Order>>, arrivals: seq<Arrival>, a: Arrival, next: seq<Order>)
    requires IsRun(tables, arrivals) && Follows(tables[|arrivals|], a, next)
    ensures IsRun(tables + [next], arrivals + [a])
    ensures |Raised(tables + [next], arrivals + [a])|
         == |Raised(tables, arrivals)| + if Upsert(tables[|arrivals|], a).Err? then 1 else 0
  {
    var tables', arrivals', n: nat := tables + [next], arrivals + [a], |arrivals|;
    forall i | 0 <= i < n + 1 ensures Follows(tables'[i], arrivals'[i], tables'[i + 1]) {
      assert i < n ==> Follows(tables[i], arrivals[i], tables[i + 1]);
    }
    RaisedNext(tables, arrivals, a, next);
  }

  lemma RaisedNext(tables: seq<seq<Order>>, arrivals: seq<Arrival>, a: Arrival, next: seq<Order>)
    requires |tables| == |arrivals| + 1
    ensures |Raised(tables + [next], arrivals + [a])|
         == |Raised(tables, arrivals)| + if Upsert(tables[|arrivals|], a).Err? then 1 else 0
  {
    var tables', arrivals', n: nat := tables + [next], arrivals + [a], |arrivals|;
    assert forall i: nat | i < n :: RaisesAt(tables', arrivals', i) <==> RaisesAt(tables, arrivals, i);
    assert RaisesAt(tables', arrivals', n) <==> Upsert(tables[n], a).Err?;
    assert Raised(tables', arrivals') == Raised(tables, arrivals) + if RaisesAt(tables', arrivals', n) then {n} else {};
  }

  /** The sync goes through all arrivals, whatever some of them raise, and counts exactly those that raise
      as skipped. */
  lemma {:induction false} SkippedExactly(t: Tally, arrivals: seq<Arrival>) returns (tables: seq<seq<Order>>)
    ensures IsRun(tables, arrivals) && (tables[0], tables[|arrivals|]) == (t.orders, StoredAll(t, arrivals).orders)
    ensures StoredAll(t, arrivals).skipped == t.skipped + |Raised(tables, arrivals)|
    decreases |arrivals|
  {
    if arrivals == [] {
      tables := [t.orders];
      assert Raised(tables, arrivals) == {};
    } else {
      var n := |arrivals| - 1;
      var rest := arrivals[..n];
      var before := SkippedExactly(t, rest);
      assert arrivals == rest + [arrivals[n]];
      RunNext(before, rest, arrivals[n], StoredAll(t, arrivals).orders);
      tables := before + [StoredAll(t, arrivals).orders];
    }
  }

  /** What is fetched: the listed orders created within a second that some reachable window spans. */
  lemma FetchedExactly(listing: seq<FbsOrder>, ws: seq<Window>, down: Window -> bool, served: seq<nat>)
    requires InService(ws, down, served)
    ensures forall o :: o in FetchAll(listing, WindowsAt(ws, served)) <==>
              o in listing && exists w | w in ws && !down(w) :: w.from / 1_000_000 <= o.created <= w.to / 1_000_000
    ensures |served| == |set i: nat | i < |ws| && !down(ws[i])|
  {
    var windows := WindowsAt(ws, served);
    forall w ensures w in windows <==> w in ws && !down(w) {
      if w in ws && !down(w) {
        var i: nat :| i < |ws| && ws[i] == w;
        var k :| 0 <= k < |served| && served[k] == i;
        assert windows[k] == w;
      }
    }
    forall o ensures o in FetchAll(listing, windows) <==>
      o in listing && exists w | w in ws && !down(w) :: w.from / 1_000_000 <= o.created <= w.to / 1_000_000
    {
      FetchAllHas(listing, windows, o);
    }
    DistinctSize(served);
    assert Elements(served) == set i: nat | i < |ws| && !down(ws[i]);
  }

  /** Fetches and upserts window by window, skipping windows that cannot be fetched and orders whose
      upsert raises.  An order is fetched exactly if it is listed and a window that can be fetched spans its
      second; windows come in period order.  Over a tidy table with no window skipped, nothing is skipped
      and the rows are those one fetch of the whole period would have left. */
  method SyncAssemblyOrders(
    repo: OrderRepository, listing: seq<FbsOrder>, from: int, to: int, limit: nat, down: Window -> bool,
    ghost sridOf: (int, string) -> Option<string>)
    returns (requestWindows: nat, pagesLoaded: nat, created: nat, updated: nat, skipped: nat,
             ghost served: seq<nat>, ghost fetched: seq<FbsOrder>)
    requires limit > 0
    modifies repo
    ensures var ws := Windows(from, to);
            && requestWindows == |ws| && pagesLoaded == |set i: nat | i < |ws| && !down(ws[i])|
            && InService(ws, down, served) && fetched == FetchAll(listing, WindowsAt(ws, served))
    ensures forall o :: o in fetched <==>
              o in listing && exists w | w in Windows(from, to) && !down(w) ::
                                w.from / 1_000_000 <= o.created <= w.to / 1_000_000
    ensures Tally(repo.orders, created, updated, skipped) == StoredAll(Tally(old(repo.orders), 0, 0, 0), Arrivals(fetched))
    ensures created + updated + skipped == |fetched| && |repo.orders| == |old(repo.orders)| + created
    ensures Tidy(old(repo.orders), sridOf) && Historical(listing, sridOf) && from < to
            && SalesInOrderAcross(listing, from, to) && (forall w | w in Windows(from, to) :: !down(w)) ==>
              var whole := After(old(repo.orders), Arrivals(Fetch(listing, Window(from, to))));
              skipped == 0 && whole.Ok? && SameRows(repo.orders, whole.value)
              && (InOrderAcross(listing, from, to) ==> repo.orders == whole.value)
  {
    var ws := SplitWindows(from, to);
    requestWindows := |ws|;
    ghost var start := repo.orders;
    pagesLoaded, created, updated, skipped, served := SyncWindows(repo, listing, ws, limit, down);
    fetched := FetchAll(listing, WindowsAt(ws, served));
    FetchedExactly(listing, ws, down, served);
    StoredIsAfter(Tally(start, 0, 0, 0), Arrivals(fetched));
    WholePeriod(start, listing, from, to, down, sridOf, served);
  }

  lemma WholePeriod(
    start: seq<Order>, listing: seq<FbsOrder>, from: int, to: int, down: Window -> bool,
    sridOf: (int, string) -> Option<string>, served: seq<nat>)
    requires InService(Windows(from, to), down, served)
    ensures Tidy(start, sridOf) && Historical(listing, sridOf) && from < to
            && SalesInOrderAcross(listing, from, to) && (forall w | w in Windows(from, to) :: !down(w)) ==>
              var windowed, whole := After(start, Arrivals(FetchAll(listing, WindowsAt(Windows(from, to), served)))),
                                     After(start, Arrivals(Fetch(listing, Window(from, to))));
              && windowed.Ok? && whole.Ok? && SameRows(windowed.value, whole.value)
              && (InOrderAcross(listing, from, to) ==> windowed == whole)
  {
    if Tidy(start, sridOf) && Historical(listing, sridOf) && from < to
       && SalesInOrderAcross(listing, from, to) && forall w | w in Windows(from, to) :: !down(w) {
      AllInService(Windows(from, to), down, served);
      WindowedSyncIsOneFetch(start, listing, sridOf, from, to);
    }
  }

  /** The orders of one window more come after those of all before. */
  lemma WindowNext(t: Tally, listing: seq<FbsOrder>, done: seq<Window>, w: Window)
    ensures StoredAll(t, Arrivals(FetchAll(listing, done + [w])))
         == StoredAll(StoredAll(t, Arrivals(FetchAll(listing, done))), Arrivals(Fetch(listing, w)))
  {
    FetchAllSnoc(listing, done, w);
    ArrivalsAppend(FetchAll(listing, done), Fetch(listing, w));
    StoredAppend(t, Arrivals(FetchAll(listing, done)), Arrivals(Fetch(listing, w)));
  }

  method SyncWindows(repo: OrderRepository, listing: seq<FbsOrder>, ws: seq<Window>, limit: nat, down: Window -> bool)
    returns (pagesLoaded: nat, created: nat, updated: nat, skipped: nat, ghost served: seq<nat>)
    requires limit > 0
    modifies repo
    ensures InService(ws, down, served) && pagesLoaded == |served|
    ensures Tally(repo.orders, created, updated, skipped)
         == StoredAll(Tally(old(repo.orders), 0, 0, 0), Arrivals(FetchAll(listing, WindowsAt(ws, served))))
  {
    pagesLoaded, created, updated, skipped, served := 0, 0, 0, 0, [];
    ghost var start := Tally(repo.orders, 0, 0, 0);
    ghost var done := [];
    for i := 0 to |ws|
      invariant InService(ws[..i], down, served) && pagesLoaded == |served| && done == WindowsAt(ws[..i], served)
      invariant Tally(repo.orders, created, updated, skipped) == StoredAll(start, Arrivals(FetchAll(listing, done)))
    {
      ServiceNext(ws, down, served, i);
      AtNext(ws, served, i);
      if down(ws[i]) {
        continue;
      }
      WindowNext(start, listing, done, ws[i]);
      var closes: bool := *;
      var orders := GetFbsOrders(Fetch(listing, ws[i]), limit, closes);
      pagesLoaded := pagesLoaded + 1;
      served, done := served + [i], done + [ws[i]];
      created, updated, skipped := UpsertAll(repo, orders, created, updated, skipped);
    }
    assert ws[..|ws|] == ws;
  }

  method UpsertAll(repo: OrderRepository, orders: seq<FbsOrder>, created0: nat, updated0: nat, skipped0: nat)
    returns (created: nat, updated: nat, skipped: nat)
    modifies repo
    ensures Tally(repo.orders, created, updated, skipped)
         == StoredAll(Tally(old(repo.orders), created0, updated0, skipped0), Arrivals(orders))
  {
    created, updated, skipped := created0, updated0, skipped0;
    ghost var start := Tally(repo.orders, created0, updated0, skipped0);
    for i := 0 to |orders|
      invariant Tally(repo.orders, created, updated, skipped) == StoredAll(start, Arrivals(orders)[..i])
    {
      StoredNext(start, Arrivals(orders), i);
      var r := repo.UpsertOrder(orders[i].arrival);
      match r {
        case Err(_) => skipped := skipped + 1;
        case Ok((_, isNew)) => if isNew { created := created + 1; } else { updated := updated + 1; }
      }
    }
    assert Arrivals(orders)[..|orders|] == Arrivals(orders);
  }
}
