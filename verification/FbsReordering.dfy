/** Exactly when cutting a period into windows is harmless: for the orders the sync makes of its payloads,
    the windows leave what one fetch leaves if and only if no entry of a sale is listed after one that
    was created across a boundary later, and the windows begin with the number one fetch begins with. */
module FbsReordering {
  import opened Common
  import opened Orders
  import opened OrderDedup
  import opened RowHistories
  import opened FbsWindows
  import opened FbsPayloads

  // ----- One sale through the windows

  /** No entry created before second `b` is listed after one created at or after it. */
  ghost predicate CrossesAt(listing: seq<FbsOrder>, b: int) {
    forall i, j | 0 <= i < j < |listing| :: listing[j].created < b ==> listing[i].created < b
  }

  ghost predicate Crosses(listing: seq<FbsOrder>, from: int, to: int) {
    forall w | w in Windows(from, to) && w.to < to :: CrossesAt(listing, UnixSeconds(w.to))
  }

  /** The windows and one fetch begin with the same order number. */
  ghost predicate BeginsAlike(listing: seq<FbsOrder>, from: int, to: int) {
    var p, q := FetchAll(listing, Windows(from, to)), Fetch(listing, Window(from, to));
    p != [] && q != [] ==> p[0].arrival.order.externalId == q[0].arrival.order.externalId
  }

  lemma WithinAlike(row: Option<Order>, h: seq<FbsOrder>, from: int, mid: int, to: int, user: int, account: int)
    requires NormalOrders(h, user, account) && CrossesAt(h, mid) && from <= mid <= to
    ensures Alike(Fold(row, Arrivals(CreatedWithin(h, from, mid) + CreatedWithin(h, mid, to))),
                  Fold(row, Arrivals(CreatedWithin(h, from, to))))
  {
    var a, b, t := CreatedWithin(h, from, mid - 1), CreatedWithin(h, mid, mid), CreatedWithin(h, mid, to);
    WithinSplits(h, from, mid, mid);
    WithinSplits(h, from, mid, to);
    ArrivalsAppend(a, b);
    ArrivalsAppend(a + b, t);
    ArrivalsAppend(a, t);
    WithinMembers(h, mid, to);
    forall x | x in Arrivals(b) ensures x in Arrivals(t) {
      ArrivalsOf(b);
      ArrivalsOf(t);
      var o :| o in b && o.arrival == x;
      WithinHas(h, mid, mid, o);
      WithinHas(h, mid, to, o);
    }
    assert Arrivals(a) + Arrivals(b) + Arrivals(t) == Arrivals(a) + (Arrivals(b) + Arrivals(t));
    FoldAppend(row, Arrivals(a), Arrivals(b) + Arrivals(t));
    FoldAppend(row, Arrivals(a), Arrivals(t));
    Absorb(Fold(row, Arrivals(a)), Arrivals(b), Arrivals(t), user, account);
  }

  lemma {:induction false} WindowsAlike(row: Option<Order>, h: seq<FbsOrder>, from: int, to: int, user: int, account: int)
    requires from < to && NormalOrders(h, user, account) && Crosses(h, from, to)
    ensures Alike(Fold(row, Arrivals(FetchAll(h, Windows(from, to)))), Fold(row, Arrivals(Fetch(h, Window(from, to)))))
    decreases if from < to then to - from else 0
  {
    var mid := Min(from + WINDOW, to);
    FirstWindow(from, to);
    var ws, first, later := Windows(from, to), Fetch(h, Window(from, mid)), FetchAll(h, Windows(mid, to));
    assert ws[0] == Window(from, mid) && ws[1..] == Windows(mid, to);
    if mid == to {
      assert later == [] && first + later == first;
    } else {
      var second := Fetch(h, Window(mid, to));
      assert Window(from, mid) in ws;
      WindowsAlike(Fold(row, Arrivals(first)), h, mid, to, user, account);
      ArrivalsAppend(first, later);
      ArrivalsAppend(first, second);
      FoldAppend(row, Arrivals(first), Arrivals(later));
      FoldAppend(row, Arrivals(first), Arrivals(second));
      WithinAlike(row, h, UnixSeconds(from), UnixSeconds(mid), UnixSeconds(to), user, account);
    }
  }

  // ----- What lies on either side of a boundary

  lemma {:induction false} FetchAllAppend(listing: seq<FbsOrder>, ws: seq<Window>, more: seq<Window>)
    ensures FetchAll(listing, ws + more) == FetchAll(listing, ws) + FetchAll(listing, more)
    decreases |ws|
  {
    if ws == [] {
      assert ws + more == more;
    } else {
      FetchAllAppend(listing, ws[1..], more);
      assert (ws + more)[1..] == ws[1..] + more;
    }
  }

  /** The windows of a period lie inside it and leave no second of it out. */
  lemma {:induction false} WindowsCover(from: int, to: int, second: int)
    requires from < to
    ensures forall w | w in Windows(from, to) :: from <= w.from && w.to <= to
    ensures UnixSeconds(from) <= second <= UnixSeconds(to) ==>
              exists w | w in Windows(from, to) :: UnixSeconds(w.from) <= second <= UnixSeconds(w.to)
    decreases if from < to then to - from else 0
  {
    var mid := Min(from + WINDOW, to);
    var ws := Windows(from, to);
    assert ws == [Window(from, mid)] + Windows(mid, to);
    assert Window(from, mid) in ws && forall w | w in Windows(mid, to) :: w in ws;
    if mid < to {
      WindowsCover(mid, to, second);
    }
  }

  /** At a boundary the period falls into two periods, each with its own windows. */
  lemma {:induction false} WindowsSplit(from: int, to: int, w: Window)
    requires from < to && w in Windows(from, to) && w.to < to
    ensures from < w.to && Windows(from, to) == Windows(from, w.to) + Windows(w.to, to)
    decreases if from < to then to - from else 0
  {
    var mid := Min(from + WINDOW, to);
    FirstWindow(from, to);
    if w == Window(from, mid) {
      FirstWindow(from, mid);
      assert mid < to;
    } else {
      assert w in Windows(mid, to) && mid == from + WINDOW;
      WindowsSplit(mid, to, w);
      FirstWindow(from, w.to);
      assert [Window(from, mid)] + (Windows(mid, w.to) + Windows(w.to, to))
          == ([Window(from, mid)] + Windows(mid, w.to)) + Windows(w.to, to);
    }
  }

  lemma FirstWindow(from: int, to: int)
    requires from < to
    ensures var mid := Min(from + WINDOW, to); from < mid && Windows(from, to) == [Window(from, mid)] + Windows(mid, to)
    ensures Windows(to, to) == []
  {
  }

  // ----- The whole table

  /** The rows show the same: all columns but the serial id and the time of receipt. */
  ghost predicate ShowsSame(r: Option<Order>, r': Option<Order>) {
    Alike(r, r') && (r.Some? ==> r.value.externalId == r'.value.externalId)
  }

  ghost predicate TablesShowSame(t: seq<Order>, t': seq<Order>) {
    |t| == |t'| && forall x :: ShowsSame(RowOf(t, x), RowOf(t', x))
  }

  /** `p` is a run of the windowed sync over the listing, and `q` of a sync that fetches the period at once,
      each by a clock of its own. */
  ghost predicate Runs(listing: seq<FbsOrder>, from: int, to: int, p: seq<Arrival>, q: seq<Arrival>) {
    && SameButNow(p, Arrivals(FetchAll(listing, Windows(from, to))))
    && SameButNow(q, Arrivals(Fetch(listing, Window(from, to))))
  }

  ghost predicate Agree(orders: seq<Order>, listing: seq<FbsOrder>, from: int, to: int) {
    forall p, q | Runs(listing, from, to, p, q) ::
      && After(orders, p).Ok? && After(orders, q).Ok?
      && TablesShowSame(After(orders, p).value, After(orders, q).value)
  }

  ghost predicate AllAgree(listing: seq<FbsOrder>, sridOf: (int, string) -> Option<string>) {
    forall o | o in listing :: ArrivalAgrees(o.arrival, sridOf)
  }

  /** Each sale's own entries cross the boundaries in order; a sale new to the table begins alike. */
  ghost predicate SalesCross(orders: seq<Order>, listing: seq<FbsOrder>, from: int, to: int) {
    forall x :: Crosses(Of(listing, x), from, to) && (RowOf(orders, x).None? ==> BeginsAlike(Of(listing, x), from, to))
  }

  lemma {:induction false} HistorySameButNow(h: seq<Arrival>, h': seq<Arrival>, x: Identity)
    requires SameButNow(h, h')
    ensures SameButNow(HistoryOf(h, x), HistoryOf(h', x))
  {
    if h != [] {
      var n := |h| - 1;
      HistorySameButNow(h[..n], h'[..n], x);
      NowIdentifiesNothing(h[n], h'[n]);
    }
  }

  lemma NowIdentifiesNothing(a: Arrival, a': Arrival)
    requires a.(now := 0) == a'.(now := 0)
    ensures a.order == a'.order && a.accountId == a'.accountId && a.userId == a'.userId
  {
    assert a.(now := 0).order == a'.(now := 0).order && a.(now := 0).accountId == a'.(now := 0).accountId
        && a.(now := 0).userId == a'.(now := 0).userId;
  }

  /** The row a run leaves for a sale, from the sale's own entries. */
  lemma RowOfRun(
    orders: seq<Order>, h: seq<Arrival>, listed: seq<FbsOrder>, listing: seq<FbsOrder>,
    sridOf: (int, string) -> Option<string>, x: Identity)
    requires Tidy(orders, sridOf) && AllAgree(listing, sridOf) && (forall o | o in listed :: o in listing)
    requires SameButNow(h, Arrivals(listed))
    ensures After(orders, h).Ok? && Tidy(After(orders, h).value, sridOf)
    ensures ShowsSame(RowOf(After(orders, h).value, x), Fold(RowOf(orders, x), Arrivals(Of(listed, x))))
  {
    TidyRun(orders, h, sridOf);
    RowIsOwnHistory(orders, h, sridOf, x);
    HistorySameButNow(h, Arrivals(listed), x);
    HistoryOfArrivals(listed, x);
    var row, own, own' := RowOf(orders, x), HistoryOf(h, x), Arrivals(Of(listed, x));
    FoldAlike(row, row, own, own');
    if row.Some? || own != [] {
      FoldNumber(row, own);
      FoldNumber(row, own');
      if own != [] { NowIdentifiesNothing(own[0], own'[0]); }
    }
  }

  lemma SalesShowSame(
    row: Option<Order>, h: seq<FbsOrder>, from: int, to: int, user: int, account: int)
    requires from < to && NormalOrders(h, user, account) && Crosses(h, from, to) && (row.None? ==> BeginsAlike(h, from, to))
    ensures ShowsSame(Fold(row, Arrivals(FetchAll(h, Windows(from, to)))), Fold(row, Arrivals(Fetch(h, Window(from, to)))))
  {
    var p, q := FetchAll(h, Windows(from, to)), Fetch(h, Window(from, to));
    WindowsAlike(row, h, from, to, user, account);
    SameEntries(h, from, to);
    if row.Some? || p != [] {
      FoldNumber(row, Arrivals(p));
      FoldNumber(row, Arrivals(q));
    }
  }

  /** The windows fetch an entry exactly when one fetch does. */
  lemma SameEntries(h: seq<FbsOrder>, from: int, to: int)
    requires from < to
    ensures forall o :: o in FetchAll(h, Windows(from, to)) <==> o in Fetch(h, Window(from, to))
    ensures FetchAll(h, Windows(from, to)) == [] <==> Fetch(h, Window(from, to)) == []
  {
    var p, q := FetchAll(h, Windows(from, to)), Fetch(h, Window(from, to));
    forall o ensures o in p <==> o in q {
      FetchAllHas(h, Windows(from, to), o);
      WithinHas(h, UnixSeconds(from), UnixSeconds(to), o);
      WindowsCover(from, to, o.created);
      if o in p {
        var w :| w in Windows(from, to) && UnixSeconds(w.from) <= o.created <= UnixSeconds(w.to);
        assert from <= w.from && w.to <= to;
      }
    }
    if p != [] { assert p[0] in q; }
    if q != [] { assert q[0] in p; }
  }

  /** The windowed sync over real payloads, listed in any order and with any repeats: it leaves the rows one
      fetch of the period would leave, ids and times of receipt apart, as long as no sale's own entries
      cross a boundary backwards and a sale new to the table begins alike. */
  lemma PayloadWindowsAreOneFetch(
    orders: seq<Order>, listing: seq<FbsOrder>, sridOf: (int, string) -> Option<string>, from: int, to: int,
    user: int, account: int)
    requires Tidy(orders, sridOf) && AllAgree(listing, sridOf) && NormalOrders(listing, user, account)
    requires from < to && SalesCross(orders, listing, from, to)
    ensures Agree(orders, listing, from, to)
  {
    forall p, q | Runs(listing, from, to, p, q)
      ensures After(orders, p).Ok? && After(orders, q).Ok? && TablesShowSame(After(orders, p).value, After(orders, q).value)
    {
      RunsShowSame(orders, listing, sridOf, from, to, user, account, p, q);
    }
  }

  lemma RunsShowSame(
    orders: seq<Order>, listing: seq<FbsOrder>, sridOf: (int, string) -> Option<string>, from: int, to: int,
    user: int, account: int, p: seq<Arrival>, q: seq<Arrival>)
    requires Tidy(orders, sridOf) && AllAgree(listing, sridOf) && NormalOrders(listing, user, account)
    requires from < to && SalesCross(orders, listing, from, to) && Runs(listing, from, to, p, q)
    ensures After(orders, p).Ok? && After(orders, q).Ok? && TablesShowSame(After(orders, p).value, After(orders, q).value)
  {
    var windowed, whole := FetchAll(listing, Windows(from, to)), Fetch(listing, Window(from, to));
    FetchAllMembers(listing, Windows(from, to));
    WithinMembers(listing, UnixSeconds(from), UnixSeconds(to));
    RowOfRun(orders, p, windowed, listing, sridOf, Number(0, WB, ""));
    RowOfRun(orders, q, whole, listing, sridOf, Number(0, WB, ""));
    var t, t' := After(orders, p).value, After(orders, q).value;
    forall x ensures ShowsSame(RowOf(t, x), RowOf(t', x)) {
      RowOfRun(orders, p, windowed, listing, sridOf, x);
      RowOfRun(orders, q, whole, listing, sridOf, x);
      OfFetchAll(listing, Windows(from, to), x);
      OfWithin(listing, UnixSeconds(from), UnixSeconds(to), x);
      OfMembers(listing, x);
      SalesShowSame(RowOf(orders, x), Of(listing, x), from, to, user, account);
    }
    forall x ensures x in Identities(t) <==> x in Identities(t') {
      NoRowOf(t, x);
      NoRowOf(t', x);
      assert ShowsSame(RowOf(t, x), RowOf(t', x));
    }
    assert Identities(t) == Identities(t');
    RowsCountIdentities(t);
    RowsCountIdentities(t');
  }

  // ----- The exact condition

  /** Listings of one sale's entries, with given numbers, rids and creation times and anything else. */
  ghost predicate SameSkeleton(ps: seq<FbsPayload>, ps': seq<FbsPayload>) {
    && |ps| == |ps'|
    && forall i | 0 <= i < |ps| :: ps[i].id == ps'[i].id && ps[i].rid == ps'[i].rid && ps[i].createdAt == ps'[i].createdAt
  }

  ghost predicate OneSale(listing: seq<FbsOrder>, x: Identity) {
    forall o | o in listing :: ArrivalIdentity(o.arrival) == x
  }

  lemma SkeletonKeeps(
    ps: seq<FbsPayload>, ps': seq<FbsPayload>, user: int, account: int, sridOf: (int, string) -> Option<string>, x: Identity)
    requires SameSkeleton(ps, ps')
    requires OneSale(Listed(ps, user, account), x) && AllAgree(Listed(ps, user, account), sridOf)
    ensures OneSale(Listed(ps', user, account), x) && AllAgree(Listed(ps', user, account), sridOf)
    ensures SameTimesAndNumbers(Listed(ps, user, account), Listed(ps', user, account))
  {
    var l, l' := Listed(ps, user, account), Listed(ps', user, account);
    forall i | 0 <= i < |ps|
      ensures ArrivalIdentity(l'[i].arrival) == x && ArrivalAgrees(l'[i].arrival, sridOf)
    {
      assert l[i] in l;
    }
  }

  ghost predicate SameTimesAndNumbers(l: seq<FbsOrder>, l': seq<FbsOrder>) {
    && |l| == |l'|
    && forall i | 0 <= i < |l| ::
         l[i].created == l'[i].created && l[i].arrival.order.externalId == l'[i].arrival.order.externalId
  }

  lemma {:induction false} WithinSame(l: seq<FbsOrder>, l': seq<FbsOrder>, from: int, to: int)
    requires SameTimesAndNumbers(l, l')
    ensures SameTimesAndNumbers(CreatedWithin(l, from, to), CreatedWithin(l', from, to))
  {
    if l != [] {
      WithinSame(l[..|l| - 1], l'[..|l| - 1], from, to);
    }
  }

  lemma SameAppend(l: seq<FbsOrder>, l': seq<FbsOrder>, m: seq<FbsOrder>, m': seq<FbsOrder>)
    requires SameTimesAndNumbers(l, l') && SameTimesAndNumbers(m, m')
    ensures SameTimesAndNumbers(l + m, l' + m')
  {
  }

  lemma {:induction false} FetchAllSame(l: seq<FbsOrder>, l': seq<FbsOrder>, ws: seq<Window>)
    requires SameTimesAndNumbers(l, l')
    ensures SameTimesAndNumbers(FetchAll(l, ws), FetchAll(l', ws))
    decreases |ws|
  {
    if ws != [] {
      FetchAllSame(l, l', ws[1..]);
      WithinSame(l, l', UnixSeconds(ws[0].from), UnixSeconds(ws[0].to));
      SameAppend(Fetch(l, ws[0]), Fetch(l', ws[0]), FetchAll(l, ws[1..]), FetchAll(l', ws[1..]));
    }
  }

  lemma ConditionOfSkeleton(l: seq<FbsOrder>, l': seq<FbsOrder>, from: int, to: int)
    requires SameTimesAndNumbers(l, l')
    ensures Crosses(l, from, to) ==> Crosses(l', from, to)
    ensures BeginsAlike(l, from, to) ==> BeginsAlike(l', from, to)
  {
    FetchAllSame(l, l', Windows(from, to));
    WithinSame(l, l', UnixSeconds(from), UnixSeconds(to));
    if Crosses(l, from, to) {
      forall w | w in Windows(from, to) && w.to < to ensures CrossesAt(l', UnixSeconds(w.to)) {
        assert CrossesAt(l, UnixSeconds(w.to));
      }
    }
  }

  lemma {:induction false} AllOfSale(h: seq<FbsOrder>, x: Identity)
    requires OneSale(h, x)
    ensures Of(h, x) == h && forall y | y != x :: Of(h, y) == []
  {
    if h != [] {
      assert h[|h| - 1] in h;
      AllOfSale(h[..|h| - 1], x);
    }
  }

  // ----- Entries that show which of them came last

  function Mark(o: FbsOrder): nat {
    var items := o.arrival.order.items;
    if items == [] || !Truthy(items[0].title) then 0 else if items[0].title == Some("first") then 1 else 2
  }

  function NameOf(mark: nat): Option<string> {
    if mark == 0 then None else if mark == 1 then Some("first") else Some("second")
  }

  /** Entries as the sync stores them, titled "first", "second" or not at all. */
  ghost predicate Titled(h: seq<FbsOrder>, user: int, account: int) {
    NormalOrders(h, user, account) && forall o | o in h :: o.arrival.order.items[0].title == NameOf(Mark(o))
  }

  function LastMark(h: seq<FbsOrder>): nat
    decreases |h|
  {
    if h == [] then 0 else if LastMark(h[1..]) != 0 then LastMark(h[1..]) else Mark(h[0])
  }

  /** Some entry of `h` has mark `m`, and none has another. */
  ghost predicate OnlyMark(h: seq<FbsOrder>, m: nat) {
    (exists o :: o in h && Mark(o) == m) && forall o | o in h :: Mark(o) == 0 || Mark(o) == m
  }

  lemma {:induction false} OnlyMarkLast(rest: seq<FbsOrder>, h: seq<FbsOrder>, m: nat)
    requires m != 0 && OnlyMark(h, m)
    ensures LastMark(rest + h) == m
    decreases |rest|, |h|
  {
    if rest != [] {
      assert (rest + h)[1..] == rest[1..] + h;
      OnlyMarkLast(rest[1..], h, m);
    } else {
      assert rest + h == h && [] + h[1..] == h[1..];
      assert forall o :: o in h <==> o == h[0] || o in h[1..];
      if exists o :: o in h[1..] && Mark(o) == m {
        OnlyMarkLast([], h[1..], m);
      } else {
        NoMark(h[1..]);
      }
    }
  }

  lemma {:induction false} NoMark(h: seq<FbsOrder>)
    requires forall o | o in h :: Mark(o) == 0
    ensures LastMark(h) == 0
    decreases |h|
  {
    if h != [] {
      assert forall o | o in h[1..] :: o in h;
      NoMark(h[1..]);
    }
  }

  lemma {:induction false} TitleFrom(v: Order, h: seq<FbsOrder>, user: int, account: int)
    requires Titled(h, user, account) && v.items != []
    ensures var r := Fold(Some(v), Arrivals(h));
            r.Some? && r.value.items != []
            && Norm(r.value.items[0].title) == if LastMark(h) == 0 then Norm(v.items[0].title) else NameOf(LastMark(h))
    decreases |h|
  {
    if h != [] {
      assert h[0] in h && forall o | o in h[1..] :: o in h;
      assert Arrivals(h)[0] == h[0].arrival && Arrivals(h)[1..] == Arrivals(h[1..]);
      TitleFrom(Merged(v, h[0].arrival.order), h[1..], user, account);
    }
  }

  /** A new row is titled by the last titled entry. */
  lemma TitleOfRow(h: seq<FbsOrder>, user: int, account: int)
    requires Titled(h, user, account) && h != []
    ensures var r := Fold(None, Arrivals(h));
            r.Some? && r.value.items != [] && Norm(r.value.items[0].title) == NameOf(LastMark(h))
  {
    assert h[0] in h && forall o | o in h[1..] :: o in h;
    assert Arrivals(h)[0] == h[0].arrival && Arrivals(h)[1..] == Arrivals(h[1..]);
    TitleFrom(Created(0, h[0].arrival), h[1..], user, account);
  }

  function Retitled(ps: seq<FbsPayload>, i: nat, j: nat): seq<FbsPayload> {
    seq(|ps|, k requires 0 <= k < |ps| => ps[k].(subject := NameOf(if k == i then 1 else if k == j then 2 else 0)))
  }

  ghost predicate HasMarks(l: seq<FbsOrder>, i: nat, j: nat) {
    forall k | 0 <= k < |l| :: Mark(l[k]) == if k == i then 1 else if k == j then 2 else 0
  }

  lemma RetitledShows(ps: seq<FbsPayload>, i: nat, j: nat, user: int, account: int)
    requires i < j < |ps|
    ensures SameSkeleton(ps, Retitled(ps, i, j))
    ensures var l := Listed(Retitled(ps, i, j), user, account); HasMarks(l, i, j) && Titled(l, user, account)
  {
    ListedIsNormal(Retitled(ps, i, j), user, account);
  }

  lemma LastOfAll(l: seq<FbsOrder>, i: nat, j: nat)
    requires i < j < |l| && HasMarks(l, i, j)
    ensures LastMark(l) == 2
  {
    assert l == l[..j] + l[j..] && l[j..][0] == l[j];
    OnlyMarkLast(l[..j], l[j..], 2);
  }

  /** Entry `j` lies before the boundary and entry `i`, listed earlier, does not: the windows show `i` last. */
  lemma LateEntryLast(l: seq<FbsOrder>, from: int, to: int, w: Window, i: nat, j: nat)
    requires from < to && w in Windows(from, to) && w.to < to && i < j < |l| && HasMarks(l, i, j)
    requires UnixSeconds(w.to) <= l[i].created <= UnixSeconds(to) && l[j].created < UnixSeconds(w.to)
    ensures LastMark(FetchAll(l, Windows(from, to))) == 1
  {
    WindowsSplit(from, to, w);
    FetchAllAppend(l, Windows(from, w.to), Windows(w.to, to));
    var late := FetchAll(l, Windows(w.to, to));
    WindowsCover(w.to, to, l[i].created);
    FetchAllHas(l, Windows(w.to, to), l[i]);
    forall o | o in late ensures Mark(o) == 0 || Mark(o) == 1 {
      FetchAllHas(l, Windows(w.to, to), o);
      var v :| v in Windows(w.to, to) && UnixSeconds(v.from) <= o.created;
      assert UnixSeconds(w.to) <= UnixSeconds(v.from);
    }
    OnlyMarkLast(FetchAll(l, Windows(from, w.to)), late, 1);
  }

  // ----- Disagreement

  lemma RowsTell(listing: seq<FbsOrder>, x: Identity, sridOf: (int, string) -> Option<string>, from: int, to: int)
    requires OneSale(listing, x) && AllAgree(listing, sridOf)
    requires !ShowsSame(Fold(None, Arrivals(FetchAll(listing, Windows(from, to)))), Fold(None, Arrivals(Fetch(listing, Window(from, to)))))
    ensures !Agree([], listing, from, to)
  {
    var windowed, whole := FetchAll(listing, Windows(from, to)), Fetch(listing, Window(from, to));
    FetchAllMembers(listing, Windows(from, to));
    WithinMembers(listing, UnixSeconds(from), UnixSeconds(to));
    AllOfSale(windowed, x);
    AllOfSale(whole, x);
    RowOfRun([], Arrivals(windowed), windowed, listing, sridOf, x);
    RowOfRun([], Arrivals(whole), whole, listing, sridOf, x);
    var t, t' := After([], Arrivals(windowed)).value, After([], Arrivals(whole)).value;
    assert !TablesShowSame(t, t') by {
      assert !ShowsSame(RowOf(t, x), RowOf(t', x));
    }
    assert Runs(listing, from, to, Arrivals(windowed), Arrivals(whole));
  }

  ghost predicate AllInside(l: seq<FbsOrder>, from: int, to: int) {
    forall o | o in l :: UnixSeconds(from) <= o.created <= UnixSeconds(to)
  }

  lemma CrossingPair(l: seq<FbsOrder>, from: int, to: int) returns (w: Window, i: nat, j: nat)
    requires !Crosses(l, from, to)
    ensures w in Windows(from, to) && w.to < to && i < j < |l| && l[j].created < UnixSeconds(w.to) <= l[i].created
  {
    w :| w in Windows(from, to) && w.to < to && !CrossesAt(l, UnixSeconds(w.to));
    i, j :| i < j < |l| && l[j].created < UnixSeconds(w.to) <= l[i].created;
  }

  /** Entries of the given skeleton for which the windows leave another title than one fetch. */
  lemma NotCrossingDisagrees(
    ps: seq<FbsPayload>, x: Identity, sridOf: (int, string) -> Option<string>, from: int, to: int, user: int, account: int)
    returns (ps': seq<FbsPayload>)
    requires from < to && OneSale(Listed(ps, user, account), x) && AllAgree(Listed(ps, user, account), sridOf)
    requires AllInside(Listed(ps, user, account), from, to)
    requires !Crosses(Listed(ps, user, account), from, to)
    ensures SameSkeleton(ps, ps') && !Agree([], Listed(ps', user, account), from, to)
  {
    var l := Listed(ps, user, account);
    var w, i, j := CrossingPair(l, from, to);
    ps' := Retitled(ps, i, j);
    RetitledShows(ps, i, j, user, account);
    SkeletonKeeps(ps, ps', user, account, sridOf, x);
    var l' := Listed(ps', user, account);
    InsideAt(l, l', from, to, i);
    LastOfAll(l', i, j);
    LateEntryLast(l', from, to, w, i, j);
    TitlesDiffer(l', from, to, user, account);
    RowsTell(l', x, sridOf, from, to);
  }

  lemma InsideAt(l: seq<FbsOrder>, l': seq<FbsOrder>, from: int, to: int, i: nat)
    requires AllInside(l, from, to) && SameTimesAndNumbers(l, l') && i < |l|
    ensures AllInside(l', from, to) && l'[i].created <= UnixSeconds(to)
  {
    forall k | 0 <= k < |l| ensures UnixSeconds(from) <= l'[k].created <= UnixSeconds(to) {
      assert l[k] in l;
    }
  }

  lemma TitlesDiffer(l: seq<FbsOrder>, from: int, to: int, user: int, account: int)
    requires from < to && Titled(l, user, account) && LastMark(l) == 2 && LastMark(FetchAll(l, Windows(from, to))) == 1
    requires AllInside(l, from, to)
    ensures !ShowsSame(Fold(None, Arrivals(FetchAll(l, Windows(from, to)))), Fold(None, Arrivals(Fetch(l, Window(from, to)))))
  {
    AllWithin(l, UnixSeconds(from), UnixSeconds(to));
    FetchAllMembers(l, Windows(from, to));
    TitleOfRow(FetchAll(l, Windows(from, to)), user, account);
    TitleOfRow(l, user, account);
    CoreShowsTitle(Fold(None, Arrivals(FetchAll(l, Windows(from, to)))).value);
    CoreShowsTitle(Fold(None, Arrivals(l)).value);
  }

  lemma CoreShowsTitle(r: Order)
    requires r.items != []
    ensures Core(r).items != [] && Core(r).items[0].title == Norm(r.items[0].title)
  {
  }

  lemma {:induction false} AllWithin(listing: seq<FbsOrder>, from: int, to: int)
    requires forall o | o in listing :: from <= o.created <= to
    ensures CreatedWithin(listing, from, to) == listing
  {
    if listing != [] {
      assert listing[|listing| - 1] in listing;
      AllWithin(listing[..|listing| - 1], from, to);
    }
  }

  lemma NumbersDisagree(
    ps: seq<FbsPayload>, x: Identity, sridOf: (int, string) -> Option<string>, from: int, to: int, user: int, account: int)
    requires OneSale(Listed(ps, user, account), x) && AllAgree(Listed(ps, user, account), sridOf)
    requires !BeginsAlike(Listed(ps, user, account), from, to)
    ensures !Agree([], Listed(ps, user, account), from, to)
  {
    var l := Listed(ps, user, account);
    FoldNumber(None, Arrivals(FetchAll(l, Windows(from, to))));
    FoldNumber(None, Arrivals(Fetch(l, Window(from, to))));
    RowsTell(l, x, sridOf, from, to);
  }

  lemma OneSaleCrosses(
    orders: seq<Order>, listing: seq<FbsOrder>, x: Identity, from: int, to: int)
    requires OneSale(listing, x) && Crosses(listing, from, to) && BeginsAlike(listing, from, to)
    ensures SalesCross(orders, listing, from, to)
  {
    AllOfSale(listing, x);
  }

  /** Exactly when the windows are safe, for one sale's numbers, rids and creation times: whatever else its
      payloads say, and over every tidy table, windows and one fetch leave the same rows, if and only if the
      entries cross no boundary backwards and the windows begin with the number one fetch begins with. */
  lemma WindowsSafeExactly(
    ps: seq<FbsPayload>, x: Identity, sridOf: (int, string) -> Option<string>, from: int, to: int, user: int, account: int)
    requires from < to && OneSale(Listed(ps, user, account), x) && AllAgree(Listed(ps, user, account), sridOf)
    requires AllInside(Listed(ps, user, account), from, to)
    ensures Crosses(Listed(ps, user, account), from, to) && BeginsAlike(Listed(ps, user, account), from, to) <==>
            forall ps', orders | SameSkeleton(ps, ps') && Tidy(orders, sridOf) ::
              Agree(orders, Listed(ps', user, account), from, to)
  {
    var l := Listed(ps, user, account);
    if Crosses(l, from, to) && BeginsAlike(l, from, to) {
      forall ps', orders | SameSkeleton(ps, ps') && Tidy(orders, sridOf)
        ensures Agree(orders, Listed(ps', user, account), from, to)
      {
        var l' := Listed(ps', user, account);
        SkeletonKeeps(ps, ps', user, account, sridOf, x);
        ConditionOfSkeleton(l, l', from, to);
        OneSaleCrosses(orders, l', x, from, to);
        ListedIsNormal(ps', user, account);
        PayloadWindowsAreOneFetch(orders, l', sridOf, from, to, user, account);
      }
    } else {
      var ps' := ps;
      if Crosses(l, from, to) {
        NumbersDisagree(ps, x, sridOf, from, to, user, account);
      } else {
        ps' := NotCrossingDisagrees(ps, x, sridOf, from, to, user, account);
      }
      assert SameSkeleton(ps, ps') && Tidy([], sridOf) && !Agree([], Listed(ps', user, account), from, to);
    }
  }

  /** A sale that is listed under one number begins alike. */
  lemma OneNumberBeginsAlike(listing: seq<FbsOrder>, from: int, to: int, number: string)
    requires forall o | o in listing :: o.arrival.order.externalId == number
    ensures BeginsAlike(listing, from, to)
  {
    FetchAllMembers(listing, Windows(from, to));
    WithinMembers(listing, UnixSeconds(from), UnixSeconds(to));
  }

  function Plain(createdAt: int): FbsPayload {
    FbsPayload("1", None, createdAt, None, None, None, "", None, "", "", "FBS", None, 0, None, 0, 0, 0)
  }

  function NoSrid(): (int, string) -> Option<string> {
    (account: int, externalId: string) => None
  }

  lemma Backwards(l: seq<FbsOrder>)
    requires |l| == 2 && l[0].created == UnixSeconds(WINDOW + SECOND) && l[1].created == UnixSeconds(0)
    ensures !Crosses(l, 0, 2 * WINDOW) && AllInside(l, 0, 2 * WINDOW)
  {
    FirstWindow(0, 2 * WINDOW);
    assert Window(0, WINDOW) in Windows(0, 2 * WINDOW);
    assert !CrossesAt(l, UnixSeconds(WINDOW));
  }

  /** In sixty days, an order listed first as created on day thirty-one and then as created on day zero:
      the windows may leave another title than one fetch. */
  lemma BackwardsEntryExample() returns (ps': seq<FbsPayload>)
    ensures SameSkeleton([Plain(WINDOW + SECOND), Plain(0)], ps')
    ensures !Agree([], Listed(ps', 1, 1), 0, 2 * WINDOW)
  {
    var ps := [Plain(WINDOW + SECOND), Plain(0)];
    var l := Listed(ps, 1, 1);
    assert OneSale(l, Number(1, WB, "1")) && AllAgree(l, NoSrid()) by {
      assert forall o | o in l :: o == l[0] || o == l[1];
    }
    Backwards(l);
    ps' := NotCrossingDisagrees(ps, Number(1, WB, "1"), NoSrid(), 0, 2 * WINDOW, 1, 1);
  }
}
