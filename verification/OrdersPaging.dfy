/** The statistics sync loop: `/supplier/orders` read page by page, the cursor being the last row's
    change date, with a guard that stops when the cursor stands still. */
module OrdersPaging {
  import opened Common

  const MAX_API_PAGES := 1000
  const SECOND := 1_000_000

  /** `lastChangeDate`: absent, unreadable, or an instant (in microseconds). */
  datatype Stamp = Absent | Unreadable(text: string) | Instant(time: int)

  /** An API row; `srid` is `""` when the payload has none. */
  datatype ApiRow = ApiRow(id: nat, srid: string, changed: Stamp)

  datatype Reply = Failed | Page(rows: seq<ApiRow>)

  /** What became of one attempt to store a row in its own transaction. */
  datatype Outcome = Stored(created: bool) | AccountGone | UpsertFailed | CommitFailed(created: bool)

  datatype Stop = Running | PageCap | ApiFailed | NoMoreRows | Stalled | Unstamped

  datatype Counts = Counts(loaded: nat, created: nat, updated: nat, skipped: nat)

  datatype Progress = Progress(
    cursor: int, pages: nat, last: Stamp, seen: set<string>,
    fetched: seq<ApiRow>, attempted: seq<ApiRow>, counts: Counts, stop: Stop)

  function Start(from: int): Progress {
    Progress(from, 0, Absent, {}, [], [], Counts(0, 0, 0, 0), Running)
  }

  // ----- Specification: one row, one page, the whole loop

  function Counted(c: Counts, outcome: Outcome): Counts {
    match outcome
    case Stored(created) => Loaded(c, created)
    case AccountGone => c
    case UpsertFailed => c.(skipped := c.skipped + 1)
    case CommitFailed(created) => Loaded(c, created).(skipped := c.skipped + 1)
  }

  function Loaded(c: Counts, created: bool): Counts {
    if created then c.(loaded := c.loaded + 1, created := c.created + 1)
    else c.(loaded := c.loaded + 1, updated := c.updated + 1)
  }

  /** `results(k)` is the outcome of the `k`-th attempt. */
  function TakeRow(p: Progress, row: ApiRow, results: nat -> Outcome): Progress {
    if row.srid != "" && row.srid in p.seen then
      p.(fetched := p.fetched + [row], counts := p.counts.(skipped := p.counts.skipped + 1))
    else
      p.(fetched := p.fetched + [row], attempted := p.attempted + [row],
         seen := if row.srid != "" then p.seen + {row.srid} else p.seen,
         counts := Counted(p.counts, results(|p.attempted|)))
  }

  function TakeRows(p: Progress, rows: seq<ApiRow>, results: nat -> Outcome): (t: Progress)
    ensures t.cursor == p.cursor && t.pages == p.pages && t.last == p.last && t.stop == p.stop
    ensures t.fetched == p.fetched + rows
    decreases |rows|
  {
    if rows == [] then p else TakeRows(TakeRow(p, rows[0], results), rows[1..], results)
  }

  /** After a non-empty page: stop on a missing or repeated stamp, else move the cursor. */
  function Advance(t: Progress, stamp: Stamp): Progress {
    match stamp
    case Absent => t.(stop := Unstamped)
    case Unreadable(_) =>
      if stamp == t.last then t.(stop := Stalled) else t.(last := stamp, cursor := t.cursor + SECOND)
    case Instant(time) =>
      if stamp == t.last then t.(stop := Stalled) else t.(last := stamp, cursor := time)
  }

  function AfterPage(p: Progress, rows: seq<ApiRow>, results: nat -> Outcome): (t: Progress)
    ensures t.pages == p.pages + 1 && t.fetched == p.fetched + rows
  {
    var q := p.(pages := p.pages + 1);
    if rows == [] then q.(stop := NoMoreRows)
    else Advance(TakeRows(q, rows, results), rows[|rows| - 1].changed)
  }

  /** The loop from any point on; `api(cursor, k)` is the reply to the `k`-th request. */
  function Sync(api: (int, nat) -> Reply, results: nat -> Outcome, p: Progress): Progress
    decreases MAX_API_PAGES - p.pages
  {
    if !p.stop.Running? then p
    else if p.pages >= MAX_API_PAGES then p.(stop := PageCap)
    else
      match api(p.cursor, p.pages)
      case Failed => p.(stop := ApiFailed)
      case Page(rows) => Sync(api, results, AfterPage(p, rows, results))
  }

  // ----- The loop itself

  method SyncAccount(api: (int, nat) -> Reply, results: nat -> Outcome, from: int) returns (p: Progress)
    ensures p == Sync(api, results, Start(from)) && p.pages <= MAX_API_PAGES
  {
    p := Start(from);
    while p.stop.Running? && p.pages < MAX_API_PAGES
      invariant p.pages <= MAX_API_PAGES
      invariant Sync(api, results, p) == Sync(api, results, Start(from))
      decreases MAX_API_PAGES - p.pages, p.stop.Running?
    {
      var reply := api(p.cursor, p.pages);
      if reply.Failed? {
        p := p.(stop := ApiFailed);
      } else {
        p := ProcessPage(p, reply.rows, results);
      }
    }
    if p.stop.Running? { p := p.(stop := PageCap); }
  }

  method ProcessPage(start: Progress, rows: seq<ApiRow>, results: nat -> Outcome) returns (p: Progress)
    ensures p == AfterPage(start, rows, results)
  {
    p := start.(pages := start.pages + 1);
    if rows == [] {
      p := p.(stop := NoMoreRows);
      return;
    }
    p := ProcessRows(p, rows, results);
    var stamp := rows[|rows| - 1].changed;
    if stamp.Absent? {
      p := p.(stop := Unstamped);
    } else if stamp == p.last {
      p := p.(stop := Stalled);
    } else {
      p := p.(last := stamp, cursor := if stamp.Instant? then stamp.time else p.cursor + SECOND);
    }
  }

  method ProcessRows(start: Progress, rows: seq<ApiRow>, results: nat -> Outcome) returns (p: Progress)
    ensures p == TakeRows(start, rows, results)
  {
    p := start;
    for i := 0 to |rows|
      invariant TakeRows(p, rows[i..], results) == TakeRows(start, rows, results)
    {
      var row := rows[i];
      assert rows[i..][0] == row && rows[i..][1..] == rows[i + 1..];
      p := p.(fetched := p.fetched + [row]);
      if row.srid != "" && row.srid in p.seen {
        p := p.(counts := p.counts.(skipped := p.counts.skipped + 1));
      } else {
        var outcome := results(|p.attempted|);
        if row.srid != "" {
          p := p.(seen := p.seen + {row.srid});
        }
        p := p.(attempted := p.attempted + [row]);
        match outcome {
          case Stored(created) => p := p.(counts := Loaded(p.counts, created));
          case AccountGone =>
          case UpsertFailed => p := p.(counts := p.counts.(skipped := p.counts.skipped + 1));
          case CommitFailed(created) =>
            p := p.(counts := Loaded(p.counts, created));
            p := p.(counts := p.counts.(skipped := p.counts.skipped + 1));
        }
      }
    }
  }

  // ----- The loop, written out

  function LastStamp(page: seq<ApiRow>): Stamp
    requires page != []
  {
    page[|page| - 1].changed
  }

  /** Page `k` lets the loop go on: it has rows, and its last one a stamp other than the page's before. */
  ghost predicate GoesOn(pages: seq<seq<ApiRow>>, k: nat) {
    && k < |pages| && pages[k] != [] && LastStamp(pages[k]) != Absent
    && (k > 0 && pages[k - 1] != [] ==> LastStamp(pages[k]) != LastStamp(pages[k - 1]))
  }

  /** The next request starts at the last row's change date, or a second later if that cannot be read. */
  ghost predicate Moves(cursors: seq<int>, pages: seq<seq<ApiRow>>, k: nat) {
    && k + 1 < |cursors| && GoesOn(pages, k)
    && match LastStamp(pages[k])
       case Instant(time) => cursors[k + 1] == time
       case _ => cursors[k + 1] == cursors[k] + 1_000_000
  }

  /** Request `k` went out with cursor `k` and was answered with page `k`. */
  ghost predicate IsTrace(api: (int, nat) -> Reply, from: int, cursors: seq<int>, pages: seq<seq<ApiRow>>) {
    && |cursors| == |pages| + 1 && |pages| <= 1000 && cursors[0] == from
    && (forall k | 0 <= k < |pages| :: api(cursors[k], k) == Page(pages[k]))
    && (forall k: nat | k + 1 < |pages| :: Moves(cursors, pages, k))
  }

  /** Why the loop ended. */
  ghost predicate EndsWith(api: (int, nat) -> Reply, cursors: seq<int>, pages: seq<seq<ApiRow>>, stop: Stop)
    requires |cursors| == |pages| + 1
  {
    var n := |pages|;
    match stop
    case Running => false
    case PageCap => n == 1000 && Moves(cursors, pages, n - 1)
    case ApiFailed => n < 1000 && (n > 0 ==> Moves(cursors, pages, n - 1)) && api(cursors[n], n) == Failed
    case NoMoreRows => n > 0 && pages[n - 1] == []
    case Stalled =>
      && n > 1 && pages[n - 1] != [] && pages[n - 2] != []
      && LastStamp(pages[n - 1]) != Absent && LastStamp(pages[n - 1]) == LastStamp(pages[n - 2])
    case Unstamped => n > 0 && pages[n - 1] != [] && LastStamp(pages[n - 1]) == Absent
  }

  function Concat(pages: seq<seq<ApiRow>>): seq<ApiRow> {
    if pages == [] then [] else Concat(pages[..|pages| - 1]) + pages[|pages| - 1]
  }

  /** The loop in the middle of a trace. */
  ghost predicate IsAt(api: (int, nat) -> Reply, from: int, p: Progress, cursors: seq<int>, pages: seq<seq<ApiRow>>) {
    && IsTrace(api, from, cursors, pages) && p.stop.Running? && p.pages == |pages| && p.cursor == cursors[|pages|]
    && (pages != [] ==> Moves(cursors, pages, |pages| - 1))
    && p.last == (if pages == [] then Absent else if pages[|pages| - 1] == [] then Absent else LastStamp(pages[|pages| - 1]))
    && p.fetched == Concat(pages)
  }

  lemma MovesStill(cursors: seq<int>, pages: seq<seq<ApiRow>>, cursor: int, rows: seq<ApiRow>, k: nat)
    requires Moves(cursors, pages, k)
    ensures Moves(cursors + [cursor], pages + [rows], k)
  {
  }

  lemma TraceGrows(
    api: (int, nat) -> Reply, from: int, cursors: seq<int>, pages: seq<seq<ApiRow>>, cursor: int, rows: seq<ApiRow>)
    requires IsTrace(api, from, cursors, pages) && (pages != [] ==> Moves(cursors, pages, |pages| - 1))
    requires |pages| < 1000 && api(cursors[|pages|], |pages|) == Page(rows)
    ensures IsTrace(api, from, cursors + [cursor], pages + [rows])
  {
    forall k: nat | k < |pages| ensures Moves(cursors + [cursor], pages + [rows], k) {
      MovesStill(cursors, pages, cursor, rows, k);
    }
  }

  /** One more page: the trace goes on, or the loop ends with it. */
  lemma TraceStep(
    api: (int, nat) -> Reply, results: nat -> Outcome, from: int, p: Progress, cursors: seq<int>, pages: seq<seq<ApiRow>>,
    rows: seq<ApiRow>)
    requires IsAt(api, from, p, cursors, pages) && p.pages < MAX_API_PAGES && api(p.cursor, p.pages) == Page(rows)
    ensures var t := AfterPage(p, rows, results);
            if t.stop.Running? then IsAt(api, from, t, cursors + [t.cursor], pages + [rows])
            else IsTrace(api, from, cursors + [t.cursor], pages + [rows])
                 && EndsWith(api, cursors + [t.cursor], pages + [rows], t.stop) && t.fetched == Concat(pages + [rows])
  {
    var t := AfterPage(p, rows, results);
    var cursors', pages' := cursors + [t.cursor], pages + [rows];
    assert pages'[..|pages|] == pages;
    TraceGrows(api, from, cursors, pages, t.cursor, rows);
  }

  lemma {:induction false} TraceFrom(
    api: (int, nat) -> Reply, results: nat -> Outcome, from: int, p: Progress, cursors: seq<int>, pages: seq<seq<ApiRow>>)
    returns (cursors': seq<int>, pages': seq<seq<ApiRow>>)
    requires IsAt(api, from, p, cursors, pages)
    ensures var f := Sync(api, results, p);
            && IsTrace(api, from, cursors', pages') && EndsWith(api, cursors', pages', f.stop)
            && f.pages == |pages'| && f.fetched == Concat(pages')
    decreases MAX_API_PAGES - p.pages
  {
    cursors', pages' := cursors, pages;
    if p.pages < MAX_API_PAGES && api(p.cursor, p.pages).Page? {
      var rows := api(p.cursor, p.pages).rows;
      var t := AfterPage(p, rows, results);
      TraceStep(api, results, from, p, cursors, pages, rows);
      if t.stop.Running? {
        cursors', pages' := TraceFrom(api, results, from, t, cursors + [t.cursor], pages + [rows]);
      } else {
        cursors', pages' := cursors + [t.cursor], pages + [rows];
        assert Sync(api, results, t) == t;
      }
    }
  }

  /** What the loop does for any API: each request starts where the page before said, the pages are read in
      order, and the loop ends for the reason it gives. */
  lemma SyncTrace(api: (int, nat) -> Reply, results: nat -> Outcome, from: int)
    returns (cursors: seq<int>, pages: seq<seq<ApiRow>>)
    ensures var f := Sync(api, results, Start(from));
            && IsTrace(api, from, cursors, pages) && EndsWith(api, cursors, pages, f.stop)
            && f.pages == |pages| && f.fetched == Concat(pages)
  {
    cursors, pages := TraceFrom(api, results, from, Start(from), [from], []);
  }

  // ----- Whatever the API answers: which rows are attempted

  ghost function SridsOf(rows: seq<ApiRow>): set<string> {
    set row | row in rows && row.srid != "" :: row.srid
  }

  /** In the order fetched, the rows without a srid and the first row of every srid. */
  ghost function FirstsOf(fetched: seq<ApiRow>): seq<ApiRow> {
    if fetched == [] then []
    else
      var rest, row := fetched[..|fetched| - 1], fetched[|fetched| - 1];
      if row.srid == "" || row.srid !in SridsOf(rest) then FirstsOf(rest) + [row] else FirstsOf(rest)
  }

  ghost predicate AttemptsFirsts(p: Progress) {
    OnlyFirsts(p.fetched, p.attempted, p.seen)
  }

  ghost predicate OnlyFirsts(fetched: seq<ApiRow>, attempted: seq<ApiRow>, seen: set<string>) {
    attempted == FirstsOf(fetched) && seen == SridsOf(fetched)
  }

  lemma SridsOfSnoc(rows: seq<ApiRow>, row: ApiRow)
    ensures SridsOf(rows + [row]) == SridsOf(rows) + if row.srid != "" then {row.srid} else {}
  {
    assert forall r :: r in rows + [row] <==> r in rows || r == row;
  }

  lemma {:induction false} TakeRowsFirsts(p: Progress, rows: seq<ApiRow>, results: nat -> Outcome)
    requires AttemptsFirsts(p)
    ensures AttemptsFirsts(TakeRows(p, rows, results))
    decreases |rows|
  {
    if rows != [] {
      assert (p.fetched + [rows[0]])[..|p.fetched|] == p.fetched;
      SridsOfSnoc(p.fetched, rows[0]);
      TakeRowsFirsts(TakeRow(p, rows[0], results), rows[1..], results);
    }
  }

  lemma AfterPageFirsts(p: Progress, rows: seq<ApiRow>, results: nat -> Outcome)
    requires AttemptsFirsts(p)
    ensures AttemptsFirsts(AfterPage(p, rows, results))
  {
    if rows == [] {
      assert p.fetched + rows == p.fetched;
    } else {
      TakeRowsFirsts(p.(pages := p.pages + 1), rows, results);
    }
  }

  /** Over the whole sync, whatever the API answers and however the attempts end, the rows attempted are those
      fetched without a srid and the first fetched with each srid, in the order fetched. */
  lemma {:induction false} FirstsAreAttempted(api: (int, nat) -> Reply, results: nat -> Outcome, p: Progress)
    requires AttemptsFirsts(p)
    ensures AttemptsFirsts(Sync(api, results, p))
    decreases MAX_API_PAGES - p.pages
  {
    if p.stop.Running? && p.pages < MAX_API_PAGES && api(p.cursor, p.pages).Page? {
      AfterPageFirsts(p, api(p.cursor, p.pages).rows, results);
      FirstsAreAttempted(api, results, AfterPage(p, api(p.cursor, p.pages).rows, results));
    }
  }

  ghost predicate NoSridTwice(rows: seq<ApiRow>) {
    forall i, j | 0 <= i < j < |rows| && rows[i].srid != "" :: rows[i].srid != rows[j].srid
  }

  /** Every fetched srid was attempted exactly once, rows without one were attempted too, and nothing else
      was. */
  ghost predicate EachOnce(fetched: seq<ApiRow>, attempted: seq<ApiRow>) {
    && SridsOf(fetched) == SridsOf(attempted) && NoSridTwice(attempted)
    && forall row :: (row in attempted ==> row in fetched) && (row in fetched && row.srid == "" ==> row in attempted)
  }

  lemma OneMoreOnce(fetched: seq<ApiRow>, attempted: seq<ApiRow>, row: ApiRow)
    requires EachOnce(fetched, attempted)
    ensures EachOnce(fetched + [row], if row.srid == "" || row.srid !in SridsOf(fetched) then attempted + [row] else attempted)
  {
    SridsOfSnoc(fetched, row);
    SridsOfSnoc(attempted, row);
    forall i | 0 <= i < |attempted| && attempted[i].srid != "" ensures attempted[i].srid in SridsOf(attempted) {
      assert attempted[i] in attempted;
    }
  }

  lemma OnceSnoc(rest: seq<ApiRow>, row: ApiRow)
    requires EachOnce(rest, FirstsOf(rest))
    ensures EachOnce(rest + [row], FirstsOf(rest + [row]))
  {
    OneMoreOnce(rest, FirstsOf(rest), row);
    assert (rest + [row])[..|rest|] == rest;
  }

  lemma {:induction false} FirstsOnce(fetched: seq<ApiRow>)
    ensures EachOnce(fetched, FirstsOf(fetched))
  {
    if fetched != [] {
      var rest, row := fetched[..|fetched| - 1], fetched[|fetched| - 1];
      FirstsOnce(rest);
      OnceSnoc(rest, row);
      assert fetched == rest + [row];
    }
  }

  lemma EachSridAttemptedOnce(api: (int, nat) -> Reply, results: nat -> Outcome, from: int)
    ensures var f := Sync(api, results, Start(from)); EachOnce(f.fetched, f.attempted)
  {
    assert SridsOf([]) == {};
    FirstsAreAttempted(api, results, Start(from));
    FirstsOnce(Sync(api, results, Start(from)).fetched);
  }

  // ----- The counters

  /** How many of the first `n` attempts ended with the row counted as loaded (and as new). */
  function LoadedOf(results: nat -> Outcome, n: nat, created: bool): nat {
    if n == 0 then 0
    else
      var o := results(n - 1);
      LoadedOf(results, n - 1, created)
        + if (o.Stored? || o.CommitFailed?) && o.created == created then 1 else 0
  }

  /** How many of the first `n` attempts ended in an exception. */
  function FailedOf(results: nat -> Outcome, n: nat): nat {
    if n == 0 then 0
    else FailedOf(results, n - 1) + if results(n - 1).UpsertFailed? || results(n - 1).CommitFailed? then 1 else 0
  }

  /** The counters, from what was fetched, what was attempted, and how the attempts ended. */
  ghost predicate Tallied(p: Progress, results: nat -> Outcome) {
    var n, created := |p.attempted|, LoadedOf(results, |p.attempted|, true);
    var updated, failed := LoadedOf(results, n, false), FailedOf(results, n);
    |p.fetched| >= n && p.counts == Counts(created + updated, created, updated, |p.fetched| - n + failed)
  }

  lemma {:induction false} TakeRowsTallied(p: Progress, rows: seq<ApiRow>, results: nat -> Outcome)
    requires Tallied(p, results)
    ensures Tallied(TakeRows(p, rows, results), results)
    decreases |rows|
  {
    if rows != [] {
      TakeRowsTallied(TakeRow(p, rows[0], results), rows[1..], results);
    }
  }

  /** The counters are exact: loaded, created and updated rows are the attempts that got as far as the
      upsert, and skipped ones are the repeated srids and the attempts that raised.  A row whose commit
      failed is counted both as loaded and as skipped. */
  lemma {:induction false} CountersAreExact(api: (int, nat) -> Reply, results: nat -> Outcome, p: Progress)
    requires Tallied(p, results)
    ensures Tallied(Sync(api, results, p), results)
    decreases MAX_API_PAGES - p.pages
  {
    if p.stop.Running? && p.pages < MAX_API_PAGES && api(p.cursor, p.pages).Page? {
      var rows := api(p.cursor, p.pages).rows;
      TakeRowsTallied(p.(pages := p.pages + 1), rows, results);
      assert p.fetched + [] == p.fetched;
      CountersAreExact(api, results, AfterPage(p, rows, results));
    }
  }

  // ----- An API that serves the first `limit` rows changed at or after the cursor

  ghost predicate Sorted(source: seq<ApiRow>) {
    && (forall i | 0 <= i < |source| :: source[i].changed.Instant?)
    && (forall i, j | 0 <= i < j < |source| :: source[i].changed.time <= source[j].changed.time)
  }

  /** How many rows changed before `cursor`. */
  ghost function Before(source: seq<ApiRow>, cursor: int): (n: nat)
    requires Sorted(source)
    ensures n <= |source|
    ensures forall i | 0 <= i < |source| :: i < n <==> source[i].changed.time < cursor
  {
    if source == [] || source[|source| - 1].changed.time < cursor then |source|
    else Before(source[..|source| - 1], cursor)
  }

  ghost function End(source: seq<ApiRow>, cursor: int, limit: nat): nat
    requires Sorted(source)
  {
    var from := Before(source, cursor);
    if from + limit < |source| then from + limit else |source|
  }

  ghost predicate Serves(api: (int, nat) -> Reply, source: seq<ApiRow>, limit: nat)
    requires Sorted(source)
  {
    forall cursor, k: nat :: api(cursor, k) == Page(source[Before(source, cursor)..End(source, cursor, limit)])
  }

  /** A timestamp from `start` on that fills a whole page by itself while more rows follow. */
  ghost predicate StallsAt(source: seq<ApiRow>, start: int, limit: nat, i: nat)
    requires Sorted(source) && limit > 0
  {
    && i + limit < |source| && source[i].changed.time >= start
    && i == Before(source, source[i].changed.time)
    && source[i + limit - 1].changed.time == source[i].changed.time
  }

  /** Of the source, `fetched` has exactly the rows from `first` up to `done`. */
  ghost predicate Has(source: seq<ApiRow>, fetched: seq<ApiRow>, first: nat, done: nat) {
    forall i | 0 <= i < |source| :: source[i] in fetched <==> first <= i < done
  }

  /** Where the loop is between pages: everything from `start` up to `done` has been fetched, and no
      timestamp passed so far fills a page. */
  ghost predicate OnCourse(
    source: seq<ApiRow>, start: int, limit: nat, cursor: int, last: Stamp, fetched: seq<ApiRow>, done: nat)
    requires Sorted(source) && limit > 0
  {
    && start <= cursor
    && CursorOnRow(source, start, cursor, last)
    && Before(source, cursor) <= done <= |source| && done <= Before(source, cursor) + limit
    && Has(source, fetched, Before(source, start), done)
    && NoStallBefore(source, start, limit, Before(source, cursor))
  }

  /** The cursor is the start date, or the change date of a row just read. */
  ghost predicate CursorOnRow(source: seq<ApiRow>, start: int, cursor: int, last: Stamp)
    requires Sorted(source)
  {
    || (last == Absent && cursor == start)
    || (last == Instant(cursor) && Before(source, cursor) < |source|
        && source[Before(source, cursor)].changed.time == cursor)
  }

  ghost predicate NoStallBefore(source: seq<ApiRow>, start: int, limit: nat, n: nat)
    requires Sorted(source) && limit > 0
  {
    forall i: nat | i < n && i < |source| :: !StallsAt(source, start, limit, i)
  }

  ghost predicate Missed(source: seq<ApiRow>, start: int, fetched: seq<ApiRow>)
    requires Sorted(source)
  {
    exists i: nat :: i < |source| && source[i].changed.time >= start && source[i] !in fetched
  }

  ghost predicate NoStall(source: seq<ApiRow>, start: int, limit: nat)
    requires Sorted(source) && limit > 0
  {
    forall i: nat | i < |source| :: !StallsAt(source, start, limit, i)
  }

  /** What the page adds to the rows already fetched. */
  lemma PageExtends(source: seq<ApiRow>, fetched: seq<ApiRow>, first: nat, l: nat, done: nat, h: nat)
    requires Distinct(source) && first <= l <= done <= h <= |source| && Has(source, fetched, first, done)
    ensures Has(source, fetched + source[l..h], first, h)
  {
    assert forall i: nat | i < |source| :: source[i] in fetched + source[l..h] <==> first <= i < h;
  }

  /** The last row of a page moves the cursor forward, onto a row, but not past the page. */
  lemma NextCursor(source: seq<ApiRow>, limit: nat, cursor: int, l: nat, h: nat)
    requires Sorted(source) && l == Before(source, cursor) && h == End(source, cursor, limit) && l < h
    ensures var next := source[h - 1].changed.time;
            cursor <= next && l <= Before(source, next) < h && source[Before(source, next)].changed.time == next
  {
    var next := source[h - 1].changed.time;
    var at := Before(source, next);
    assert source[at].changed.time <= source[h - 1].changed.time;
  }

  lemma OnCourseStep(
    source: seq<ApiRow>, start: int, limit: nat, cursor: int, last: Stamp, fetched: seq<ApiRow>, done: nat, l: nat, h: nat)
    requires limit > 0 && Sorted(source) && Distinct(source)
    requires OnCourse(source, start, limit, cursor, last, fetched, done)
    requires l == Before(source, cursor) && h == End(source, cursor, limit) && l < h
    ensures var next := source[h - 1].changed;
            OnCourse(source, start, limit, next.time, next, fetched + source[l..h], h)
  {
    NextCursor(source, limit, cursor, l, h);
    PageExtends(source, fetched, Before(source, start), l, done, h);
  }

  /** A cursor that stands still before the end of the source means a stall, and missing rows. */
  lemma StoppedShort(source: seq<ApiRow>, start: int, limit: nat, cursor: int, all: seq<ApiRow>, l: nat, h: nat)
    requires limit > 0 && Sorted(source) && start <= cursor && l <= h < |source| && Has(source, all, Before(source, start), h)
    requires l == Before(source, cursor) && h == End(source, cursor, limit) && source[h - 1].changed == Instant(cursor)
    ensures Missed(source, start, all) && !NoStall(source, start, limit)
  {
    assert source[l].changed.time == cursor;
    assert StallsAt(source, start, limit, l);
    assert source[h] !in all;
  }

  /** When the cursor stands still, rows are missing exactly if its timestamp fills the page. */
  lemma StopIsExact(
    source: seq<ApiRow>, start: int, limit: nat, cursor: int, last: Stamp, fetched: seq<ApiRow>, done: nat, l: nat, h: nat)
    requires limit > 0 && Sorted(source) && Distinct(source)
    requires OnCourse(source, start, limit, cursor, last, fetched, done)
    requires l == Before(source, cursor) && h == End(source, cursor, limit)
    requires l == h || source[h - 1].changed == last
    ensures Missed(source, start, fetched + source[l..h]) <==> !NoStall(source, start, limit)
  {
    PageExtends(source, fetched, Before(source, start), l, done, h);
    if h < |source| {
      StoppedShort(source, start, limit, cursor, fetched + source[l..h], l, h);
    }
  }

  lemma {:induction false} SyncFrom(
    api: (int, nat) -> Reply, results: nat -> Outcome, source: seq<ApiRow>, start: int, limit: nat, p: Progress, done: nat)
    requires limit > 0 && Sorted(source) && Distinct(source) && Serves(api, source, limit)
    requires p.stop.Running? && OnCourse(source, start, limit, p.cursor, p.last, p.fetched, done)
    ensures var f := Sync(api, results, p);
            f.stop.PageCap? || (Missed(source, start, f.fetched) <==> !NoStall(source, start, limit))
    decreases MAX_API_PAGES - p.pages
  {
    if p.pages < MAX_API_PAGES {
      var l, h := Before(source, p.cursor), End(source, p.cursor, limit);
      var t := AfterPage(p, source[l..h], results);
      assert Sync(api, results, p) == Sync(api, results, t) by {
        assert api(p.cursor, p.pages) == Page(source[l..h]);
      }
      PageEffect(p, source, l, h, results);
      if l == h || source[h - 1].changed == p.last {
        assert Sync(api, results, t) == t;
        StopIsExact(source, start, limit, p.cursor, p.last, p.fetched, done, l, h);
      } else {
        OnCourseStep(source, start, limit, p.cursor, p.last, p.fetched, done, l, h);
        SyncFrom(api, results, source, start, limit, t, h);
      }
    }
  }

  lemma PageEffect(p: Progress, source: seq<ApiRow>, l: nat, h: nat, results: nat -> Outcome)
    requires p.stop.Running? && Sorted(source) && l <= h <= |source|
    ensures var t := AfterPage(p, source[l..h], results);
            && t.fetched == p.fetched + source[l..h]
            && if l == h then t.stop == NoMoreRows
               else if source[h - 1].changed == p.last then t.stop == Stalled
               else t.stop.Running? && t.last == source[h - 1].changed && t.cursor == source[h - 1].changed.time
  {
    assert l < h ==> source[l..h][h - l - 1] == source[h - 1];
  }

  /** Completeness, exactly: when the loop is not cut short by the page cap, it has fetched every row
      from the start date on if and only if no timestamp fills a whole page with rows still to come. */
  lemma SyncCompleteExactly(
    api: (int, nat) -> Reply, results: nat -> Outcome, source: seq<ApiRow>, start: int, limit: nat)
    requires limit > 0 && Sorted(source) && Distinct(source) && Serves(api, source, limit)
    requires !Sync(api, results, Start(start)).stop.PageCap?
    ensures !Missed(source, start, Sync(api, results, Start(start)).fetched) <==> NoStall(source, start, limit)
  {
    assert OnCourse(source, start, limit, start, Absent, [], Before(source, start));
    SyncFrom(api, results, source, start, limit, Start(start), Before(source, start));
  }

  /** The page cap is out of reach while fewer rows than pages remain: the cursor moves past at least
      one row on every page but the first. */
  lemma {:induction false} CapOutOfReach(
    api: (int, nat) -> Reply, results: nat -> Outcome, source: seq<ApiRow>, start: int, limit: nat, p: Progress)
    requires limit > 0 && Sorted(source) && Serves(api, source, limit)
    requires |source| - Before(source, start) < MAX_API_PAGES
    requires p.stop.Running? && start <= p.cursor && CursorOnRow(source, start, p.cursor, p.last)
    requires if p.last == Absent then p.pages == 0
             else p.pages <= Before(source, p.cursor) - Before(source, start) + 1
    ensures !Sync(api, results, p).stop.PageCap?
    decreases MAX_API_PAGES - p.pages
  {
    var l, h := Before(source, p.cursor), End(source, p.cursor, limit);
    var t := AfterPage(p, source[l..h], results);
    assert Sync(api, results, p) == Sync(api, results, t) by {
      assert api(p.cursor, p.pages) == Page(source[l..h]);
    }
    PageEffect(p, source, l, h, results);
    if l < h && source[h - 1].changed != p.last {
      NextCursor(source, limit, p.cursor, l, h);
      CapOutOfReach(api, results, source, start, limit, t);
    }
  }

  ghost predicate FewPerStamp(source: seq<ApiRow>, limit: nat) {
    forall i, j | 0 <= i <= j < |source| && source[i].changed == source[j].changed :: j - i + 1 < limit
  }

  /** Every row from the start date on was fetched, and each non-empty srid among them attempted once. */
  ghost predicate SawAll(source: seq<ApiRow>, start: int, p: Progress)
    requires Sorted(source)
  {
    && (forall i: nat | i < |source| && source[i].changed.time >= start ::
          source[i] in p.fetched && (source[i].srid != "" ==> source[i].srid in SridsOf(p.attempted)))
    && NoSridTwice(p.attempted)
  }

  /** In particular, when fewer than `limit` rows share any timestamp the loop sees every row from the
      start date on, and every non-empty srid among them is attempted exactly once. */
  lemma SyncComplete(
    api: (int, nat) -> Reply, results: nat -> Outcome, source: seq<ApiRow>, start: int, limit: nat)
    requires limit > 0 && Sorted(source) && Distinct(source) && Serves(api, source, limit) && FewPerStamp(source, limit)
    requires !Sync(api, results, Start(start)).stop.PageCap?
    ensures SawAll(source, start, Sync(api, results, Start(start)))
  {
    SyncCompleteExactly(api, results, source, start, limit);
    EachSridAttemptedOnce(api, results, start);
  }

  // ----- A stalled source

  /** Three rows with one change date, from an API that serves two at a time. */
  function OneStampRows(): seq<ApiRow> {
    [ApiRow(0, "a", Instant(0)), ApiRow(1, "b", Instant(0)), ApiRow(2, "c", Instant(0))]
  }

  ghost function Serving(source: seq<ApiRow>, limit: nat): (int, nat) -> Reply
    requires Sorted(source)
  {
    (cursor: int, k: nat) => Page(source[Before(source, cursor)..End(source, cursor, limit)])
  }

  /** The loop ends without the third row, although no call fails. */
  lemma StalledSourceExample(results: nat -> Outcome)
    ensures Sorted(OneStampRows())
    ensures var p := Sync(Serving(OneStampRows(), 2), results, Start(0));
            !p.stop.PageCap? && Missed(OneStampRows(), 0, p.fetched)
  {
    var source, api := OneStampRows(), Serving(OneStampRows(), 2);
    assert Serves(api, source, 2);
    CapOutOfReach(api, results, source, 0, 2, Start(0));
    SyncCompleteExactly(api, results, source, 0, 2);
    assert StallsAt(source, 0, 2, 0);
  }
}
