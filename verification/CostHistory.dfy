/** Product cost history: `ProductCostRepository` over an in-memory table.

    A new cost closes the open row with the greatest `validFrom` strictly below its own date and
    then opens a row of its own.  Dates may arrive in any order and may repeat; SQL leaves the
    choice among equally dated open rows unspecified, so every result below holds for every
    choice the database may make. */
module CostHistory {
  import opened Common

  datatype CostUpdate = CostUpdate(
    productId: int, costPrice: int, packageCost: int, additionalCost: int,
    taxRate: int, validFrom: int, comment: Option<string>)

  datatype CostRow = CostRow(
    productId: int, costPrice: int, packageCost: int, additionalCost: int,
    taxRate: int, validFrom: int, validTo: Option<int>, comment: Option<string>)

  function NewRow(data: CostUpdate): CostRow {
    CostRow(data.productId, data.costPrice, data.packageCost, data.additionalCost,
            data.taxRate, data.validFrom, None, data.comment)
  }

  /** The row holds, column by column, what the update gave. */
  ghost predicate Mirrors(row: CostRow, data: CostUpdate) {
    && row.productId == data.productId && row.costPrice == data.costPrice && row.packageCost == data.packageCost
    && row.additionalCost == data.additionalCost && row.taxRate == data.taxRate
    && row.validFrom == data.validFrom && row.comment == data.comment
  }

  // ----- The queries' WHERE and ORDER BY clauses

  predicate IsOpen(rows: seq<CostRow>, product: int, i: nat) {
    i < |rows| && rows[i].productId == product && rows[i].validTo.None?
  }

  predicate Closable(rows: seq<CostRow>, product: int, date: int, i: nat) {
    IsOpen(rows, product, i) && rows[i].validFrom < date
  }

  predicate LatestClosable(rows: seq<CostRow>, product: int, date: int, i: nat) {
    && Closable(rows, product, date, i)
    && forall j: nat | j < |rows| :: Closable(rows, product, date, j) ==> rows[j].validFrom <= rows[i].validFrom
  }

  /** `valid_from <= at`, whatever `valid_to` says. */
  predicate Started(rows: seq<CostRow>, product: int, at: int, i: nat) {
    i < |rows| && rows[i].productId == product && rows[i].validFrom <= at
  }

  predicate LatestStarted(rows: seq<CostRow>, product: int, at: int, i: nat) {
    && Started(rows, product, at, i)
    && forall j: nat | j < |rows| :: Started(rows, product, at, j) ==> rows[j].validFrom <= rows[i].validFrom
  }

  /** The row is in force at `at`: started, and not yet replaced. */
  predicate Covers(rows: seq<CostRow>, product: int, at: int, i: nat) {
    Started(rows, product, at, i) && (rows[i].validTo.None? || rows[i].validTo.value > at)
  }

  predicate ActualCost(rows: seq<CostRow>, product: int, at: int, i: nat) {
    && Covers(rows, product, at, i)
    && forall j: nat | j < |rows| :: Covers(rows, product, at, j) ==> rows[j].validFrom <= rows[i].validFrom
  }

  predicate Latest(rows: seq<CostRow>, product: int, i: nat) {
    && i < |rows| && rows[i].productId == product
    && forall j: nat | j < |rows| :: rows[j].productId == product ==> rows[j].validFrom <= rows[i].validFrom
  }

  // ----- One call, and a whole history of calls

  /** What the closing query may return: `None` only when no row qualifies. */
  predicate LegalPick(rows: seq<CostRow>, product: int, date: int, pick: Option<nat>) {
    match pick
    case Some(i) => LatestClosable(rows, product, date, i)
    case None => forall i: nat | i < |rows| :: !Closable(rows, product, date, i)
  }

  function Closed(rows: seq<CostRow>, date: int, pick: Option<nat>): seq<CostRow> {
    if pick.Some? && pick.value < |rows| then
      rows[pick.value := rows[pick.value].(validTo := Some(date))]
    else rows
  }

  /** `add_cost`: the closing query's row is closed, and the new row follows. */
  function Added(rows: seq<CostRow>, data: CostUpdate, pick: Option<nat>): seq<CostRow> {
    Closed(rows, data.validFrom, pick) + [NewRow(data)]
  }

  /** The table after the calls `inputs`, when the closing queries returned `picks`. */
  function Table(inputs: seq<CostUpdate>, picks: seq<Option<nat>>): (rows: seq<CostRow>)
    requires |picks| == |inputs|
    ensures |rows| == |inputs|
  {
    if inputs == [] then []
    else
      var n := |inputs| - 1;
      Added(Table(inputs[..n], picks[..n]), inputs[n], picks[n])
  }

  ghost predicate Legal(inputs: seq<CostUpdate>, picks: seq<Option<nat>>) {
    && |picks| == |inputs|
    && (inputs == [] ||
        var n := |inputs| - 1;
        && Legal(inputs[..n], picks[..n])
        && LegalPick(Table(inputs[..n], picks[..n]), inputs[n].productId, inputs[n].validFrom, picks[n]))
  }

  class ProductCostRepository {
    var rows: seq<CostRow>
    ghost var inputs: seq<CostUpdate>
    ghost var picks: seq<Option<nat>>

    ghost predicate Valid()
      reads this
    {
      Legal(inputs, picks) && rows == Table(inputs, picks)
    }

    constructor ()
      ensures Valid() && inputs == [] && rows == []
    {
      rows, inputs, picks := [], [], [];
    }

    method CloseCurrentCost(product: int, date: int) returns (ghost pick: Option<nat>)
      modifies this`rows
      ensures LegalPick(old(rows), product, date, pick) && rows == Closed(old(rows), date, pick)
      ensures pick.None? ==>
                && rows == old(rows)
                && forall i | 0 <= i < |rows| ::
                     !(rows[i].productId == product && rows[i].validTo.None? && rows[i].validFrom < date)
      ensures pick.Some? ==>
                && pick.value < |old(rows)|
                && var before, r := old(rows), old(rows)[pick.value];
                   && r.productId == product && r.validTo.None? && r.validFrom < date
                   && rows == before[pick.value := r.(validTo := Some(date))]
                   && forall i | 0 <= i < |before| && before[i].productId == product && before[i].validTo.None?
                                 && before[i].validFrom < date :: before[i].validFrom <= r.validFrom
    {
      pick := None;
      if exists i: nat | i < |rows| :: LatestClosable(rows, product, date, i) {
        var current: nat :| current < |rows| && LatestClosable(rows, product, date, current);
        rows := rows[current := rows[current].(validTo := Some(date))];
        pick := Some(current);
      } else {
        NoLatestMeansNoClosable(rows, product, date);
        forall i: nat | i < |rows|
          ensures !(rows[i].productId == product && rows[i].validTo.None? && rows[i].validFrom < date)
        {
          assert !Closable(rows, product, date, i);
        }
      }
    }

    method AddCost(data: CostUpdate) returns (row: CostRow)
      requires Valid()
      modifies this
      ensures Valid() && inputs == old(inputs) + [data] && Mirrors(row, data) && row.validTo.None?
      ensures |picks| == |old(picks)| + 1 && picks[..|old(picks)|] == old(picks)
      ensures LegalPick(old(rows), data.productId, data.validFrom, picks[|old(picks)|])
      ensures rows == Closed(old(rows), data.validFrom, picks[|old(picks)|]) + [row]
    {
      ghost var pick := CloseCurrentCost(data.productId, data.validFrom);
      row := NewRow(data);
      rows := rows + [row];
      ghost var before := inputs;
      ghost var beforePicks := picks;
      inputs, picks := inputs + [data], picks + [pick];
    }

    /** `latest_for_product`: the row it hands out, if any, is always an open one. */
    method LatestForProduct(product: int) returns (r: Option<CostRow>)
      requires Valid()
      ensures r.None? <==> forall i | 0 <= i < |rows| :: rows[i].productId != product
      ensures r.Some? ==>
                && r.value in rows && r.value.productId == product && r.value.validTo.None?
                && forall i | 0 <= i < |rows| && rows[i].productId == product :: rows[i].validFrom <= r.value.validFrom
    {
      if exists i: nat | i < |rows| :: Latest(rows, product, i) {
        var i: nat :| i < |rows| && Latest(rows, product, i);
        LatestIsOpen(inputs, picks, product, i);
        r := Some(rows[i]);
      } else {
        forall i: nat | i < |rows| ensures rows[i].productId != product {
          if rows[i].productId == product {
            var m := LatestAt(rows, product, i);
            assert false;
          }
        }
        r := None;
      }
    }

    /** `CostService.get_actual_cost` without its cache: the price in force at `at` is the one
        that started last, and it is missing only before the first recorded date. */
    method GetActualCost(product: int, at: int) returns (r: Option<CostRow>)
      requires Valid()
      ensures r.None? <==> forall i | 0 <= i < |rows| :: !(rows[i].productId == product && rows[i].validFrom <= at)
      ensures r.Some? ==>
                && r.value in rows && r.value.productId == product && r.value.validFrom <= at
                && forall i | 0 <= i < |rows| && rows[i].productId == product && rows[i].validFrom <= at ::
                     rows[i].validFrom <= r.value.validFrom
    {
      if exists i: nat | i < |rows| :: ActualCost(rows, product, at, i) {
        var i: nat :| i < |rows| && ActualCost(rows, product, at, i);
        ActualCostIsLatestStarted(inputs, picks, product, at, i);
        r := Some(rows[i]);
      } else {
        forall i: nat | i < |rows| ensures !(rows[i].productId == product && rows[i].validFrom <= at) {
          if Started(rows, product, at, i) {
            var m := LatestStartedAt(rows, product, at, i);
            ActualCostIsLatestStarted(inputs, picks, product, at, m);
            assert false;
          }
        }
        r := None;
      }
    }
  }

  // ----- Some greatest row exists whenever any row qualifies

  /** The first index of the largest date among the members of `s`. */
  lemma {:induction false} Greatest(rows: seq<CostRow>, s: set<nat>) returns (m: nat)
    requires s != {} && forall i :: i in s ==> i < |rows|
    ensures m in s && forall i :: i in s ==> rows[i].validFrom <= rows[m].validFrom
  {
    m :| m in s;
    if s != {m} {
      var m' := Greatest(rows, s - {m});
      if rows[m'].validFrom > rows[m].validFrom { m := m'; }
    }
  }

  lemma NoLatestMeansNoClosable(rows: seq<CostRow>, product: int, date: int)
    requires forall i: nat | i < |rows| :: !LatestClosable(rows, product, date, i)
    ensures forall i: nat | i < |rows| :: !Closable(rows, product, date, i)
  {
    var s := set i: nat | i < |rows| && Closable(rows, product, date, i);
    if s != {} {
      var m := Greatest(rows, s);
      assert LatestClosable(rows, product, date, m);
    }
    forall i: nat | i < |rows| ensures !Closable(rows, product, date, i) {
      assert i !in s;
    }
  }

  lemma LatestAt(rows: seq<CostRow>, product: int, i: nat) returns (m: nat)
    requires i < |rows| && rows[i].productId == product
    ensures Latest(rows, product, m)
  {
    var s := set j: nat | j < |rows| && rows[j].productId == product;
    assert i in s;
    m := Greatest(rows, s);
  }

  lemma LatestStartedAt(rows: seq<CostRow>, product: int, at: int, i: nat) returns (m: nat)
    requires Started(rows, product, at, i)
    ensures LatestStarted(rows, product, at, m)
  {
    var s := set j: nat | j < |rows| && Started(rows, product, at, j);
    assert i in s;
    m := Greatest(rows, s);
  }

  // ----- Patience sorting: open rows count the longest non-increasing subsequence

  /** The product's open rows dated `from` or later. */
  ghost function OpenFrom(rows: seq<CostRow>, product: int, from: int): set<nat> {
    set i: nat | i < |rows| && IsOpen(rows, product, i) && rows[i].validFrom >= from
  }

  ghost function OpenRows(rows: seq<CostRow>, product: int): set<nat> {
    set i: nat | i < |rows| && IsOpen(rows, product, i)
  }

  /** `idx` picks calls for the product, in call order, whose dates never rise. */
  ghost predicate NonIncreasing(inputs: seq<CostUpdate>, product: int, idx: seq<nat>) {
    && (forall k | 0 <= k < |idx| :: idx[k] < |inputs| && inputs[idx[k]].productId == product)
    && (forall k, l | 0 <= k < l < |idx| ::
          idx[k] < idx[l] && inputs[idx[k]].validFrom >= inputs[idx[l]].validFrom)
  }

  /** The same, read from the last member back, with every date at least `from`. */
  ghost predicate Descends(inputs: seq<CostUpdate>, product: int, from: int, idx: seq<nat>)
    decreases |idx|
  {
    idx == [] ||
    var m := |idx| - 1;
    && idx[m] < |inputs|
    && inputs[idx[m]].productId == product
    && inputs[idx[m]].validFrom >= from
    && Descends(inputs[..idx[m]], product, inputs[idx[m]].validFrom, idx[..m])
  }

  lemma {:induction false} DescendsMeansNonIncreasing(inputs: seq<CostUpdate>, product: int, from: int, idx: seq<nat>)
    ensures Descends(inputs, product, from, idx) <==>
            NonIncreasing(inputs, product, idx) && forall k | 0 <= k < |idx| :: inputs[idx[k]].validFrom >= from
    decreases |idx|
  {
    if idx != [] && idx[|idx| - 1] < |inputs| {
      var m := |idx| - 1;
      var prior := inputs[..idx[m]];
      DescendsMeansNonIncreasing(prior, product, inputs[idx[m]].validFrom, idx[..m]);
      if NonIncreasing(inputs, product, idx) {
        forall k | 0 <= k < m ensures idx[..m][k] < |prior| && prior[idx[..m][k]] == inputs[idx[k]] {
          assert idx[k] < idx[m];
        }
        assert NonIncreasing(prior, product, idx[..m]);
      }
      if Descends(inputs, product, from, idx) {
        forall k, l | 0 <= k < l < |idx| ensures idx[k] < idx[l] && inputs[idx[k]].validFrom >= inputs[idx[l]].validFrom {
          assert idx[..m][k] == idx[k] < |prior|;
          if l < m { assert idx[..m][l] == idx[l] < |prior|; }
        }
        forall k | 0 <= k < |idx|
          ensures idx[k] < |inputs| && inputs[idx[k]].productId == product && inputs[idx[k]].validFrom >= from
        {
          if k < m { assert idx[..m][k] == idx[k] < |prior|; }
        }
      }
    }
  }

  lemma DescendsInLonger(inputs: seq<CostUpdate>, n: nat, product: int, from: int, idx: seq<nat>)
    requires n <= |inputs|
    ensures Descends(inputs[..n], product, from, idx) <==>
            Descends(inputs, product, from, idx) && (idx == [] || idx[|idx| - 1] < n)
  {
    if idx != [] && idx[|idx| - 1] < n {
      assert inputs[..n][..idx[|idx| - 1]] == inputs[..idx[|idx| - 1]];
    }
  }

  lemma OpenFromAfter(before: seq<CostRow>, data: CostUpdate, pick: Option<nat>, product: int, from: int)
    requires LegalPick(before, data.productId, data.validFrom, pick)
    ensures OpenFrom(Added(before, data, pick), product, from) ==
            OpenFrom(before, product, from)
              - (if pick.Some? then {pick.value} else {})
              + (if data.productId == product && data.validFrom >= from then {|before|} else {})
  {
    var after := Added(before, data, pick);
    assert forall i: nat ::
      i in OpenFrom(after, product, from) <==>
        if i == |before| then data.productId == product && data.validFrom >= from
        else i in OpenFrom(before, product, from) && pick != Some(i);
  }

  /** How one call moves the number of open rows at or above a threshold. */
  lemma OpenFromStep(before: seq<CostRow>, data: CostUpdate, pick: Option<nat>, product: int, from: int)
    requires LegalPick(before, data.productId, data.validFrom, pick)
    ensures var n, m := |OpenFrom(before, product, from)|, |OpenFrom(Added(before, data, pick), product, from)|;
            if data.productId != product || data.validFrom < from then m == n
            else if pick.Some? && before[pick.value].validFrom >= from then m == n
            else m == n + 1 && OpenFrom(before, product, from) == OpenFrom(before, product, data.validFrom)
  {
    OpenFromAfter(before, data, pick, product, from);
    var open := OpenFrom(before, product, from);
    if data.productId != product || data.validFrom < from {
      assert pick.Some? ==> pick.value !in open;
    } else if pick.Some? && before[pick.value].validFrom >= from {
      assert pick.value in open && |before| !in open;
    } else {
      assert pick.Some? ==> pick.value !in open;
      NoneOpenBetween(before, data, pick, product, from);
    }
  }

  /** Nothing open lies between the closed row and the new date. */
  lemma NoneOpenBetween(before: seq<CostRow>, data: CostUpdate, pick: Option<nat>, product: int, from: int)
    requires LegalPick(before, data.productId, data.validFrom, pick)
    requires data.productId == product && from <= data.validFrom
    requires pick.Some? ==> before[pick.value].validFrom < from
    ensures OpenFrom(before, product, from) == OpenFrom(before, product, data.validFrom)
  {
    forall i: nat | i in OpenFrom(before, product, from) ensures before[i].validFrom >= data.validFrom {
      if before[i].validFrom < data.validFrom {
        assert Closable(before, product, data.validFrom, i);
      }
    }
  }

  /** A non-increasing subsequence as long as the open rows are many. */
  lemma {:induction false} PatienceWitness(inputs: seq<CostUpdate>, picks: seq<Option<nat>>, product: int, from: int)
    returns (idx: seq<nat>)
    requires Legal(inputs, picks)
    ensures Descends(inputs, product, from, idx)
    ensures |idx| == |OpenFrom(Table(inputs, picks), product, from)|
    decreases |inputs|
  {
    if inputs == [] {
      idx := [];
      assert OpenFrom(Table(inputs, picks), product, from) == {};
    } else {
      var n := |inputs| - 1;
      var before := Table(inputs[..n], picks[..n]);
      OpenFromStep(before, inputs[n], picks[n], product, from);
      if inputs[n].productId != product || inputs[n].validFrom < from
         || (picks[n].Some? && before[picks[n].value].validFrom >= from) {
        idx := PatienceWitness(inputs[..n], picks[..n], product, from);
        DescendsInLonger(inputs, n, product, from, idx);
      } else {
        var prior := PatienceWitness(inputs[..n], picks[..n], product, inputs[n].validFrom);
        idx := prior + [n];
        assert idx[..|prior|] == prior;
      }
    }
  }

  /** No non-increasing subsequence is longer than the open rows are many. */
  lemma {:induction false} PatienceBound(
    inputs: seq<CostUpdate>, picks: seq<Option<nat>>, product: int, from: int, idx: seq<nat>)
    requires Legal(inputs, picks) && Descends(inputs, product, from, idx)
    ensures |idx| <= |OpenFrom(Table(inputs, picks), product, from)|
    decreases |inputs|
  {
    if idx != [] {
      var n, m := |inputs| - 1, |idx| - 1;
      var before := Table(inputs[..n], picks[..n]);
      OpenFromStep(before, inputs[n], picks[n], product, from);
      if idx[m] < n {
        DescendsInLonger(inputs, n, product, from, idx);
        PatienceBound(inputs[..n], picks[..n], product, from, idx);
      } else {
        var date := inputs[n].validFrom;
        OpenFromStep(before, inputs[n], picks[n], product, date);
        PatienceBound(inputs[..n], picks[..n], product, date, idx[..m]);
        var after := Table(inputs, picks);
        SubsetSize(OpenFrom(after, product, date), OpenFrom(after, product, from));
      }
    }
  }

  lemma {:induction false} SomeLowerBound(inputs: seq<CostUpdate>) returns (from: int)
    ensures forall i | 0 <= i < |inputs| :: inputs[i].validFrom >= from
  {
    from := 0;
    if inputs != [] {
      var n := |inputs| - 1;
      var f := SomeLowerBound(inputs[..n]);
      from := if f < inputs[n].validFrom then f else inputs[n].validFrom;
      forall i | 0 <= i < |inputs| ensures inputs[i].validFrom >= from {
        if i < n { assert inputs[..n][i] == inputs[i]; }
      }
    }
  }

  lemma LongestNonIncreasing(inputs: seq<CostUpdate>, picks: seq<Option<nat>>, product: int) returns (idx: seq<nat>)
    requires Legal(inputs, picks)
    ensures NonIncreasing(inputs, product, idx) && |idx| == |OpenRows(Table(inputs, picks), product)|
  {
    var from := SomeLowerBound(inputs);
    AllOpenFromLowerBound(inputs, picks, product, from);
    idx := PatienceWitness(inputs, picks, product, from);
    DescendsMeansNonIncreasing(inputs, product, from, idx);
  }

  lemma NonIncreasingAtMostOpen(inputs: seq<CostUpdate>, picks: seq<Option<nat>>, product: int, idx: seq<nat>)
    requires Legal(inputs, picks) && NonIncreasing(inputs, product, idx)
    ensures |idx| <= |OpenRows(Table(inputs, picks), product)|
  {
    var from := SomeLowerBound(inputs);
    AllOpenFromLowerBound(inputs, picks, product, from);
    DescendsMeansNonIncreasing(inputs, product, from, idx);
    PatienceBound(inputs, picks, product, from, idx);
  }

  lemma AllOpenFromLowerBound(inputs: seq<CostUpdate>, picks: seq<Option<nat>>, product: int, from: int)
    requires |picks| == |inputs| && forall i | 0 <= i < |inputs| :: inputs[i].validFrom >= from
    ensures OpenFrom(Table(inputs, picks), product, from) == OpenRows(Table(inputs, picks), product)
  {
    RowsMirrorInputs(inputs, picks);
    var rows := Table(inputs, picks);
    forall i: nat | i < |rows| ensures rows[i].validFrom >= from {
      assert Mirrors(rows[i], inputs[i]);
    }
  }

  /** The counting theorem: after any calls, in any date order, with ties, the product has exactly
      as many open rows as its longest non-increasing subsequence of dates has members. */
  lemma OpenRowsCountLongestNonIncreasing(inputs: seq<CostUpdate>, picks: seq<Option<nat>>, product: int)
    requires Legal(inputs, picks)
    ensures exists idx :: NonIncreasing(inputs, product, idx) && |idx| == |OpenRows(Table(inputs, picks), product)|
    ensures forall idx | NonIncreasing(inputs, product, idx) :: |idx| <= |OpenRows(Table(inputs, picks), product)|
  {
    var longest := LongestNonIncreasing(inputs, picks, product);
    forall idx | NonIncreasing(inputs, product, idx) ensures |idx| <= |OpenRows(Table(inputs, picks), product)| {
      NonIncreasingAtMostOpen(inputs, picks, product, idx);
    }
  }

  ghost predicate StrictlyIncreasing(inputs: seq<CostUpdate>, product: int) {
    forall i: nat, j: nat | i < j < |inputs| && inputs[i].productId == product && inputs[j].productId == product ::
      inputs[i].validFrom < inputs[j].validFrom
  }

  lemma TwoNonIncreasing(inputs: seq<CostUpdate>, product: int, idx: seq<nat>)
    requires NonIncreasing(inputs, product, idx) && |idx| >= 2
    ensures !StrictlyIncreasing(inputs, product)
  {
    var i, j := idx[0], idx[1];
    assert i < j && inputs[i].validFrom >= inputs[j].validFrom;
  }

  /** A product has exactly one open row just when it has a cost at all and its dates came in
      strictly increasing order. */
  lemma OneOpenRowIffStrictlyIncreasing(inputs: seq<CostUpdate>, picks: seq<Option<nat>>, product: int)
    requires Legal(inputs, picks)
    ensures |OpenRows(Table(inputs, picks), product)| == 1 <==>
            (exists i :: 0 <= i < |inputs| && inputs[i].productId == product) && StrictlyIncreasing(inputs, product)
  {
    if StrictlyIncreasing(inputs, product) {
      var idx := LongestNonIncreasing(inputs, picks, product);
      if |idx| >= 2 { TwoNonIncreasing(inputs, product, idx); }
      if |idx| == 1 {
        assert inputs[idx[0]].productId == product;
      }
      if i: nat :| i < |inputs| && inputs[i].productId == product {
        NonIncreasingAtMostOpen(inputs, picks, product, [i]);
      }
    } else {
      var i: nat, j: nat :| i < j < |inputs| && inputs[i].productId == product && inputs[j].productId == product
                            && inputs[i].validFrom >= inputs[j].validFrom;
      NonIncreasingAtMostOpen(inputs, picks, product, [i, j]);
    }
  }

  /** `chainOf` splits the product's calls into chains of strictly increasing dates. */
  ghost predicate ChainSplit(inputs: seq<CostUpdate>, product: int, chainOf: seq<nat>) {
    && |chainOf| == |inputs|
    && forall i: nat, j: nat | i < j < |inputs| && inputs[i].productId == product && inputs[j].productId == product
         && chainOf[i] == chainOf[j] :: inputs[i].validFrom < inputs[j].validFrom
  }

  /** No other way of splitting the calls into chains of strictly increasing dates needs fewer
      chains than the repository leaves open rows. */
  lemma OpenRowsAreFewestChains(
    inputs: seq<CostUpdate>, picks: seq<Option<nat>>, product: int, chainOf: seq<nat>, chains: nat)
    requires Legal(inputs, picks) && ChainSplit(inputs, product, chainOf)
    requires forall i | 0 <= i < |inputs| :: chainOf[i] < chains
    ensures |OpenRows(Table(inputs, picks), product)| <= chains
  {
    var idx := LongestNonIncreasing(inputs, picks, product);
    var used := seq(|idx|, k requires 0 <= k < |idx| && idx[k] < |chainOf| => chainOf[idx[k]]);
    DistinctSize(used);
    BoundedSetSize(Elements(used), chains);
  }

  // ----- Chains, coverage and the latest row

  /** Row `i` holds, column by column, what the `i`-th call gave, for ever; only `validTo` is written later. */
  lemma {:induction false} RowsMirrorInputs(inputs: seq<CostUpdate>, picks: seq<Option<nat>>)
    requires |picks| == |inputs|
    ensures var rows := Table(inputs, picks);
            |rows| == |inputs| && forall i | 0 <= i < |rows| :: Mirrors(rows[i], inputs[i])
  {
    if inputs != [] {
      var n := |inputs| - 1;
      RowsMirrorInputs(inputs[..n], picks[..n]);
      var before := Table(inputs[..n], picks[..n]);
      var rows := Table(inputs, picks);
      forall i | 0 <= i < |rows| ensures Mirrors(rows[i], inputs[i]) {
        if i < n {
          assert Mirrors(before[i], inputs[..n][i]);
        }
      }
    }
  }

  /** Which later call closed which row. */
  ghost function Successor(inputs: seq<CostUpdate>, picks: seq<Option<nat>>): map<nat, nat>
    requires |picks| == |inputs|
  {
    if inputs == [] then map[]
    else
      var n := |inputs| - 1;
      var before := Successor(inputs[..n], picks[..n]);
      if picks[n].Some? then before[picks[n].value := n] else before
  }

  /** `next` links the product's rows into disjoint chains that follow one another in time. */
  ghost predicate Chained(rows: seq<CostRow>, next: map<nat, nat>) {
    && (forall i: nat :: i in next <==> i < |rows| && rows[i].validTo.Some?)
    && (forall i: nat | i in next ::
          && i < next[i] < |rows|
          && rows[next[i]].productId == rows[i].productId
          && rows[i].validTo == Some(rows[next[i]].validFrom)
          && rows[i].validFrom < rows[next[i]].validFrom)
    && (forall i: nat, j: nat | i in next && j in next && next[i] == next[j] :: i == j)
  }

  /** The product's rows that no row leads to: where its chains begin. */
  ghost function ChainHeads(rows: seq<CostRow>, next: map<nat, nat>, product: int): set<nat> {
    set i: nat | i < |rows| && rows[i].productId == product && i !in next.Values
  }

  /** Whatever the insertion order, the rows fall into disjoint chains. */
  lemma {:induction false} RowsFormChains(inputs: seq<CostUpdate>, picks: seq<Option<nat>>)
    requires Legal(inputs, picks)
    ensures Chained(Table(inputs, picks), Successor(inputs, picks))
  {
    if inputs != [] {
      var n := |inputs| - 1;
      RowsFormChains(inputs[..n], picks[..n]);
      ChainedStep(Table(inputs[..n], picks[..n]), Successor(inputs[..n], picks[..n]), inputs[n], picks[n]);
    }
  }

  /** There is one chain for each open row. */
  lemma {:induction false} OneChainPerOpenRow(inputs: seq<CostUpdate>, picks: seq<Option<nat>>, product: int)
    requires Legal(inputs, picks)
    ensures |ChainHeads(Table(inputs, picks), Successor(inputs, picks), product)|
         == |OpenRows(Table(inputs, picks), product)|
    decreases |inputs|
  {
    if inputs == [] {
      assert ChainHeads([], map[], product) == {} == OpenRows([], product);
    } else {
      var n := |inputs| - 1;
      var before, prior := Table(inputs[..n], picks[..n]), Successor(inputs[..n], picks[..n]);
      OneChainPerOpenRow(inputs[..n], picks[..n], product);
      RowsFormChains(inputs[..n], picks[..n]);
      OpenRowsAfter(before, inputs[n], picks[n], product);
      ChainHeadsAfter(before, prior, inputs[n], picks[n], product);
    }
  }

  lemma OpenRowsAfter(before: seq<CostRow>, data: CostUpdate, pick: Option<nat>, product: int)
    requires LegalPick(before, data.productId, data.validFrom, pick)
    ensures |OpenRows(Added(before, data, pick), product)| ==
            |OpenRows(before, product)| + if data.productId == product && pick.None? then 1 else 0
  {
    var open, after := OpenRows(before, product), OpenRows(Added(before, data, pick), product);
    assert forall i: nat ::
      i in after <==> if i == |before| then data.productId == product else i in open && pick != Some(i);
    SetStep(open, after, |before|, data.productId == product, if data.productId == product then pick else None);
  }

  /** Counting after one member may leave and a new one may join. */
  lemma SetStep(before: set<nat>, after: set<nat>, n: nat, joins: bool, leaves: Option<nat>)
    requires n !in before && (leaves.Some? ==> leaves.value in before)
    requires forall i: nat :: i in after <==> if i == n then joins else i in before && leaves != Some(i)
    ensures |after| == |before| + (if joins then 1 else 0) - (if leaves.Some? then 1 else 0)
  {
    var kept := if leaves.Some? then before - {leaves.value} else before;
    assert after == if joins then kept + {n} else kept;
  }

  lemma ChainHeadsAfter(before: seq<CostRow>, prior: map<nat, nat>, data: CostUpdate, pick: Option<nat>, product: int)
    requires Chained(before, prior) && LegalPick(before, data.productId, data.validFrom, pick)
    ensures var next := if pick.Some? then prior[pick.value := |before|] else prior;
            |ChainHeads(Added(before, data, pick), next, product)| ==
            |ChainHeads(before, prior, product)| + if data.productId == product && pick.None? then 1 else 0
  {
    var next := if pick.Some? then prior[pick.value := |before|] else prior;
    var heads, after := ChainHeads(before, prior, product), ChainHeads(Added(before, data, pick), next, product);
    assert next.Values == if pick.Some? then prior.Values + {|before|} else prior.Values by {
      if pick.Some? { ValuesAfterUpdate(prior, pick.value, |before|); }
    }
    assert forall i: nat ::
      i in after <==> if i == |before| then data.productId == product && pick.None? else i in heads;
    SetStep(heads, after, |before|, data.productId == product && pick.None?, None);
  }

  lemma ValuesAfterUpdate(m: map<nat, nat>, k: nat, v: nat)
    requires k !in m
    ensures m[k := v].Values == m.Values + {v}
  {
    var m' := m[k := v];
    assert m'[k] == v;
    forall x | x in m.Values ensures x in m'.Values {
      var i :| i in m && m[i] == x;
      assert m'[i] == x;
    }
  }

  lemma ChainedStep(before: seq<CostRow>, prior: map<nat, nat>, data: CostUpdate, pick: Option<nat>)
    requires Chained(before, prior) && LegalPick(before, data.productId, data.validFrom, pick)
    ensures var next := if pick.Some? then prior[pick.value := |before|] else prior;
            Chained(Added(before, data, pick), next)
  {
    var rows := Added(before, data, pick);
    var next := if pick.Some? then prior[pick.value := |before|] else prior;
    forall i: nat | i in next
      ensures && i < next[i] < |rows|
              && rows[next[i]].productId == rows[i].productId
              && rows[i].validTo == Some(rows[next[i]].validFrom)
              && rows[i].validFrom < rows[next[i]].validFrom
    {
      if i in prior && !(pick.Some? && i == pick.value) {
        assert rows[i] == before[i];
      }
    }
  }

  /** The row that started last by `at` is still in force at `at`. */
  lemma LatestStartedCovers(inputs: seq<CostUpdate>, picks: seq<Option<nat>>, product: int, at: int, i: nat)
    requires Legal(inputs, picks) && LatestStarted(Table(inputs, picks), product, at, i)
    ensures Covers(Table(inputs, picks), product, at, i)
  {
    RowsFormChains(inputs, picks);
    var rows, next := Table(inputs, picks), Successor(inputs, picks);
    if rows[i].validTo.Some? {
      assert !Started(rows, product, at, next[i]);
    }
  }

  /** Once a product has a first cost, no later instant is left without a row in force. */
  lemma NoGapAfterFirstDate(inputs: seq<CostUpdate>, picks: seq<Option<nat>>, product: int, at: int)
    requires Legal(inputs, picks)
    requires exists i | 0 <= i < |inputs| :: inputs[i].productId == product && inputs[i].validFrom <= at
    ensures exists i: nat :: Covers(Table(inputs, picks), product, at, i)
  {
    RowsMirrorInputs(inputs, picks);
    var rows := Table(inputs, picks);
    var i: nat :| i < |inputs| && inputs[i].productId == product && inputs[i].validFrom <= at;
    assert Mirrors(rows[i], inputs[i]);
    var m := LatestStartedAt(rows, product, at, i);
    LatestStartedCovers(inputs, picks, product, at, m);
  }

  /** The price query, which looks at `valid_to`, picks exactly the rows a query by starting date
      alone would pick: closing rows never changes which cost an order is charged. */
  lemma ActualCostIsLatestStarted(inputs: seq<CostUpdate>, picks: seq<Option<nat>>, product: int, at: int, i: nat)
    requires Legal(inputs, picks)
    ensures ActualCost(Table(inputs, picks), product, at, i) <==> LatestStarted(Table(inputs, picks), product, at, i)
  {
    var rows := Table(inputs, picks);
    if Started(rows, product, at, i) {
      var m := LatestStartedAt(rows, product, at, i);
      LatestStartedCovers(inputs, picks, product, at, m);
      if LatestStarted(rows, product, at, i) {
        LatestStartedCovers(inputs, picks, product, at, i);
      }
    }
  }

  /** `latest_for_product` can only ever see an open row. */
  lemma LatestIsOpen(inputs: seq<CostUpdate>, picks: seq<Option<nat>>, product: int, i: nat)
    requires Legal(inputs, picks) && Latest(Table(inputs, picks), product, i)
    ensures IsOpen(Table(inputs, picks), product, i)
  {
    RowsFormChains(inputs, picks);
    var rows, next := Table(inputs, picks), Successor(inputs, picks);
    assert i !in next;
  }
}
