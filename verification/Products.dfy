/** Marketplace products and their links to master products: what a row holds after any calls. */
module Products {
  import opened Common

  // ----- Product rows

  datatype Column = Null | Value(text: string)

  /** The lookup that `upsert` starts with; the three columns are part of the row as well. */
  datatype Key = Key(account: nat, marketplace: Marketplace, externalId: string)

  /** The fields of `ProductUpsert`. */
  datatype Field =
    | UserId | MarketplaceAccountId | MarketplaceName | ExternalProductId | SellerArticle | MarketplaceArticle
    | Barcode | ChrtId | Title | Brand | ImageUrl | Category | MarketplaceCategoryId
    | LengthCm | WidthCm | HeightCm | VolumeLiters | DimensionsSource
    | MarketplaceCommissionRate | MarketplaceCommissionSource | CommissionFbw | CommissionFbs
    | CommissionDbs | CommissionEdbs | CommissionPickup | CommissionBooking | IsActive

  /** Tariff and dimension fields: a call that does not know them leaves them as they are. */
  predicate KeptWhenNull(f: Field) {
    match f
    case MarketplaceCommissionRate | MarketplaceCommissionSource | CommissionFbw | CommissionFbs
       | CommissionDbs | CommissionEdbs | CommissionPickup | CommissionBooking
       | LengthCm | WidthCm | HeightCm | VolumeLiters | DimensionsSource => true
    case _ => false
  }

  /** One call: the key it looks up, and its `model_dump()`. */
  datatype ProductUpsert = ProductUpsert(key: Key, dump: map<Field, Column>)

  /** A dump, like a row, has every field. */
  ghost predicate Complete(dump: map<Field, Column>) {
    forall f: Field :: f in dump
  }

  type Rows = map<Key, map<Field, Column>>

  ghost predicate AllComplete(rows: Rows) {
    forall k | k in rows :: Complete(rows[k])
  }

  /** The table after `calls`, by column. */
  ghost function After(calls: seq<ProductUpsert>): (rows: Rows)
    requires forall c | c in calls :: Complete(c.dump)
    ensures AllComplete(rows)
  {
    if calls == [] then map[] else Upserted(After(calls[..|calls| - 1]), calls[|calls| - 1])
  }

  ghost function Upserted(rows: Rows, call: ProductUpsert): (out: Rows)
    requires AllComplete(rows) && Complete(call.dump)
    ensures AllComplete(out)
  {
    rows[call.key := if call.key in rows then Merged(rows[call.key], call.dump) else call.dump]
  }

  ghost function Merged(row: map<Field, Column>, dump: map<Field, Column>): (out: map<Field, Column>)
    requires Complete(row) && Complete(dump)
    ensures Complete(out)
  {
    map f | f in dump :: if KeptWhenNull(f) && dump[f].Null? then row[f] else dump[f]
  }

  class ProductRepository {
    var rows: Rows

    constructor ()
      ensures rows == map[]
    {
      rows := map[];
    }

    /** The fields are set one by one; the result is the same in every order. */
    method Upsert(data: ProductUpsert)
      requires AllComplete(rows) && Complete(data.dump)
      modifies this
      ensures rows == Upserted(old(rows), data)
    {
      if data.key !in rows {
        rows := rows[data.key := data.dump];
        return;
      }
      var row := rows[data.key];
      ghost var before := row;
      var todo := data.dump.Keys;
      while todo != {}
        invariant todo <= data.dump.Keys && Complete(row)
        invariant forall f: Field :: row[f] == if f in todo then before[f] else Merged(before, data.dump)[f]
        decreases todo
      {
        var field :| field in todo;
        todo := todo - {field};
        if KeptWhenNull(field) && data.dump[field].Null? {
          continue;
        }
        row := row[field := data.dump[field]];
      }
      assert row == Merged(before, data.dump);
      rows := rows[data.key := row];
    }
  }

  /** The columns a call overwrites even with null: all but the tariffs and the dimensions. */
  predicate AlwaysWritten(f: Field) {
    match f
    case UserId | MarketplaceAccountId | MarketplaceName | ExternalProductId | SellerArticle | MarketplaceArticle
       | Barcode | ChrtId | Title | Brand | ImageUrl | Category | MarketplaceCategoryId | IsActive => true
    case _ => false
  }

  ghost predicate Writes(call: ProductUpsert, key: Key, field: Field)
    requires Complete(call.dump)
  {
    call.key == key && (AlwaysWritten(field) || !call.dump[field].Null?)
  }

  /** Over any history a key has a row exactly when some call named it. */
  lemma {:induction false} RowIffNamed(calls: seq<ProductUpsert>, key: Key)
    requires forall c | c in calls :: Complete(c.dump)
    ensures key in After(calls) <==> exists c | c in calls :: c.key == key
  {
    if calls != [] {
      RowIffNamed(calls[..|calls| - 1], key);
      assert calls == calls[..|calls| - 1] + [calls[|calls| - 1]];
    }
  }

  /** Each column holds the value of the last call that named the key - for a tariff or dimension column,
      of the last that gave a value. */
  lemma {:induction false} ColumnIsLastWritten(calls: seq<ProductUpsert>, key: Key, field: Field, i: nat)
    requires forall c | c in calls :: Complete(c.dump)
    requires i < |calls| && Writes(calls[i], key, field)
    requires forall j | i < j < |calls| :: !Writes(calls[j], key, field)
    ensures key in After(calls) && After(calls)[key][field] == calls[i].dump[field]
  {
    var n := |calls| - 1;
    if i < n {
      ColumnIsLastWritten(calls[..n], key, field, i);
      assert !Writes(calls[n], key, field);
    }
  }

  /** A column no call has written is null. */
  lemma {:induction false} UnwrittenColumnIsNull(calls: seq<ProductUpsert>, key: Key, field: Field)
    requires forall c | c in calls :: Complete(c.dump) && !Writes(c, key, field)
    requires key in After(calls)
    ensures After(calls)[key][field].Null?
  {
    var n := |calls| - 1;
    assert calls[n] in calls;
    if key in After(calls[..n]) {
      UnwrittenColumnIsNull(calls[..n], key, field);
    }
  }

  // ----- Links to master products

  datatype Link = Link(
    master: nat, marketplace: Marketplace, sellerArticle: Option<string>, marketplaceArticle: Option<string>,
    matchMethod: string, confidence: real)

  datatype LinkCall = LinkCall(productId: nat, link: Link)

  predicate Manual(call: LinkCall) {
    call.link.matchMethod == "MANUAL"
  }

  function Linked(links: map<nat, Link>, call: LinkCall): map<nat, Link> {
    if call.productId in links && links[call.productId].matchMethod == "MANUAL" && call.link.matchMethod != "MANUAL"
    then links
    else links[call.productId := call.link]
  }

  function LinksAfter(calls: seq<LinkCall>): map<nat, Link> {
    if calls == [] then map[] else Linked(LinksAfter(calls[..|calls| - 1]), calls[|calls| - 1])
  }

  class MasterProductRepository {
    var links: map<nat, Link>

    constructor ()
      ensures links == map[]
    {
      links := map[];
    }

    method LinkProduct(call: LinkCall) returns (row: Link)
      modifies this
      ensures links == Linked(old(links), call) && call.productId in links && row == links[call.productId]
    {
      if call.productId !in links {
        row := call.link;
      } else {
        row := links[call.productId];
        if row.matchMethod == "MANUAL" && call.link.matchMethod != "MANUAL" {
          return;
        }
        row := row.(master := call.link.master);
        row := row.(marketplace := call.link.marketplace, sellerArticle := call.link.sellerArticle,
                    marketplaceArticle := call.link.marketplaceArticle);
        row := row.(matchMethod := call.link.matchMethod, confidence := call.link.confidence);
      }
      links := links[call.productId := row];
    }
  }

  ghost predicate HasManual(calls: seq<LinkCall>, productId: nat) {
    exists c | c in calls :: c.productId == productId && Manual(c)
  }

  /** Call `i` is the one whose link stands: the product's last manual call, or its last if none is manual. */
  ghost predicate Stands(calls: seq<LinkCall>, productId: nat, i: int) {
    && 0 <= i < |calls| && calls[i].productId == productId
    && (HasManual(calls, productId) ==> Manual(calls[i]))
    && forall j | i < j < |calls| && calls[j].productId == productId :: Manual(calls[i]) && !Manual(calls[j])
  }

  lemma {:induction false} ManualKept(calls: seq<LinkCall>, productId: nat)
    ensures productId in LinksAfter(calls) <==> exists c | c in calls :: c.productId == productId
    ensures HasManual(calls, productId) <==>
            productId in LinksAfter(calls) && LinksAfter(calls)[productId].matchMethod == "MANUAL"
  {
    if calls != [] {
      var front, last := calls[..|calls| - 1], calls[|calls| - 1];
      assert calls == front + [last];
      ManualKept(front, productId);
    }
  }

  /** Over any history a manual match is never replaced by an automatic one: the link kept is that of the
      last manual call, or of the last call if none was manual. */
  lemma {:induction false} StandingLinkIsKept(calls: seq<LinkCall>, productId: nat, i: nat)
    requires Stands(calls, productId, i)
    ensures productId in LinksAfter(calls) && LinksAfter(calls)[productId] == calls[i].link
  {
    var n := |calls| - 1;
    var front, last := calls[..n], calls[n];
    assert calls == front + [last];
    ManualKept(front, productId);
    if i < n {
      assert forall j | 0 <= j < n :: front[j] == calls[j];
      StandingLinkIsKept(front, productId, i);
    }
  }

  /** Once a product has been linked, exactly one of its calls stands. */
  lemma {:induction false} OneCallStands(calls: seq<LinkCall>, productId: nat) returns (i: nat)
    requires exists c | c in calls :: c.productId == productId
    ensures Stands(calls, productId, i)
    ensures forall j | Stands(calls, productId, j) :: j == i
  {
    var n := |calls| - 1;
    var front, last := calls[..n], calls[n];
    assert calls == front + [last];
    assert forall j | 0 <= j < n :: front[j] == calls[j];
    if last.productId == productId && (Manual(last) || !HasManual(front, productId)) {
      i := n;
    } else {
      i := OneCallStands(front, productId);
    }
  }
}
