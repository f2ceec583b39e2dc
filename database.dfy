/**
 * The `products` collection and the two operations on it
 * (wool_pilot/database.py). Documents are kept in insertion order, each with
 * the store's own `_id`; names are unique because every write is an upsert
 * keyed by name.
 */
module Database {
  import opened Wrappers
  import opened Models

  /** A stored document: the product's fields plus the store-assigned `_id`. */
  datatype Document = Document(oid: nat, product: Product)

  predicate UniqueNames(docs: seq<Document>)
  {
    forall i, j | 0 <= i < j < |docs| :: docs[i].product.name != docs[j].product.name
  }

  predicate UniqueOids(docs: seq<Document>)
  {
    forall i, j | 0 <= i < j < |docs| :: docs[i].oid != docs[j].oid
  }

  /** The first document with the given name, as the filter `{"name": name}` finds it. */
  function IndexOfName(docs: seq<Document>, name: string): (r: Option<nat>)
    ensures r.Some? ==> r.value < |docs| && docs[r.value].product.name == name
    ensures r.Some? ==> forall k | 0 <= k < r.value :: docs[k].product.name != name
    ensures r.None? ==> forall k | 0 <= k < |docs| :: docs[k].product.name != name
  {
    if docs == [] then None
    else if docs[0].product.name == name then Some(0)
    else
      match IndexOfName(docs[1..], name)
      case None => None
      case Some(i) => Some(i + 1)
  }

  predicate HasName(docs: seq<Document>, name: string)
  {
    IndexOfName(docs, name).Some?
  }

  lemma HasNameAt(docs: seq<Document>, name: string, k: nat)
    requires k < |docs| && docs[k].product.name == name
    ensures HasName(docs, name) && IndexOfName(docs, name).value <= k
  {
  }

  lemma IndexOfNameAt(docs: seq<Document>, name: string, k: nat)
    requires k < |docs| && docs[k].product.name == name
    requires forall j | 0 <= j < k :: docs[j].product.name != name
    ensures IndexOfName(docs, name) == Some(k)
  {
    HasNameAt(docs, name, k);
  }

  /**
   * `update_one({"name": p.name}, {"$set": asdict(p)}, upsert=True)`: the
   * document with that name gets all of `p`'s fields and keeps its `_id`;
   * without one, a new document with `_id` `newOid` is added at the end.
   */
  function Upsert(docs: seq<Document>, p: Product, newOid: nat): (r: seq<Document>)
    ensures IndexOfName(r, p.name) == Some(IndexOfName(docs, p.name).GetOr(|docs|))
    ensures r[IndexOfName(r, p.name).value].product == p
    ensures |r| == if HasName(docs, p.name) then |docs| else |docs| + 1
    ensures forall k | 0 <= k < |docs| :: r[k].oid == docs[k].oid
    ensures forall k | 0 <= k < |docs| && docs[k].product.name != p.name :: r[k] == docs[k]
    ensures |docs| < |r| ==> r[|docs|].oid == newOid
  {
    match IndexOfName(docs, p.name)
    case Some(i) =>
      var r := docs[i := Document(docs[i].oid, p)];
      IndexOfNameAt(r, p.name, i);
      r
    case None =>
      var r := docs + [Document(newOid, p)];
      IndexOfNameAt(r, p.name, |docs|);
      r
  }

  /** The store as a map from name to record, the view the name-keyed upsert maintains. */
  function Contents(docs: seq<Document>): map<string, Product>
  {
    if docs == [] then map[]
    else Contents(docs[1..])[docs[0].product.name := docs[0].product]
  }

  /**
   * After an upsert the store holds exactly one record named `p.name`, equal
   * to `p` in every field, and names stay unique.
   */
  lemma UpsertStoresRecord(docs: seq<Document>, p: Product, newOid: nat)
    requires UniqueNames(docs)
    ensures UniqueNames(Upsert(docs, p, newOid))
    ensures HasName(Upsert(docs, p, newOid), p.name)
    ensures forall k | 0 <= k < |Upsert(docs, p, newOid)| && Upsert(docs, p, newOid)[k].product.name == p.name ::
              Upsert(docs, p, newOid)[k].product == p
  {
    match IndexOfName(docs, p.name)
    case Some(i) => HasNameAt(Upsert(docs, p, newOid), p.name, i);
    case None => HasNameAt(Upsert(docs, p, newOid), p.name, |docs|);
  }

  /**
   * Records with other names keep their place, `_id` and content; every
   * record keeps its place and `_id`; anything new is named `p.name`.
   */
  lemma UpsertKeepsOthers(docs: seq<Document>, p: Product, newOid: nat)
    ensures |docs| <= |Upsert(docs, p, newOid)|
    ensures forall k | 0 <= k < |docs| ::
              Upsert(docs, p, newOid)[k].oid == docs[k].oid
              && Upsert(docs, p, newOid)[k].product.name == docs[k].product.name
    ensures forall k | 0 <= k < |docs| && docs[k].product.name != p.name :: Upsert(docs, p, newOid)[k] == docs[k]
    ensures forall k | |docs| <= k < |Upsert(docs, p, newOid)| :: Upsert(docs, p, newOid)[k] == Document(newOid, p)
  {
  }

  /** The record count grows by one exactly when no record had the name. */
  lemma UpsertCount(docs: seq<Document>, p: Product, newOid: nat)
    ensures |Upsert(docs, p, newOid)| == if HasName(docs, p.name) then |docs| else |docs| + 1
  {
  }

  /** Upserting the same record twice leaves the store as upserting it once. */
  lemma UpsertIdempotent(docs: seq<Document>, p: Product, newOid: nat, newOid': nat)
    ensures Upsert(Upsert(docs, p, newOid), p, newOid') == Upsert(docs, p, newOid)
  {
    var once := Upsert(docs, p, newOid);
    match IndexOfName(docs, p.name)
    case Some(i) =>
      IndexOfNameAt(once, p.name, i);
    case None =>
      IndexOfNameAt(once, p.name, |docs|);
  }

  /**
   * Two records with the same name collapse into one, whatever their ids:
   * the later one, in the place (and with the `_id`) of the first.
   */
  lemma UpsertCollapsesSameName(docs: seq<Document>, p: Product, q: Product, newOid: nat, newOid': nat)
    requires p.name == q.name
    ensures Upsert(Upsert(docs, p, newOid), q, newOid') == Upsert(docs, q, newOid)
  {
    var once := Upsert(docs, p, newOid);
    match IndexOfName(docs, p.name)
    case Some(i) =>
      IndexOfNameAt(once, q.name, i);
    case None =>
      IndexOfNameAt(once, q.name, |docs|);
  }

  lemma {:induction false} ContentsKeys(docs: seq<Document>, name: string)
    ensures name in Contents(docs) <==> HasName(docs, name)
  {
    if docs != [] {
      ContentsKeys(docs[1..], name);
    }
  }

  lemma {:induction false} ContentsAt(docs: seq<Document>, k: nat)
    requires UniqueNames(docs) && k < |docs|
    ensures docs[k].product.name in Contents(docs)
    ensures Contents(docs)[docs[k].product.name] == docs[k].product
  {
    if k > 0 {
      ContentsAt(docs[1..], k - 1);
    }
  }

  /** In the name-keyed view, an upsert is a map update. */
  lemma UpsertContents(docs: seq<Document>, p: Product, newOid: nat)
    requires UniqueNames(docs)
    ensures Contents(Upsert(docs, p, newOid)) == Contents(docs)[p.name := p]
  {
    var after := Upsert(docs, p, newOid);
    UpsertStoresRecord(docs, p, newOid);
    UpsertKeepsOthers(docs, p, newOid);
    forall name | true
      ensures name in Contents(after) <==> name in Contents(docs)[p.name := p]
    {
      ContentsKeys(after, name);
      ContentsKeys(docs, name);
      if name != p.name && HasName(docs, name) {
        HasNameAt(after, name, IndexOfName(docs, name).value);
      }
      if name != p.name && HasName(after, name) {
        var k := IndexOfName(after, name).value;
        if k < |docs| { assert docs[k].product.name == name; }
      }
    }
    forall name | name in Contents(after)
      ensures Contents(after)[name] == Contents(docs)[p.name := p][name]
    {
      ContentsKeys(after, name);
      var k := IndexOfName(after, name).value;
      ContentsAt(after, k);
      if name != p.name {
        assert k < |docs|;
        ContentsAt(docs, k);
      }
    }
  }

  // ---------------------------------------------------------------------------
  // Replaying a sequence of upserts

  /** One `insert_product` that reaches the store: the new documents and the next free `_id`. */
  function Step(docs: seq<Document>, next: nat, p: Product): (seq<Document>, nat)
  {
    (Upsert(docs, p, next), if HasName(docs, p.name) then next else next + 1)
  }

  /** The upserts of a task's loop over its scraped records, one after another. */
  function UpsertAll(docs: seq<Document>, next: nat, ps: seq<Product>): (r: (seq<Document>, nat))
    ensures |docs| <= |r.0| <= |docs| + |ps|
    ensures r.1 == next + (|r.0| - |docs|)
    decreases |ps|
  {
    if ps == [] then (docs, next)
    else
      var (docs', next') := Step(docs, next, ps[0]);
      UpsertAll(docs', next', ps[1..])
  }

  /** The last record in `ps` with the given name. */
  function LastNamed(ps: seq<Product>, name: string): Option<Product>
  {
    if ps == [] then None
    else
      var later := LastNamed(ps[1..], name);
      if later.Some? then later
      else if ps[0].name == name then Some(ps[0])
      else None
  }

  lemma {:induction false} LastNamedIsNamed(ps: seq<Product>, name: string)
    ensures LastNamed(ps, name).Some? ==> LastNamed(ps, name).value.name == name
    ensures (exists j | 0 <= j < |ps| :: ps[j].name == name) ==> LastNamed(ps, name).Some?
  {
    if ps != [] {
      LastNamedIsNamed(ps[1..], name);
      if exists j | 0 <= j < |ps| :: ps[j].name == name {
        var j :| 0 <= j < |ps| && ps[j].name == name;
        if j > 0 { assert ps[1..][j - 1].name == name; }
      }
    }
  }

  /** Every document whose name occurs in `ps` takes the last such record. */
  function Overwrite(docs: seq<Document>, ps: seq<Product>): (r: seq<Document>)
    ensures |r| == |docs|
  {
    seq(|docs|, k requires 0 <= k < |docs| =>
      match LastNamed(ps, docs[k].product.name)
      case Some(q) => Document(docs[k].oid, q)
      case None => docs[k])
  }

  /**
   * How a run of upserts reshapes the store: old documents keep their place,
   * `_id` and name and change only when `ps` has a record with their name;
   * new documents carry names from `ps`.
   */
  lemma {:induction false} UpsertAllShape(docs: seq<Document>, next: nat, ps: seq<Product>)
    requires UniqueNames(docs)
    ensures var after := UpsertAll(docs, next, ps).0;
      && UniqueNames(after)
      && |docs| <= |after|
      && (forall k | 0 <= k < |docs| :: after[k].oid == docs[k].oid && after[k].product.name == docs[k].product.name)
      && (forall k | 0 <= k < |docs| && LastNamed(ps, docs[k].product.name).None? :: after[k] == docs[k])
      && (forall k | |docs| <= k < |after| :: LastNamed(ps, after[k].product.name).Some?)
    decreases |ps|
  {
    if ps != [] {
      var p, rest := ps[0], ps[1..];
      var (docs', next') := Step(docs, next, p);
      UpsertStoresRecord(docs, p, next);
      UpsertKeepsOthers(docs, p, next);
      UpsertAllShape(docs', next', rest);
    }
  }

  /**
   * After a run of upserts, every record named in `ps` is stored, and each
   * stored record whose name occurs in `ps` is the last record with that name.
   */
  lemma {:induction false} UpsertAllResult(docs: seq<Document>, next: nat, ps: seq<Product>)
    requires UniqueNames(docs)
    ensures var after := UpsertAll(docs, next, ps).0;
      && UniqueNames(after)
      && (forall j | 0 <= j < |ps| :: HasName(after, ps[j].name))
      && (forall k | 0 <= k < |after| && LastNamed(ps, after[k].product.name).Some? ::
            LastNamed(ps, after[k].product.name) == Some(after[k].product))
    decreases |ps|
  {
    if ps != [] {
      var p, rest := ps[0], ps[1..];
      var (docs', next') := Step(docs, next, p);
      var after := UpsertAll(docs', next', rest).0;
      UpsertStoresRecord(docs, p, next);
      UpsertAllResult(docs', next', rest);
      assert HasName(after, p.name) by {
        UpsertAllShape(docs', next', rest);
        var i := IndexOfName(docs', p.name).value;
        HasNameAt(after, p.name, i);
      }
      forall j | 0 <= j < |ps|
        ensures HasName(after, ps[j].name)
      {
        if j > 0 { assert ps[j] == rest[j - 1]; }
      }
      forall k | 0 <= k < |after| && LastNamed(ps, after[k].product.name).Some?
        ensures LastNamed(ps, after[k].product.name) == Some(after[k].product)
      {
        var name := after[k].product.name;
        if LastNamed(rest, name).None? {
          UpsertAllShape(docs', next', rest);
          assert name == p.name;
          assert k < |docs'|;
          assert after[k] == docs'[k];
        }
      }
    }
  }

  lemma UpsertKeepsName(docs: seq<Document>, p: Product, newOid: nat, name: string)
    requires HasName(docs, name)
    ensures HasName(Upsert(docs, p, newOid), name)
  {
    var k := IndexOfName(docs, name).value;
    UpsertKeepsOthers(docs, p, newOid);
    HasNameAt(Upsert(docs, p, newOid), name, k);
  }

  /** Overwriting with `[p] + rest` is replacing `p`'s record, then overwriting with `rest`. */
  lemma OverwriteCons(docs: seq<Document>, p: Product, rest: seq<Product>, i: nat)
    requires UniqueNames(docs)
    requires i < |docs| && docs[i].product.name == p.name
    ensures Overwrite(docs[i := Document(docs[i].oid, p)], rest) == Overwrite(docs, [p] + rest)
  {
    var ps := [p] + rest;
    assert ps[1..] == rest;
    var docs' := docs[i := Document(docs[i].oid, p)];
    forall k | 0 <= k < |docs|
      ensures Overwrite(docs', rest)[k] == Overwrite(docs, ps)[k]
    {
      assert docs'[k].product.name == docs[k].product.name;
    }
  }

  /**
   * Upserts replayed over a store whose records all already carry their
   * names overwrite in place and allocate no `_id`.
   */
  lemma {:induction false} UpsertAllOverwrites(docs: seq<Document>, next: nat, ps: seq<Product>)
    requires UniqueNames(docs)
    requires forall j | 0 <= j < |ps| :: HasName(docs, ps[j].name)
    ensures UpsertAll(docs, next, ps) == (Overwrite(docs, ps), next)
    decreases |ps|
  {
    if ps != [] {
      var p, rest := ps[0], ps[1..];
      assert HasName(docs, p.name) by { assert ps[0] == p; }
      var i := IndexOfName(docs, p.name).value;
      var docs' := docs[i := Document(docs[i].oid, p)];
      assert Step(docs, next, p) == (docs', next);
      UpsertStoresRecord(docs, p, next);
      forall j | 0 <= j < |rest|
        ensures HasName(docs', rest[j].name)
      {
        assert rest[j] == ps[j + 1];
        UpsertKeepsName(docs, p, next, rest[j].name);
      }
      UpsertAllOverwrites(docs', next, rest);
      assert UpsertAll(docs, next, ps) == UpsertAll(docs', next, rest);
      assert ps == [p] + rest;
      OverwriteCons(docs, p, rest, i);
    } else {
      assert Overwrite(docs, ps) == docs;
    }
  }

  /**
   * Retrying a task replays its whole sequence of upserts; the replay leaves
   * the store exactly as the first run left it.
   */
  lemma UpsertAllReplay(docs: seq<Document>, next: nat, ps: seq<Product>)
    requires UniqueNames(docs)
    ensures UpsertAll(UpsertAll(docs, next, ps).0, UpsertAll(docs, next, ps).1, ps) == UpsertAll(docs, next, ps)
  {
    var (after, next') := UpsertAll(docs, next, ps);
    UpsertAllResult(docs, next, ps);
    UpsertAllOverwrites(after, next', ps);
    assert Overwrite(after, ps) == after;
  }

  /** Upserting `ps` and then `qs` is upserting `ps + qs`. */
  lemma {:induction false} UpsertAllConcat(docs: seq<Document>, next: nat, ps: seq<Product>, qs: seq<Product>)
    ensures UpsertAll(docs, next, ps + qs) == UpsertAll(UpsertAll(docs, next, ps).0, UpsertAll(docs, next, ps).1, qs)
    decreases |ps|
  {
    if ps == [] {
      assert ps + qs == qs;
    } else {
      var (docs', next') := Step(docs, next, ps[0]);
      assert (ps + qs)[0] == ps[0] && (ps + qs)[1..] == ps[1..] + qs;
      UpsertAllConcat(docs', next', ps[1..], qs);
    }
  }

  /**
   * A task that failed after its first `k` upserts and is retried from the
   * start leaves the store exactly as one uninterrupted run would.
   */
  lemma RetryAfterPartialRun(docs: seq<Document>, next: nat, ps: seq<Product>, k: nat)
    requires UniqueNames(docs) && k <= |ps|
    ensures var first := UpsertAll(docs, next, ps[..k]); UpsertAll(first.0, first.1, ps) == UpsertAll(docs, next, ps)
  {
    var first := UpsertAll(docs, next, ps[..k]);
    assert ps == ps[..k] + ps[k..];
    UpsertAllConcat(first.0, first.1, ps[..k], ps[k..]);
    UpsertAllReplay(docs, next, ps[..k]);
    UpsertAllConcat(docs, next, ps[..k], ps[k..]);
  }

  // ---------------------------------------------------------------------------
  // The collection

  /** The records without the store's `_id`, in store order. */
  function ProductsOf(docs: seq<Document>): (ps: seq<Product>)
    ensures |ps| == |docs|
    ensures forall k | 0 <= k < |docs| :: ps[k] == docs[k].product
  {
    seq(|docs|, k requires 0 <= k < |docs| => docs[k].product)
  }

  /** The `products` collection. */
  class ProductStore {
    var docs: seq<Document>
    var nextOid: nat

    ghost predicate Valid()
      reads this
    {
      && UniqueNames(docs)
      && UniqueOids(docs)
      && forall k | 0 <= k < |docs| :: docs[k].oid < nextOid
    }

    constructor ()
      ensures Valid() && docs == []
    {
      docs := [];
      nextOid := 0;
    }

    /**
     * `insert_product`: upserts `p` by name. When the store fails
     * (`storeFails`), nothing changes and the failure is swallowed. Returns
     * the new document's `_id` when one was inserted, and nothing when a
     * record was replaced or the store failed.
     */
    method InsertProduct(p: Product, storeFails: bool) returns (upsertedId: Option<nat>)
      requires Valid()
      modifies this
      ensures Valid()
      ensures storeFails ==> docs == old(docs) && nextOid == old(nextOid) && upsertedId == None
      ensures !storeFails ==> (docs, nextOid) == Step(old(docs), old(nextOid), p)
      ensures !storeFails ==> upsertedId == if HasName(old(docs), p.name) then None else Some(old(nextOid))
    {
      if storeFails {
        return None;
      }
      var existed := HasName(docs, p.name);
      UpsertStoresRecord(docs, p, nextOid);
      UpsertKeepsOthers(docs, p, nextOid);
      docs := Upsert(docs, p, nextOid);
      if existed {
        upsertedId := None;
      } else {
        upsertedId := Some(nextOid);
        nextOid := nextOid + 1;
      }
    }

    /**
     * `get_products`: every stored record, with its `_id` removed, in store
     * order; nothing when the store fails.
     */
    method GetProducts(storeFails: bool) returns (r: Option<seq<Product>>)
      ensures storeFails ==> r == None
      ensures !storeFails ==> r == Some(ProductsOf(docs))
    {
      if storeFails {
        return None;
      }
      var products: seq<Product> := [];
      for i := 0 to |docs|
        invariant products == ProductsOf(docs[..i])
      {
        var doc := docs[i];
        products := products + [doc.product];
      }
      assert docs[..|docs|] == docs;
      r := Some(products);
    }
  }
}
