/** The repository's product reconciliation (`_product_key`,
    `_upsert_products`): each incoming product is looked up by its handle, or
    by its title when it has no handle, in dictionaries built from the rows
    that existed before the call; a matched row is overwritten in place, an
    unmatched product becomes a new row, and every step is flushed, so the
    `(brand_id, handle)` constraint is checked after each product. */
module ProductUpsert {
  import opened Wrappers
  import opened Text
  import opened DbModels
  import opened Schemas

  /** `("handle", h)` or `("title", t)`. */
  datatype ProductKey = ByHandle(handle: string) | ByTitle(title: string)

  /** `_product_key`: the trimmed, lower-cased handle when that is not
      empty, else the trimmed, lower-cased title. */
  function ProductKeyOf(p: Product): ProductKey {
    var handle := Lower(Strip(TextOf(p.handle)));
    if handle != "" then ByHandle(handle) else ByTitle(Lower(Strip(p.title)))
  }

  /** A product is keyed by handle exactly when its handle holds something
      other than whitespace; the key is already normalised, so writing it
      back as the handle or title gives the same key. */
  lemma {:induction false} ProductKeyOfSpec(p: Product)
    ensures ProductKeyOf(p).ByHandle? <==> !AllSpace(TextOf(p.handle))
    ensures ProductKeyOf(p).ByHandle? ==> ProductKeyOf(p).handle == Lower(Strip(p.handle.value))
    ensures ProductKeyOf(p).ByTitle? ==> ProductKeyOf(p).title == Lower(Strip(p.title))
    ensures match ProductKeyOf(p)
      case ByHandle(h) => ProductKeyOf(p.(handle := Some(h))) == ProductKeyOf(p)
      case ByTitle(t) => ProductKeyOf(p.(title := t)) == ProductKeyOf(p)
  {
    match ProductKeyOf(p)
    case ByHandle(h) =>
      NormalisedKey(p.handle.value);
    case ByTitle(t) =>
      NormalisedKey(p.title);
  }

  /** Trimming and lower-casing a normalised text changes nothing. */
  lemma NormalisedKey(s: string)
    ensures Lower(Strip(Lower(Strip(s)))) == Lower(Strip(s))
  {
    StripLower(Strip(s));
    StripIdempotent(s);
    LowerIdempotent(Strip(s));
  }

  /** Which pre-existing rows the title dictionary holds. The code indexes
      every row with a title (`AllTitledRows`); `HandlelessRows` indexes only
      rows without a usable handle, the variant under which a second run of
      the same catalog is stable. */
  datatype TitleIndex = AllTitledRows | HandlelessRows

  function HandleKey(r: ProductRow): string {
    Lower(Strip(TextOf(r.handle)))
  }

  function TitleKey(r: ProductRow): string {
    Lower(Strip(r.title))
  }

  /** Row `r` is entered in the lookup dictionaries under key `k`. */
  predicate Indexed(ix: TitleIndex, r: ProductRow, k: ProductKey) {
    match k
    case ByHandle(h) => Truthy(r.handle) && HandleKey(r) == h
    case ByTitle(t) => r.title != "" && TitleKey(r) == t && (ix == HandlelessRows ==> HandleKey(r) == "")
  }

  /** The keys row `r` is entered under in `by_handle` and `by_title`. */
  function RowKeys(ix: TitleIndex, r: ProductRow): (ks: set<ProductKey>)
    ensures forall k :: k in ks <==> Indexed(ix, r, k)
  {
    (if Truthy(r.handle) then {ByHandle(HandleKey(r))} else {})
    + (if r.title != "" && (ix == AllTitledRows || HandleKey(r) == "") then {ByTitle(TitleKey(r))} else {})
  }

  /** Every position the dictionary holds is below `n`. */
  predicate Bounded(idx: map<ProductKey, nat>, n: nat) {
    forall k :: k in idx ==> idx[k] < n
  }

  /** `by_handle` and `by_title` as one dictionary over tagged keys, built
      once from the pre-existing rows: each key leads to the position of the
      last row entered under it, since a later row overwrites an earlier
      one. */
  function Index(ix: TitleIndex, pre: seq<ProductRow>): (m: map<ProductKey, nat>)
    ensures Bounded(m, |pre|)
    decreases |pre|
  {
    if pre == [] then map[]
    else
      var m := Index(ix, pre[..|pre| - 1]);
      var ks := RowKeys(ix, pre[|pre| - 1]);
      map k | k in m.Keys + ks :: if k in ks then |pre| - 1 else m[k]
  }

  /** Row `i` is the last one entered under key `k`. */
  predicate LastIndexed(ix: TitleIndex, pre: seq<ProductRow>, k: ProductKey, i: nat) {
    i < |pre| && Indexed(ix, pre[i], k) && forall j :: i < j < |pre| ==> !Indexed(ix, pre[j], k)
  }

  /** Adding one row to the dictionary: its keys now lead to it, the other
      keys are as before. */
  lemma IndexSnoc(ix: TitleIndex, pre: seq<ProductRow>, k: ProductKey)
    requires pre != []
    ensures var m := Index(ix, pre[..|pre| - 1]);
      if Indexed(ix, pre[|pre| - 1], k) then k in Index(ix, pre) && Index(ix, pre)[k] == |pre| - 1
      else (k in Index(ix, pre) <==> k in m) && (k in m ==> Index(ix, pre)[k] == m[k])
  {
  }

  /** No row is entered under key `k`. */
  predicate Unindexed(ix: TitleIndex, pre: seq<ProductRow>, k: ProductKey) {
    forall j :: 0 <= j < |pre| ==> !Indexed(ix, pre[j], k)
  }

  lemma UnindexedSnoc(ix: TitleIndex, pre: seq<ProductRow>, k: ProductKey)
    requires pre != []
    ensures Unindexed(ix, pre, k) <==> Unindexed(ix, pre[..|pre| - 1], k) && !Indexed(ix, pre[|pre| - 1], k)
  {
    assert forall j :: 0 <= j < |pre| - 1 ==> pre[..|pre| - 1][j] == pre[j];
  }

  lemma LastIndexedSnoc(ix: TitleIndex, pre: seq<ProductRow>, k: ProductKey, i: nat)
    requires pre != [] && LastIndexed(ix, pre[..|pre| - 1], k, i) && !Indexed(ix, pre[|pre| - 1], k)
    ensures LastIndexed(ix, pre, k, i)
  {
    assert forall j :: 0 <= j < |pre| - 1 ==> pre[..|pre| - 1][j] == pre[j];
  }

  /** The dictionary leads each key to the last row entered under it, and
      holds exactly the keys some row is entered under. */
  lemma {:induction false} IndexSpec(ix: TitleIndex, pre: seq<ProductRow>, k: ProductKey)
    ensures k in Index(ix, pre) ==> LastIndexed(ix, pre, k, Index(ix, pre)[k])
    ensures k !in Index(ix, pre) <==> Unindexed(ix, pre, k)
    decreases |pre|
  {
    if pre != [] {
      var n := |pre| - 1;
      var init := pre[..n];
      IndexSpec(ix, init, k);
      IndexSnoc(ix, pre, k);
      UnindexedSnoc(ix, pre, k);
      if !Indexed(ix, pre[n], k) && k in Index(ix, init) {
        LastIndexedSnoc(ix, pre, k, Index(ix, init)[k]);
      }
    }
  }

  /** The field updates of `_upsert_products`: the shopify id is replaced
      only by a non-zero id, every other column is overwritten. */
  function Apply(row: ProductRow, p: Product): (r: ProductRow)
    ensures r.shopifyId == (if p.id.Some? && p.id.value != 0 then p.id else row.shopifyId)
    ensures r.title == p.title && r.handle == p.handle && r.url == p.url && r.isHero == p.isHero
    ensures r.price == p.price && r.currency == p.currency && r.imageUrl == p.imageUrl
    ensures r.vendor == p.vendor && r.productType == p.productType && r.description == p.description
  {
    ProductRow(
      shopifyId := if p.id.Some? && p.id.value != 0 then p.id else row.shopifyId,
      title := p.title,
      handle := p.handle,
      url := p.url,
      price := p.price,
      currency := p.currency,
      isHero := p.isHero,
      imageUrl := p.imageUrl,
      vendor := p.vendor,
      productType := p.productType,
      description := p.description)
  }

  /** `m.Product(brand_id=...)` with the product's fields applied. */
  function NewRow(p: Product): ProductRow {
    Apply(ProductRow(None, "", None, None, None, None, false, None, None, None, None), p)
  }

  /** Apart from the shopify id, what a row held before does not show
      through: two rows updated with the same product agree on every other
      column. */
  lemma ApplyOverwrites(row: ProductRow, other: ProductRow, p: Product)
    ensures Apply(row, p).(shopifyId := None) == Apply(other, p).(shopifyId := None)
    ensures p.id.Some? && p.id.value != 0 ==> Apply(row, p) == Apply(other, p)
  {
  }

  /** Applying a product twice is applying it once. */
  lemma ApplyIdempotent(row: ProductRow, p: Product)
    ensures Apply(Apply(row, p), p) == Apply(row, p)
  {
  }

  /** The row a product is written to now carries exactly that product's
      key, provided a title-keyed product has a title. */
  lemma ApplyIndexed(ix: TitleIndex, row: ProductRow, p: Product)
    requires ProductKeyOf(p).ByTitle? ==> p.title != ""
    ensures Indexed(ix, Apply(row, p), ProductKeyOf(p))
  {
  }

  /** Where product `p` goes: the row the dictionary leads its key to, or
      none. */
  function Target(idx: map<ProductKey, nat>, p: Product): Option<nat> {
    var k := ProductKeyOf(p);
    if k in idx then Some(idx[k]) else None
  }

  /** The table after one product, before the flush. */
  function Place(idx: map<ProductKey, nat>, rows: seq<ProductRow>, p: Product): (r: seq<ProductRow>)
    requires Bounded(idx, |rows|)
    ensures Target(idx, p).Some? ==>
      var i := Target(idx, p).value;
      |r| == |rows| && r[i] == Apply(rows[i], p) && forall j :: 0 <= j < |r| && j != i ==> r[j] == rows[j]
    ensures Target(idx, p).None? ==> r == rows + [NewRow(p)]
  {
    match Target(idx, p)
    case Some(i) => rows[i := Apply(rows[i], p)]
    case None => rows + [NewRow(p)]
  }

  /** The loop of `_upsert_products` over a fixed dictionary: every product
      placed in order, each step flushed; the first step that leaves two
      rows with one handle aborts. */
  function Run(idx: map<ProductKey, nat>, pre: seq<ProductRow>, ps: seq<Product>)
    : (r: Result<seq<ProductRow>, IntegrityError>)
    requires Bounded(idx, |pre|)
    ensures r.Success? ==> |pre| <= |r.value|
    ensures r.Failure? ==> r.error == DuplicateProductHandle
    decreases |ps|
  {
    if ps == [] then Success(pre)
    else
      match Run(idx, pre, ps[..|ps| - 1])
      case Failure(e) => Failure(e)
      case Success(rows) =>
        var r := Place(idx, rows, ps[|ps| - 1]);
        if UniqueHandles(r) then Success(r) else Failure(DuplicateProductHandle)
  }

  /** `_upsert_products`: the dictionaries come from the rows that existed
      before the call. */
  function UpsertProducts(ix: TitleIndex, pre: seq<ProductRow>, ps: seq<Product>)
    : (r: Result<seq<ProductRow>, IntegrityError>)
    ensures r.Success? ==> |pre| <= |r.value|
  {
    Run(Index(ix, pre), pre, ps)
  }

  /** One step of the loop, unfolded. */
  lemma RunStep(idx: map<ProductKey, nat>, pre: seq<ProductRow>, ps: seq<Product>)
    requires Bounded(idx, |pre|) && ps != []
    ensures var prev := Run(idx, pre, ps[..|ps| - 1]);
      var r := Run(idx, pre, ps);
      (prev.Failure? ==> r.Failure?) &&
      (prev.Success? ==>
        var placed := Place(idx, prev.value, ps[|ps| - 1]);
        r == if UniqueHandles(placed) then Success(placed) else Failure(DuplicateProductHandle))
  {
  }

  // ---------- reference definitions ----------

  /** The incoming products no pre-existing row matches, in order. */
  function Unmatched(idx: map<ProductKey, nat>, ps: seq<Product>): (u: seq<Product>)
    ensures |u| <= |ps|
    decreases |ps|
  {
    if ps == [] then []
    else
      var last := ps[|ps| - 1];
      Unmatched(idx, ps[..|ps| - 1]) + (if Target(idx, last).None? then [last] else [])
  }

  function NewRows(ps: seq<Product>): (r: seq<ProductRow>)
    ensures |r| == |ps|
    ensures forall i :: 0 <= i < |ps| ==> r[i] == NewRow(ps[i])
  {
    seq(|ps|, i requires 0 <= i < |ps| => NewRow(ps[i]))
  }

  /** The last incoming product that matches pre-existing row `i`. */
  function LastMatching(idx: map<ProductKey, nat>, ps: seq<Product>, i: nat): (r: Option<Product>)
    ensures r.Some? ==> Target(idx, r.value) == Some(i)
    decreases |ps|
  {
    if ps == [] then None
    else if Target(idx, ps[|ps| - 1]) == Some(i) then Some(ps[|ps| - 1])
    else LastMatching(idx, ps[..|ps| - 1], i)
  }

  /** The row holds every column the product writes. */
  predicate Carries(row: ProductRow, p: Product) {
    Apply(row, p) == row
  }

  /** Placing one product leaves the rows after the pre-existing ones alone,
      or appends the product's new row to them. */
  lemma PlaceTail(idx: map<ProductKey, nat>, pre: seq<ProductRow>, rows: seq<ProductRow>, p: Product)
    requires Bounded(idx, |pre|) && |pre| <= |rows|
    ensures Bounded(idx, |rows|)
    ensures Target(idx, p).Some? ==>
      |Place(idx, rows, p)| == |rows| && Place(idx, rows, p)[|pre|..] == rows[|pre|..]
    ensures Target(idx, p).None? ==> Place(idx, rows, p)[|pre|..] == rows[|pre|..] + [NewRow(p)]
  {
    var r := Place(idx, rows, p);
    if Target(idx, p).Some? {
      assert forall j :: |pre| <= j < |r| ==> r[j] == rows[j];
    }
  }

  lemma NewRowsSnoc(u: seq<Product>, p: Product)
    ensures NewRows(u + [p]) == NewRows(u) + [NewRow(p)]
  {
  }

  /** A successful run keeps every pre-existing row and appends one new row
      per unmatched product, in order. */
  lemma {:induction false} RunShape(idx: map<ProductKey, nat>, pre: seq<ProductRow>, ps: seq<Product>)
    requires Bounded(idx, |pre|)
    ensures Run(idx, pre, ps).Success? ==>
      var r := Run(idx, pre, ps).value;
      |r| == |pre| + |Unmatched(idx, ps)| && r[|pre|..] == NewRows(Unmatched(idx, ps))
    decreases |ps|
  {
    if ps != [] && Run(idx, pre, ps).Success? {
      var init := ps[..|ps| - 1];
      var last := ps[|ps| - 1];
      RunStep(idx, pre, ps);
      RunShape(idx, pre, init);
      var rows := Run(idx, pre, init).value;
      var r := Run(idx, pre, ps).value;
      PlaceTail(idx, pre, rows, last);
      assert r == Place(idx, rows, last);
      var u := Unmatched(idx, init);
      assert Unmatched(idx, ps) == u + (if Target(idx, last).None? then [last] else []);
      if Target(idx, last).None? {
        NewRowsSnoc(u, last);
      } else {
        assert u + [] == u;
      }
    }
  }

  /** A pre-existing row no product matches is unchanged; one that some
      product matches carries the last such product. */
  lemma {:induction false} RunKeeps(idx: map<ProductKey, nat>, pre: seq<ProductRow>, ps: seq<Product>, i: nat)
    requires Bounded(idx, |pre|) && i < |pre|
    ensures Run(idx, pre, ps).Success? ==>
      var r := Run(idx, pre, ps).value;
      (LastMatching(idx, ps, i).None? ==> r[i] == pre[i]) &&
      (LastMatching(idx, ps, i).Some? ==> Carries(r[i], LastMatching(idx, ps, i).value))
    decreases |ps|
  {
    if ps != [] && Run(idx, pre, ps).Success? {
      var init := ps[..|ps| - 1];
      var last := ps[|ps| - 1];
      RunStep(idx, pre, ps);
      RunKeeps(idx, pre, init, i);
      var rows := Run(idx, pre, init).value;
      var r := Run(idx, pre, ps).value;
      assert r == Place(idx, rows, last);
      if Target(idx, last) == Some(i) {
        ApplyIdempotent(rows[i], last);
      }
    }
  }

  /** What a successful reconciliation leaves: each pre-existing row in its
      place, untouched or carrying the last product that matched it, then
      one new row per unmatched product, in order. */
  lemma UpsertProductsReconciled(ix: TitleIndex, pre: seq<ProductRow>, ps: seq<Product>)
    ensures var idx := Index(ix, pre);
      UpsertProducts(ix, pre, ps).Success? ==>
      var r := UpsertProducts(ix, pre, ps).value;
      && |r| == |pre| + |Unmatched(idx, ps)|
      && r[|pre|..] == NewRows(Unmatched(idx, ps))
      && (forall i :: 0 <= i < |pre| && LastMatching(idx, ps, i).None? ==> r[i] == pre[i])
      && (forall i :: 0 <= i < |pre| && LastMatching(idx, ps, i).Some? ==>
            Carries(r[i], LastMatching(idx, ps, i).value))
  {
    var idx := Index(ix, pre);
    RunShape(idx, pre, ps);
    forall i | 0 <= i < |pre|
      ensures Run(idx, pre, ps).Success? ==>
        var r := Run(idx, pre, ps).value;
        (LastMatching(idx, ps, i).None? ==> r[i] == pre[i]) &&
        (LastMatching(idx, ps, i).Some? ==> Carries(r[i], LastMatching(idx, ps, i).value))
    {
      RunKeeps(idx, pre, ps, i);
    }
  }

  /** A successful reconciliation of a non-empty catalog leaves the handles
      unique: the flush after the last product checked them. */
  lemma UpsertUnique(ix: TitleIndex, pre: seq<ProductRow>, ps: seq<Product>)
    requires ps != []
    ensures UpsertProducts(ix, pre, ps).Success? ==> UniqueHandles(UpsertProducts(ix, pre, ps).value)
  {
    RunStep(Index(ix, pre), pre, ps);
  }

  /** Once a step aborts, the whole run aborts. */
  lemma {:induction false} FailureSticks(idx: map<ProductKey, nat>, pre: seq<ProductRow>, ps: seq<Product>, n: nat)
    requires Bounded(idx, |pre|) && n <= |ps| && Run(idx, pre, ps[..n]).Failure?
    ensures Run(idx, pre, ps).Failure?
    decreases |ps| - n
  {
    if n < |ps| {
      assert ps[..n + 1][..n] == ps[..n];
      RunStep(idx, pre, ps[..n + 1]);
      FailureSticks(idx, pre, ps, n + 1);
    } else {
      assert ps[..n] == ps;
    }
  }

  /** An unmatched product has a place among the unmatched ones. */
  lemma {:induction false} UnmatchedIndex(idx: map<ProductKey, nat>, ps: seq<Product>, i: nat) returns (k: nat)
    requires i < |ps| && Target(idx, ps[i]).None?
    ensures k < |Unmatched(idx, ps)| && Unmatched(idx, ps)[k] == ps[i]
    decreases |ps|
  {
    var init := ps[..|ps| - 1];
    if i == |ps| - 1 {
      k := |Unmatched(idx, init)|;
    } else {
      assert init[i] == ps[i];
      k := UnmatchedIndex(idx, init, i);
    }
  }

  /** Two products with the same handle that match no row of the
      dictionary are both inserted: the flush after the second violates the
      handle constraint and the run aborts. */
  lemma NewHandleTwiceAborts(idx: map<ProductKey, nat>, pre: seq<ProductRow>, ps: seq<Product>, i: nat, j: nat)
    requires Bounded(idx, |pre|)
    requires i < j < |ps| && ps[i].handle.Some? && ps[i].handle == ps[j].handle
    requires Target(idx, ps[i]).None? && Target(idx, ps[j]).None?
    ensures Run(idx, pre, ps).Failure?
  {
    var a := ps[..j];
    assert a[i] == ps[i];
    NewHandleStep(idx, pre, a, i, ps[j]);
    assert ps[..j + 1] == a + [ps[j]];
    FailureSticks(idx, pre, ps, j + 1);
  }

  /** The step that inserts the second product with an already inserted
      handle aborts. */
  lemma NewHandleStep(idx: map<ProductKey, nat>, pre: seq<ProductRow>, a: seq<Product>, i: nat, q: Product)
    requires Bounded(idx, |pre|)
    requires i < |a| && a[i].handle.Some? && a[i].handle == q.handle
    requires Target(idx, a[i]).None? && Target(idx, q).None?
    ensures Run(idx, pre, a + [q]).Failure?
  {
    var b := a + [q];
    assert b[|b| - 1] == q && b[..|b| - 1] == a;
    RunStep(idx, pre, b);
    if Run(idx, pre, a).Success? {
      RunShape(idx, pre, a);
      NewHandleClash(idx, pre, a, Run(idx, pre, a).value, i, q);
    }
  }

  /** After a run that inserted `a[i]`, inserting a product with the same
      handle breaks the handle constraint. */
  lemma NewHandleClash(idx: map<ProductKey, nat>, pre: seq<ProductRow>, a: seq<Product>, rows: seq<ProductRow>,
                       i: nat, q: Product)
    requires Bounded(idx, |pre|)
    requires i < |a| && a[i].handle.Some? && a[i].handle == q.handle
    requires Target(idx, a[i]).None? && Target(idx, q).None?
    requires |rows| == |pre| + |Unmatched(idx, a)| && rows[|pre|..] == NewRows(Unmatched(idx, a))
    ensures Bounded(idx, |rows|) && !UniqueHandles(Place(idx, rows, q))
  {
    var k := UnmatchedIndex(idx, a, i);
    assert rows[|pre|..][k] == NewRow(a[i]);
    SecondNewRowClashes(idx, rows, |pre| + k, q);
  }

  /** Inserting a product whose handle an existing row already has breaks
      the handle constraint. */
  lemma SecondNewRowClashes(idx: map<ProductKey, nat>, rows: seq<ProductRow>, m: nat, q: Product)
    requires Bounded(idx, |rows|) && m < |rows| && Target(idx, q).None?
    requires q.handle.Some? && rows[m].handle == q.handle
    ensures !UniqueHandles(Place(idx, rows, q))
  {
    var r := Place(idx, rows, q);
    assert r[m] == rows[m] && r[|rows|] == NewRow(q);
  }

  /** Two products with the same handle that match no pre-existing row are
      both inserted, since the dictionaries only know the rows that existed
      before: the reconciliation aborts. */
  lemma NewHandleTwiceFails(ix: TitleIndex, pre: seq<ProductRow>, ps: seq<Product>, i: nat, j: nat)
    requires i < j < |ps| && ps[i].handle.Some? && ps[i].handle == ps[j].handle
    requires forall r :: 0 <= r < |pre| ==> !Indexed(ix, pre[r], ProductKeyOf(ps[i])) && !Indexed(ix, pre[r], ProductKeyOf(ps[j]))
    ensures UpsertProducts(ix, pre, ps).Failure?
  {
    IndexSpec(ix, pre, ProductKeyOf(ps[i]));
    IndexSpec(ix, pre, ProductKeyOf(ps[j]));
    NewHandleTwiceAborts(Index(ix, pre), pre, ps, i, j);
  }

  // ---------- a second run of the same catalog ----------

  /** Some row is entered under key `k`. */
  predicate Matched(ix: TitleIndex, rows: seq<ProductRow>, k: ProductKey) {
    exists i :: 0 <= i < |rows| && Indexed(ix, rows[i], k)
  }

  /** Every product of the catalog is matched by some row. */
  predicate Covers(ix: TitleIndex, rows: seq<ProductRow>, ps: seq<Product>) {
    forall j :: 0 <= j < |ps| ==> Matched(ix, rows, ProductKeyOf(ps[j]))
  }

  /** The rows keep every catalog key their pre-existing versions had. */
  predicate Agrees(ix: TitleIndex, pre: seq<ProductRow>, rows: seq<ProductRow>, ps: seq<Product>) {
    |pre| <= |rows| &&
    forall i, j :: 0 <= i < |pre| && 0 <= j < |ps| && Indexed(ix, pre[i], ProductKeyOf(ps[j])) ==>
      Indexed(ix, rows[i], ProductKeyOf(ps[j]))
  }

  /** No row is indexed under two different keys of the catalog: always so
      when only handle-less rows are title-indexed, and so for the code's
      indexing when every product of the catalog has a handle. */
  predicate KeysSeparate(ix: TitleIndex, ps: seq<Product>) {
    ix == HandlelessRows || forall j :: 0 <= j < |ps| ==> ProductKeyOf(ps[j]).ByHandle?
  }

  predicate Titled(ps: seq<Product>) {
    forall j :: 0 <= j < |ps| ==> ps[j].title != ""
  }

  lemma KeySeparation(ix: TitleIndex, row: ProductRow, p: Product, q: Product)
    requires ix == HandlelessRows || (ProductKeyOf(p).ByHandle? && ProductKeyOf(q).ByHandle?)
    requires Indexed(ix, row, ProductKeyOf(p)) && Indexed(ix, row, ProductKeyOf(q))
    ensures ProductKeyOf(p) == ProductKeyOf(q)
  {
  }

  /** The step of the invariant when the product matched pre-existing row
      `i`. */
  lemma RerunMatched(ix: TitleIndex, pre: seq<ProductRow>, rows: seq<ProductRow>, ps: seq<Product>, n: nat, i: nat)
    requires 0 < n <= |ps| && KeysSeparate(ix, ps) && Titled(ps)
    requires Agrees(ix, pre, rows, ps) && Covers(ix, rows, ps[..n - 1])
    requires Target(Index(ix, pre), ps[n - 1]) == Some(i)
    ensures Bounded(Index(ix, pre), |rows|)
    ensures var r := Place(Index(ix, pre), rows, ps[n - 1]);
      Agrees(ix, pre, r, ps) && Covers(ix, r, ps[..n])
  {
    var p := ps[n - 1];
    IndexSpec(ix, pre, ProductKeyOf(p));
    assert Indexed(ix, pre[i], ProductKeyOf(p));
    var r := Place(Index(ix, pre), rows, p);
    ApplyIndexed(ix, rows[i], p);
    MatchedAgrees(ix, pre, rows, r, ps, n, i);
    MatchedCovers(ix, rows, r, ps, n, i);
  }

  /** Overwriting row `i`, which carries the product's key, keeps every
      pre-existing row's catalog keys. */
  lemma MatchedAgrees(ix: TitleIndex, pre: seq<ProductRow>, rows: seq<ProductRow>, r: seq<ProductRow>,
                      ps: seq<Product>, n: nat, i: nat)
    requires 0 < n <= |ps| && KeysSeparate(ix, ps) && Agrees(ix, pre, rows, ps)
    requires i < |pre| && Indexed(ix, pre[i], ProductKeyOf(ps[n - 1]))
    requires |r| == |rows| && Indexed(ix, r[i], ProductKeyOf(ps[n - 1]))
    requires forall j :: 0 <= j < |r| && j != i ==> r[j] == rows[j]
    ensures Agrees(ix, pre, r, ps)
  {
    forall i2, j | 0 <= i2 < |pre| && 0 <= j < |ps| && Indexed(ix, pre[i2], ProductKeyOf(ps[j]))
      ensures Indexed(ix, r[i2], ProductKeyOf(ps[j]))
    {
      if i2 == i {
        KeySeparation(ix, pre[i], ps[j], ps[n - 1]);
      } else {
        assert r[i2] == rows[i2];
      }
    }
  }

  /** Overwriting row `i`, which carried and carries the product's key,
      keeps every earlier product matched and matches the product. */
  lemma MatchedCovers(ix: TitleIndex, rows: seq<ProductRow>, r: seq<ProductRow>, ps: seq<Product>, n: nat, i: nat)
    requires 0 < n <= |ps| && KeysSeparate(ix, ps) && Covers(ix, rows, ps[..n - 1])
    requires i < |rows| && Indexed(ix, rows[i], ProductKeyOf(ps[n - 1]))
    requires |r| == |rows| && Indexed(ix, r[i], ProductKeyOf(ps[n - 1]))
    requires forall j :: 0 <= j < |r| && j != i ==> r[j] == rows[j]
    ensures Covers(ix, r, ps[..n])
  {
    var p := ps[n - 1];
    forall j | 0 <= j < n
      ensures Matched(ix, r, ProductKeyOf(ps[..n][j]))
    {
      if j < n - 1 {
        assert ps[..n - 1][j] == ps[j] == ps[..n][j];
        var i2 :| 0 <= i2 < |rows| && Indexed(ix, rows[i2], ProductKeyOf(ps[j]));
        if i2 == i {
          KeySeparation(ix, rows[i], ps[j], p);
        } else {
          assert r[i2] == rows[i2];
        }
      } else {
        assert ps[..n][j] == p;
      }
    }
  }

  /** The step of the invariant when the product was inserted. */
  lemma RerunInserted(ix: TitleIndex, pre: seq<ProductRow>, rows: seq<ProductRow>, ps: seq<Product>, n: nat)
    requires 0 < n <= |ps| && Titled(ps)
    requires Agrees(ix, pre, rows, ps) && Covers(ix, rows, ps[..n - 1])
    requires Target(Index(ix, pre), ps[n - 1]).None?
    ensures Bounded(Index(ix, pre), |rows|)
    ensures var r := Place(Index(ix, pre), rows, ps[n - 1]);
      Agrees(ix, pre, r, ps) && Covers(ix, r, ps[..n])
  {
    var p := ps[n - 1];
    var r := Place(Index(ix, pre), rows, p);
    assert forall i2 :: 0 <= i2 < |rows| ==> r[i2] == rows[i2];
    ApplyIndexed(ix, ProductRow(None, "", None, None, None, None, false, None, None, None, None), p);
    assert Indexed(ix, r[|rows|], ProductKeyOf(p));
    forall j | 0 <= j < n
      ensures Matched(ix, r, ProductKeyOf(ps[..n][j]))
    {
      if j < n - 1 {
        assert ps[..n - 1][j] == ps[j] == ps[..n][j];
        var i2 :| 0 <= i2 < |rows| && Indexed(ix, rows[i2], ProductKeyOf(ps[j]));
        assert r[i2] == rows[i2];
      } else {
        assert ps[..n][j] == p;
      }
    }
  }

  /** The invariant before the first product. */
  lemma RerunBase(ix: TitleIndex, pre: seq<ProductRow>, ps: seq<Product>)
    ensures Agrees(ix, pre, pre, ps) && Covers(ix, pre, ps[..0])
  {
  }

  /** One step of the invariant. */
  lemma RerunStep(ix: TitleIndex, pre: seq<ProductRow>, rows: seq<ProductRow>, ps: seq<Product>, n: nat)
    requires 0 < n <= |ps| && KeysSeparate(ix, ps) && Titled(ps)
    requires Agrees(ix, pre, rows, ps) && Covers(ix, rows, ps[..n - 1])
    ensures Bounded(Index(ix, pre), |rows|)
    ensures var r := Place(Index(ix, pre), rows, ps[n - 1]);
      Agrees(ix, pre, r, ps) && Covers(ix, r, ps[..n])
  {
    match Target(Index(ix, pre), ps[n - 1])
    case Some(i) => RerunMatched(ix, pre, rows, ps, n, i);
    case None => RerunInserted(ix, pre, rows, ps, n);
  }

  /** One step of the invariant, stated on the runs themselves. */
  lemma RerunRunStep(ix: TitleIndex, pre: seq<ProductRow>, ps: seq<Product>, n: nat)
    requires 0 < n <= |ps| && KeysSeparate(ix, ps) && Titled(ps)
    requires var prev := Run(Index(ix, pre), pre, ps[..n - 1]);
      prev.Success? && Agrees(ix, pre, prev.value, ps) && Covers(ix, prev.value, ps[..n - 1])
    ensures var r := Run(Index(ix, pre), pre, ps[..n]);
      r.Success? ==> Agrees(ix, pre, r.value, ps) && Covers(ix, r.value, ps[..n])
  {
    var idx := Index(ix, pre);
    var a := ps[..n];
    assert a[..n - 1] == ps[..n - 1] && a[n - 1] == ps[n - 1];
    RunStep(idx, pre, a);
    RerunStep(ix, pre, Run(idx, pre, ps[..n - 1]).value, ps, n);
  }

  /** The invariant below after the first `n` products. */
  predicate RerunHolds(ix: TitleIndex, pre: seq<ProductRow>, ps: seq<Product>, n: nat)
    requires n <= |ps|
  {
    RerunAfter(ix, pre, ps, ps[..n], UpsertProducts(ix, pre, ps[..n]))
  }

  predicate RerunAfter(ix: TitleIndex, pre: seq<ProductRow>, ps: seq<Product>, a: seq<Product>,
                       r: Result<seq<ProductRow>, IntegrityError>)
  {
    r.Success? ==> Agrees(ix, pre, r.value, ps) && Covers(ix, r.value, a)
  }

  lemma RerunZero(ix: TitleIndex, pre: seq<ProductRow>, ps: seq<Product>)
    ensures RerunHolds(ix, pre, ps, 0)
  {
    assert ps[..0] == [] && Run(Index(ix, pre), pre, ps[..0]) == Success(pre);
    RerunBase(ix, pre, ps);
  }

  lemma RerunNext(ix: TitleIndex, pre: seq<ProductRow>, ps: seq<Product>, n: nat)
    requires 0 < n <= |ps| && KeysSeparate(ix, ps) && Titled(ps)
    requires RerunHolds(ix, pre, ps, n - 1)
    ensures RerunHolds(ix, pre, ps, n)
  {
    var idx := Index(ix, pre);
    if Run(idx, pre, ps[..n - 1]).Success? {
      RerunRunStep(ix, pre, ps, n);
    } else {
      assert ps[..n][..n - 1] == ps[..n - 1];
      RunStep(idx, pre, ps[..n]);
    }
  }

  /** After the first `n` products, the pre-existing rows keep their
      catalog keys and every one of those products is matched by a row. */
  lemma {:induction false} RerunInvariant(ix: TitleIndex, pre: seq<ProductRow>, ps: seq<Product>, n: nat)
    requires n <= |ps| && KeysSeparate(ix, ps) && Titled(ps)
    ensures RerunHolds(ix, pre, ps, n)
    decreases n
  {
    if n == 0 {
      RerunZero(ix, pre, ps);
    } else {
      RerunInvariant(ix, pre, ps, n - 1);
      RerunNext(ix, pre, ps, n);
    }
  }

  lemma CoversPrefix(ix: TitleIndex, rows: seq<ProductRow>, ps: seq<Product>, n: nat)
    requires n <= |ps| && Covers(ix, rows, ps)
    ensures Covers(ix, rows, ps[..n])
  {
    forall j | 0 <= j < n
      ensures Matched(ix, rows, ProductKeyOf(ps[..n][j]))
    {
      assert ps[..n][j] == ps[j];
      var i :| 0 <= i < |rows| && Indexed(ix, rows[i], ProductKeyOf(ps[j]));
      assert Indexed(ix, rows[i], ProductKeyOf(ps[..n][j]));
    }
  }

  /** A product some row is entered under is matched. */
  lemma CoveredMatched(ix: TitleIndex, rows: seq<ProductRow>, p: Product, i: nat)
    requires i < |rows| && Indexed(ix, rows[i], ProductKeyOf(p))
    ensures Target(Index(ix, rows), p).Some?
  {
    IndexSpec(ix, rows, ProductKeyOf(p));
  }

  lemma {:induction false} NoneUnmatched(ix: TitleIndex, rows: seq<ProductRow>, ps: seq<Product>)
    requires Covers(ix, rows, ps)
    ensures Unmatched(Index(ix, rows), ps) == []
    decreases |ps|
  {
    if ps != [] {
      var n := |ps| - 1;
      CoversPrefix(ix, rows, ps, n);
      NoneUnmatched(ix, rows, ps[..n]);
      var i :| 0 <= i < |rows| && Indexed(ix, rows[i], ProductKeyOf(ps[n]));
      CoveredMatched(ix, rows, ps[n], i);
    }
  }

  /** When no row is indexed under two keys of the catalog, every product
      of a second run of the same catalog finds the row the first run left
      for it: the second run adds no row. */
  lemma RerunAddsNothing(ix: TitleIndex, pre: seq<ProductRow>, ps: seq<Product>)
    requires KeysSeparate(ix, ps) && Titled(ps)
    ensures UpsertProducts(ix, pre, ps).Success? ==>
      var r1 := UpsertProducts(ix, pre, ps).value;
      Unmatched(Index(ix, r1), ps) == [] &&
      (UpsertProducts(ix, r1, ps).Success? ==> |UpsertProducts(ix, r1, ps).value| == |r1|)
  {
    RerunInvariant(ix, pre, ps, |ps|);
    assert ps[..|ps|] == ps;
    if UpsertProducts(ix, pre, ps).Success? {
      var r1 := UpsertProducts(ix, pre, ps).value;
      NoneUnmatched(ix, r1, ps);
      RunShape(Index(ix, r1), r1, ps);
    }
  }

  /** The code's indexing is stable on a second run when every product has
      a handle. */
  lemma HandleKeyedRerunAddsNothing(pre: seq<ProductRow>, ps: seq<Product>)
    requires forall j :: 0 <= j < |ps| ==> !AllSpace(TextOf(ps[j].handle))
    requires Titled(ps)
    ensures UpsertProducts(AllTitledRows, pre, ps).Success? ==>
      var r1 := UpsertProducts(AllTitledRows, pre, ps).value;
      UpsertProducts(AllTitledRows, r1, ps).Success? ==> |UpsertProducts(AllTitledRows, r1, ps).value| == |r1|
  {
    RerunAddsNothing(AllTitledRows, pre, ps);
  }

  /** Indexing only handle-less rows by title, a second run of any catalog
      whose products have titles (as every parsed product has) adds no row. */
  lemma HandlelessRerunAddsNothing(pre: seq<ProductRow>, ps: seq<Product>)
    requires Titled(ps)
    ensures UpsertProducts(HandlelessRows, pre, ps).Success? ==>
      var r1 := UpsertProducts(HandlelessRows, pre, ps).value;
      UpsertProducts(HandlelessRows, r1, ps).Success? ==> |UpsertProducts(HandlelessRows, r1, ps).value| == |r1|
  {
    RerunAddsNothing(HandlelessRows, pre, ps);
  }

  // ---------- the catalog that breaks the code's indexing ----------

  function Item(title: string, handle: Option<string>): Product {
    Product(None, title, None, handle, None, None, false, None, None, None, None)
  }

  /** A one-letter lower-case text is its own key. */
  lemma LowerStripPlain(s: string)
    requires |s| == 1 && 'a' <= s[0] <= 'z'
    ensures Lower(Strip(s)) == s
  {
    StripClean(s);
    assert Lower(s) == [LowerChar(s[0])] + Lower(s[1..]);
  }

  /** With a single pre-existing row, a product goes to that row exactly
      when the row is entered under the product's key. */
  lemma SingleRowTarget(ix: TitleIndex, row: ProductRow, p: Product)
    ensures Target(Index(ix, [row]), p) == if Indexed(ix, row, ProductKeyOf(p)) then Some(0) else None
  {
    IndexSpec(ix, [row], ProductKeyOf(p));
  }

  /** Running two products over one pre-existing row, spelled out. */
  lemma RunTwo(idx: map<ProductKey, nat>, pre: seq<ProductRow>, p: Product, q: Product)
    requires Bounded(idx, |pre|)
    ensures Run(idx, pre, [p]) ==
      (var r := Place(idx, pre, p); if UniqueHandles(r) then Success(r) else Failure(DuplicateProductHandle))
    ensures Run(idx, pre, [p]).Success? ==>
      (Run(idx, pre, [p, q]) ==
        var r := Place(idx, Run(idx, pre, [p]).value, q);
        if UniqueHandles(r) then Success(r) else Failure(DuplicateProductHandle))
  {
    assert [p][..0] == [];
    assert [p, q][..1] == [p];
    RunStep(idx, pre, [p]);
    RunStep(idx, pre, [p, q]);
  }

  /** The code's indexing is not stable: take a stored row (title "t",
      handle "h") and the catalog [(title "a", handle "h"), (title "t", no
      handle)]. The first run updates the row by its handle, then again by
      its old title, which leaves it without a handle; the second run of the
      same catalog finds no row for handle "h" and inserts one. */
  lemma RerunAddsRow()
    ensures var pre := [NewRow(Item("t", Some("h")))];
      var ps := [Item("a", Some("h")), Item("t", None)];
      var r1 := UpsertProducts(AllTitledRows, pre, ps);
      && Titled(ps)
      && r1.Success? && |r1.value| == 1
      && UpsertProducts(AllTitledRows, r1.value, ps).Success?
      && |UpsertProducts(AllTitledRows, r1.value, ps).value| == 2
  {
    ExampleFirstRun();
    ExampleSecondRun();
  }

  /** The stored row of the example after the first run. */
  function ExampleRow(): ProductRow {
    Apply(Apply(NewRow(Item("t", Some("h"))), Item("a", Some("h"))), Item("t", None))
  }

  /** The keys of the example's products and rows. */
  lemma ExampleKeys(p1: Product, p2: Product, row: ProductRow)
    requires p1 == Item("a", Some("h")) && p2 == Item("t", None) && row.title == "t"
    ensures ProductKeyOf(p1) == ByHandle("h") && ProductKeyOf(p2) == ByTitle("t")
    ensures TitleKey(row) == "t" && (row.handle == Some("h") ==> HandleKey(row) == "h")
  {
    LowerStripPlain("h");
    LowerStripPlain("t");
  }

  /** First run of the example under the code's indexing: both products go
      to the stored row. */
  lemma ExampleFirstRun()
    ensures UpsertProducts(AllTitledRows, [NewRow(Item("t", Some("h")))], [Item("a", Some("h")), Item("t", None)])
      == Success([ExampleRow()])
  {
    var row := NewRow(Item("t", Some("h")));
    var p1 := Item("a", Some("h"));
    var p2 := Item("t", None);
    ExampleKeys(p1, p2, row);
    var idx := Index(AllTitledRows, [row]);
    SingleRowTarget(AllTitledRows, row, p1);
    SingleRowTarget(AllTitledRows, row, p2);
    RunTwo(idx, [row], p1, p2);
    var row1 := Apply(row, p1);
    assert Place(idx, [row], p1) == [row1];
    assert Place(idx, [row1], p2) == [Apply(row1, p2)];
  }

  /** Second run of the example under the code's indexing: the handle
      product finds no row and is inserted. */
  lemma ExampleSecondRun()
    ensures var r := UpsertProducts(AllTitledRows, [ExampleRow()], [Item("a", Some("h")), Item("t", None)]);
      r.Success? && |r.value| == 2
  {
    var row2 := ExampleRow();
    var p1 := Item("a", Some("h"));
    var p2 := Item("t", None);
    ExampleKeys(p1, p2, row2);
    var idx2 := Index(AllTitledRows, [row2]);
    SingleRowTarget(AllTitledRows, row2, p1);
    SingleRowTarget(AllTitledRows, row2, p2);
    assert !Indexed(AllTitledRows, row2, ByHandle("h"));
    assert Indexed(AllTitledRows, row2, ByTitle("t"));
    RunTwo(idx2, [row2], p1, p2);
    assert Place(idx2, [row2], p1) == [row2, NewRow(p1)];
    assert UniqueHandles([row2, NewRow(p1)]);
    var r2 := [Apply(row2, p2), NewRow(p1)];
    assert Place(idx2, [row2, NewRow(p1)], p2) == r2;
    assert UniqueHandles(r2);
  }

  /** The same catalog when only handle-less rows are title-indexed: the
      first run inserts the handle-less product beside the updated row, and
      the second run adds nothing. */
  lemma HandlelessRerunExample()
    ensures var pre := [NewRow(Item("t", Some("h")))];
      var ps := [Item("a", Some("h")), Item("t", None)];
      var r1 := UpsertProducts(HandlelessRows, pre, ps);
      r1.Success? && |r1.value| == 2 && Unmatched(Index(HandlelessRows, r1.value), ps) == []
  {
    var row := NewRow(Item("t", Some("h")));
    var p1 := Item("a", Some("h"));
    var p2 := Item("t", None);
    var ps := [p1, p2];
    LowerStripPlain("h");
    LowerStripPlain("t");
    assert ProductKeyOf(p1) == ByHandle("h");
    assert ProductKeyOf(p2) == ByTitle("t");
    var idx := Index(HandlelessRows, [row]);
    SingleRowTarget(HandlelessRows, row, p1);
    SingleRowTarget(HandlelessRows, row, p2);
    assert !Indexed(HandlelessRows, row, ByTitle("t"));
    RunTwo(idx, [row], p1, p2);
    var row1 := Apply(row, p1);
    assert Place(idx, [row], p1) == [row1];
    var r := [row1, NewRow(p2)];
    assert Place(idx, [row1], p2) == r;
    assert UniqueHandles(r);
    RerunAddsNothing(HandlelessRows, [row], ps);
  }
}
