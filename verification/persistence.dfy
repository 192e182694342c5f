/** The repository (`BrandRepository.upsert_brand_context`) and its unit of
    work, as a transition from the store before an ingestion to the store
    after it. Every pass reads only the rows of the one brand the profile's
    website url names. */
module Persistence {
  import opened Wrappers
  import opened Text
  import opened Keyed
  import opened DbModels
  import opened Schemas
  import ProductUpsert

  // ---------- the brand row ----------

  /** `_upsert_brand_metadata`: the brand row of the profile's website url,
      and the id sequence after it. An unseen url gets a fresh row with the
      next id; a known one keeps its id and child rows, and takes the new
      name and about only when they are non-empty. */
  function BrandMetadata(s: Store, ctx: BrandContext): (r: (BrandRecord, nat))
    ensures ctx.websiteUrl !in s.brands ==>
      r.0 == EmptyBrand(s.nextId, ctx.brandName, ctx.about) && r.1 == s.nextId + 1
    ensures ctx.websiteUrl in s.brands ==>
      var b := s.brands[ctx.websiteUrl];
      && r.1 == s.nextId
      && r.0.(name := b.name, about := b.about) == b
      && (Truthy(ctx.brandName) ==> r.0.name == ctx.brandName)
      && (!Truthy(ctx.brandName) ==> r.0.name == b.name)
      && (Truthy(ctx.about) ==> r.0.about == ctx.about)
      && (!Truthy(ctx.about) ==> r.0.about == b.about)
  {
    if ctx.websiteUrl !in s.brands then
      (EmptyBrand(s.nextId, ctx.brandName, ctx.about), s.nextId + 1)
    else
      var b := s.brands[ctx.websiteUrl];
      (b.(name := OrElse(ctx.brandName, b.name), about := OrElse(ctx.about, b.about)), s.nextId)
  }

  // ---------- policies ----------

  function PolicyKey(p: Policy): PolicyType {
    p.policyType
  }

  predicate UrlGiven(p: Policy) {
    Truthy(p.url)
  }

  predicate ContentGiven(p: Policy) {
    Truthy(p.content)
  }

  /** A policy row as created, before any column is set. */
  const NoPolicy := PolicyBody(None, None)

  function MergePolicy(b: PolicyBody, p: Policy): PolicyBody {
    PolicyBody(if UrlGiven(p) then p.url else b.url, if ContentGiven(p) then p.content else b.content)
  }

  /** `_upsert_policies`: rows keyed by policy type; the url is replaced only
      by a present url and the content only by non-empty content. No row is
      removed. */
  function UpsertPolicies(pre: seq<Row<PolicyType, PolicyBody>>, ps: seq<Policy>)
    : (r: seq<Row<PolicyType, PolicyBody>>)
    ensures |r| == |pre| + CountNew(pre, ps, PolicyKey)
    ensures forall i :: 0 <= i < |pre| ==> r[i].key == pre[i].key
    ensures forall t :: HasKey(r, t) <==> HasKey(pre, t) || Mentions(ps, PolicyKey, t)
  {
    UpsertCount(pre, ps, PolicyKey, NoPolicy, MergePolicy);
    UpsertKeys(pre, ps, PolicyKey, NoPolicy, MergePolicy);
    UpsertAll(pre, ps, PolicyKey, NoPolicy, MergePolicy)
  }

  /** When the table keeps its unique constraint, the row of type `t` holds
      the url of the last incoming policy of that type that had one, else
      its earlier url; likewise for the content. */
  lemma PolicyValues(pre: seq<Row<PolicyType, PolicyBody>>, ps: seq<Policy>, t: PolicyType)
    requires UniqueKeys(pre) && UniqueKeys(UpsertPolicies(pre, ps))
    ensures var h := Held(AsMap(UpsertPolicies(pre, ps)), t, NoPolicy);
      var h0 := Held(AsMap(pre), t, NoPolicy);
      && (NoWrite(ps, PolicyKey, t, UrlGiven) ==> h.url == h0.url)
      && (forall i :: LastWrite(ps, PolicyKey, t, UrlGiven, i) ==> h.url == ps[i].url)
      && (NoWrite(ps, PolicyKey, t, ContentGiven) ==> h.content == h0.content)
      && (forall i :: LastWrite(ps, PolicyKey, t, ContentGiven, i) ==> h.content == ps[i].content)
  {
    UpsertUniqueIff(pre, ps, PolicyKey, NoPolicy, MergePolicy);
    UpsertAsMap(pre, ps, PolicyKey, NoPolicy, MergePolicy);
    MapUpsertAt(AsMap(pre), ps, PolicyKey, NoPolicy, MergePolicy, t);
    var h0 := Held(AsMap(pre), t, NoPolicy);
    FoldField(h0, ps, PolicyKey, t, MergePolicy, (b: PolicyBody) => b.url, UrlGiven, (p: Policy) => p.url);
    FoldField(h0, ps, PolicyKey, t, MergePolicy, (b: PolicyBody) => b.content, ContentGiven, (p: Policy) => p.content);
  }

  // ---------- FAQs ----------

  function FaqRowOf(f: Schemas.Faq): FaqRow {
    FaqRow(f.question, f.answer, if Truthy(f.url) then f.url else None)
  }

  /** `_replace_faqs`: every earlier FAQ row of the brand is deleted and one
      row per incoming entry is added, in order. */
  function ReplaceFaqs(fs: seq<Schemas.Faq>): (r: seq<FaqRow>)
    ensures |r| == |fs|
    ensures forall i :: 0 <= i < |fs| ==>
      r[i].question == fs[i].question && r[i].answer == fs[i].answer &&
      (r[i].url.Some? <==> Truthy(fs[i].url)) && (r[i].url.Some? ==> r[i].url == fs[i].url)
  {
    seq(|fs|, i requires 0 <= i < |fs| => FaqRowOf(fs[i]))
  }

  /** Reading the rows back as entries. */
  function FaqsOf(rows: seq<FaqRow>): (r: seq<Schemas.Faq>)
    ensures |r| == |rows|
  {
    seq(|rows|, i requires 0 <= i < |rows| => Schemas.Faq(rows[i].question, rows[i].answer, rows[i].url))
  }

  /** The stored FAQs are exactly the incoming list, in order, whenever no
      entry carries an empty url (a validated url is never empty). */
  lemma FaqsRoundTrip(fs: seq<Schemas.Faq>)
    requires forall i :: 0 <= i < |fs| ==> fs[i].url != Some("")
    ensures FaqsOf(ReplaceFaqs(fs)) == fs
  {
    var r := FaqsOf(ReplaceFaqs(fs));
    forall i | 0 <= i < |fs|
      ensures r[i] == fs[i]
    {
      if fs[i].url.Some? {
        assert Truthy(fs[i].url);
      }
    }
  }

  // ---------- socials and contacts ----------

  function SocialKey(h: SocialHandle): SocialPlatform {
    h.platform
  }

  function ContactKey(c: ContactDetail): ContactType {
    c.contactType
  }

  /** Every incoming item writes the column. */
  predicate Always<N>(n: N) {
    true
  }

  function MergeSocial(v: string, h: SocialHandle): string {
    h.handleOrUrl
  }

  function MergeContact(v: string, c: ContactDetail): string {
    c.value
  }

  /** `_upsert_socials`: rows keyed by platform. No row is removed. */
  function UpsertSocials(pre: seq<Row<SocialPlatform, string>>, hs: seq<SocialHandle>)
    : (r: seq<Row<SocialPlatform, string>>)
    ensures |r| == |pre| + CountNew(pre, hs, SocialKey)
    ensures forall i :: 0 <= i < |pre| ==> r[i].key == pre[i].key
    ensures forall p :: HasKey(r, p) <==> HasKey(pre, p) || Mentions(hs, SocialKey, p)
  {
    UpsertCount(pre, hs, SocialKey, "", MergeSocial);
    UpsertKeys(pre, hs, SocialKey, "", MergeSocial);
    UpsertAll(pre, hs, SocialKey, "", MergeSocial)
  }

  /** The handle of every platform mentioned is overwritten by the last
      incoming handle of that platform; the others keep theirs. */
  lemma SocialValues(pre: seq<Row<SocialPlatform, string>>, hs: seq<SocialHandle>, p: SocialPlatform)
    requires UniqueKeys(pre) && UniqueKeys(UpsertSocials(pre, hs))
    ensures var h := Held(AsMap(UpsertSocials(pre, hs)), p, "");
      && (!Mentions(hs, SocialKey, p) ==> h == Held(AsMap(pre), p, ""))
      && (forall i :: LastWrite(hs, SocialKey, p, Always, i) ==> h == hs[i].handleOrUrl)
  {
    UpsertUniqueIff(pre, hs, SocialKey, "", MergeSocial);
    UpsertAsMap(pre, hs, SocialKey, "", MergeSocial);
    MapUpsertAt(AsMap(pre), hs, SocialKey, "", MergeSocial, p);
    FoldField(Held(AsMap(pre), p, ""), hs, SocialKey, p, MergeSocial, (v: string) => v, Always,
              (x: SocialHandle) => x.handleOrUrl);
    if !Mentions(hs, SocialKey, p) {
      FoldKeyUntouched(Held(AsMap(pre), p, ""), hs, SocialKey, p, MergeSocial);
    }
  }

  /** `_upsert_contacts`: rows keyed by contact type, though no constraint
      makes the type unique. No row is removed. */
  function UpsertContacts(pre: seq<Row<ContactType, string>>, cs: seq<ContactDetail>)
    : (r: seq<Row<ContactType, string>>)
    ensures |r| == |pre| + CountNew(pre, cs, ContactKey)
    ensures forall i :: 0 <= i < |pre| ==> r[i].key == pre[i].key
    ensures forall t :: HasKey(r, t) <==> HasKey(pre, t) || Mentions(cs, ContactKey, t)
  {
    UpsertCount(pre, cs, ContactKey, "", MergeContact);
    UpsertKeys(pre, cs, ContactKey, "", MergeContact);
    UpsertAll(pre, cs, ContactKey, "", MergeContact)
  }

  /** The value of every type mentioned is overwritten by the last incoming
      value of that type; the others keep theirs. Only tables that hold one
      row per type, and profiles that bring no new type twice, keep that
      shape. */
  lemma ContactValues(pre: seq<Row<ContactType, string>>, cs: seq<ContactDetail>, t: ContactType)
    requires UniqueKeys(pre) && NoNewKeyTwice(pre, cs, ContactKey)
    ensures UniqueKeys(UpsertContacts(pre, cs))
    ensures var h := Held(AsMap(UpsertContacts(pre, cs)), t, "");
      && (!Mentions(cs, ContactKey, t) ==> h == Held(AsMap(pre), t, ""))
      && (forall i :: LastWrite(cs, ContactKey, t, Always, i) ==> h == cs[i].value)
  {
    UpsertAsMap(pre, cs, ContactKey, "", MergeContact);
    MapUpsertAt(AsMap(pre), cs, ContactKey, "", MergeContact, t);
    FoldField(Held(AsMap(pre), t, ""), cs, ContactKey, t, MergeContact, (v: string) => v, Always,
              (x: ContactDetail) => x.value);
    if !Mentions(cs, ContactKey, t) {
      FoldKeyUntouched(Held(AsMap(pre), t, ""), cs, ContactKey, t, MergeContact);
    }
  }

  /** Without a unique constraint nothing stops two contact rows of one
      type: two emails arriving for a brand that had none are both
      inserted. */
  lemma ContactsDuplicate(a: string, b: string)
    ensures var r := UpsertContacts([], [ContactDetail(Email, a), ContactDetail(Email, b)]);
      r == [Row(Email, a), Row(Email, b)] && !UniqueKeys(r)
  {
    var cs := [ContactDetail(Email, a), ContactDetail(Email, b)];
    var none: seq<Row<ContactType, string>> := [];
    assert cs[..1] == [ContactDetail(Email, a)];
    assert cs[..1][..0] == [];
    assert UpsertAll(none, cs[..1][..0], ContactKey, "", MergeContact) == none;
    assert LastIndexOf(none, Email).None?;
    var r1 := UpsertAll(none, cs[..1], ContactKey, "", MergeContact);
    assert r1 == [Row(Email, a)];
    var r := UpsertAll(none, cs, ContactKey, "", MergeContact);
    assert r == [Row(Email, a), Row(Email, b)];
    assert r[0].key == r[1].key;
  }

  // ---------- important links ----------

  function LinkKey(l: ImportantLink): LinkType {
    l.linkType
  }

  predicate LabelGiven(l: ImportantLink) {
    Truthy(l.labelText)
  }

  /** An important-link row as created, before any column is set. */
  const NoLink := LinkBody("", None)

  function MergeLink(b: LinkBody, l: ImportantLink): LinkBody {
    LinkBody(l.url, OrElse(l.labelText, b.labelText))
  }

  /** `_upsert_links`: rows keyed by link type. No row is removed. */
  function UpsertLinks(pre: seq<Row<LinkType, LinkBody>>, ls: seq<ImportantLink>)
    : (r: seq<Row<LinkType, LinkBody>>)
    ensures |r| == |pre| + CountNew(pre, ls, LinkKey)
    ensures forall i :: 0 <= i < |pre| ==> r[i].key == pre[i].key
    ensures forall t :: HasKey(r, t) <==> HasKey(pre, t) || Mentions(ls, LinkKey, t)
  {
    UpsertCount(pre, ls, LinkKey, NoLink, MergeLink);
    UpsertKeys(pre, ls, LinkKey, NoLink, MergeLink);
    UpsertAll(pre, ls, LinkKey, NoLink, MergeLink)
  }

  /** The url of a mentioned type is always refreshed from the last incoming
      link of that type; the label is the last non-empty incoming label, else
      the earlier one. */
  lemma LinkValues(pre: seq<Row<LinkType, LinkBody>>, ls: seq<ImportantLink>, t: LinkType)
    requires UniqueKeys(pre) && UniqueKeys(UpsertLinks(pre, ls))
    ensures var h := Held(AsMap(UpsertLinks(pre, ls)), t, NoLink);
      var h0 := Held(AsMap(pre), t, NoLink);
      && (!Mentions(ls, LinkKey, t) ==> h == h0)
      && (forall i :: LastWrite(ls, LinkKey, t, Always, i) ==> h.url == ls[i].url)
      && (NoWrite(ls, LinkKey, t, LabelGiven) ==> h.labelText == h0.labelText)
      && (forall i :: LastWrite(ls, LinkKey, t, LabelGiven, i) ==> h.labelText == ls[i].labelText)
  {
    UpsertUniqueIff(pre, ls, LinkKey, NoLink, MergeLink);
    UpsertAsMap(pre, ls, LinkKey, NoLink, MergeLink);
    MapUpsertAt(AsMap(pre), ls, LinkKey, NoLink, MergeLink, t);
    var h0 := Held(AsMap(pre), t, NoLink);
    FoldField(h0, ls, LinkKey, t, MergeLink, (b: LinkBody) => b.url, Always, (l: ImportantLink) => l.url);
    FoldField(h0, ls, LinkKey, t, MergeLink, (b: LinkBody) => b.labelText, LabelGiven,
              (l: ImportantLink) => l.labelText);
    if !Mentions(ls, LinkKey, t) {
      FoldKeyUntouched(h0, ls, LinkKey, t, MergeLink);
    }
  }

  // ---------- the whole profile ----------

  /** The brand after every pass of `upsert_brand_context`, in the code's
      order, before the final flush: a failure when a per-product flush
      aborted. */
  function Staged(ix: ProductUpsert.TitleIndex, s: Store, ctx: BrandContext): Result<BrandRecord, IntegrityError> {
    var b := BrandMetadata(s, ctx).0;
    match ProductUpsert.UpsertProducts(ix, b.products, ctx.productCatalog)
    case Failure(e) => Failure(e)
    case Success(products) =>
      Success(b.(products := products,
                 policies := UpsertPolicies(b.policies, ctx.policies),
                 faqs := ReplaceFaqs(ctx.faqs),
                 socials := UpsertSocials(b.socials, ctx.socialHandles),
                 contacts := UpsertContacts(b.contacts, ctx.contactDetails),
                 links := UpsertLinks(b.links, ctx.importantLinks)))
  }

  /** The final flush: the first unique constraint the pending rows break. */
  function FlushError(b: BrandRecord): (r: Option<IntegrityError>)
    ensures r.None? <==> UniqueKeys(b.policies) && UniqueKeys(b.socials) && UniqueKeys(b.links)
  {
    if !UniqueKeys(b.policies) then Some(DuplicatePolicyType)
    else if !UniqueKeys(b.socials) then Some(DuplicateSocialPlatform)
    else if !UniqueKeys(b.links) then Some(DuplicateLinkType)
    else None
  }

  /** `upsert_brand_context`: the store the transaction would commit, or the
      integrity error that aborts it. `ix` selects which product rows the
      title dictionary holds. */
  function UpsertBrandContext(ix: ProductUpsert.TitleIndex, s: Store, ctx: BrandContext)
    : (r: Result<Store, IntegrityError>)
    ensures r.Success? ==> r.value.brands.Keys == s.brands.Keys + {ctx.websiteUrl}
    ensures r.Success? ==> forall u :: u in s.brands && u != ctx.websiteUrl ==> r.value.brands[u] == s.brands[u]
    ensures r.Success? ==> r.value.competitors == s.competitors
    ensures r.Success? && Valid(s) ==> Valid(r.value)
  {
    var (b, next) := BrandMetadata(s, ctx);
    match Staged(ix, s, ctx)
    case Failure(e) => Failure(e)
    case Success(b') =>
      match FlushError(b')
      case Some(e) => Failure(e)
      case None =>
        var t := Store(s.brands[ctx.websiteUrl := b'], s.competitors, next);
        assert Valid(s) ==> Valid(t) by {
          if Valid(s) {
            CommitValid(ix, s, ctx);
          }
        }
        Success(t)
  }

  /** The store a clean final flush commits meets every constraint the
      store before it met: the new brand takes the next id, and each child
      table of the merged brand is unique. */
  lemma CommitValid(ix: ProductUpsert.TitleIndex, s: Store, ctx: BrandContext)
    requires Valid(s) && Staged(ix, s, ctx).Success? && FlushError(Staged(ix, s, ctx).value).None?
    ensures Valid(Store(s.brands[ctx.websiteUrl := Staged(ix, s, ctx).value], s.competitors, BrandMetadata(s, ctx).1))
  {
    var (b, next) := BrandMetadata(s, ctx);
    var b' := Staged(ix, s, ctx).value;
    StagedRecordValid(ix, s, ctx);
    ValidReplace(s, ctx.websiteUrl, b', next);
  }

  /** The merged brand keeps its id, or takes the next one, and its child
      tables are unique once the flush found nothing. */
  lemma StagedRecordValid(ix: ProductUpsert.TitleIndex, s: Store, ctx: BrandContext)
    requires Valid(s) && Staged(ix, s, ctx).Success? && FlushError(Staged(ix, s, ctx).value).None?
    ensures var b' := Staged(ix, s, ctx).value;
      RecordValid(b') && b'.id < BrandMetadata(s, ctx).1 && s.nextId <= BrandMetadata(s, ctx).1
    ensures var b' := Staged(ix, s, ctx).value;
      ctx.websiteUrl in s.brands ==> b'.id == s.brands[ctx.websiteUrl].id
    ensures var b' := Staged(ix, s, ctx).value;
      ctx.websiteUrl !in s.brands ==> b'.id == s.nextId
  {
    var b := BrandMetadata(s, ctx).0;
    var products := ProductUpsert.UpsertProducts(ix, b.products, ctx.productCatalog);
    if ctx.productCatalog != [] {
      ProductUpsert.UpsertUnique(ix, b.products, ctx.productCatalog);
    } else {
      assert products.value == b.products;
    }
  }

  /** Writing a valid record under `u` keeps the store valid when the
      record keeps `u`'s id, or takes a fresh id below the new sequence
      value. */
  lemma ValidReplace(s: Store, u: string, b': BrandRecord, next: nat)
    requires Valid(s) && RecordValid(b') && b'.id < next && s.nextId <= next
    requires u in s.brands ==> b'.id == s.brands[u].id
    requires u !in s.brands ==> b'.id == s.nextId
    ensures Valid(Store(s.brands[u := b'], s.competitors, next))
  {
  }

  /** `BrandUnitOfWork.__exit__`: commit when the repository returned,
      roll back when it raised. Either the profile is merged completely or
      the store is as it was; other brands and the competitor pairs are
      never touched. */
  function Ingest(ix: ProductUpsert.TitleIndex, s: Store, ctx: BrandContext): (r: Store)
    ensures UpsertBrandContext(ix, s, ctx).Failure? ==> r == s
    ensures UpsertBrandContext(ix, s, ctx).Success? ==> r == UpsertBrandContext(ix, s, ctx).value
    ensures Valid(s) ==> Valid(r)
    ensures forall u :: u in s.brands && u != ctx.websiteUrl ==> u in r.brands && r.brands[u] == s.brands[u]
    ensures r.brands.Keys <= s.brands.Keys + {ctx.websiteUrl}
    ensures r.competitors == s.competitors
  {
    match UpsertBrandContext(ix, s, ctx)
    case Success(t) => t
    case Failure(_) => s
  }

  // ---------- what a committed ingestion leaves ----------

  /** The brand row a successful ingestion commits. */
  function Committed(ix: ProductUpsert.TitleIndex, s: Store, ctx: BrandContext): BrandRecord
    requires UpsertBrandContext(ix, s, ctx).Success?
  {
    UpsertBrandContext(ix, s, ctx).value.brands[ctx.websiteUrl]
  }

  /** The committed row keeps the id of the known brand, or takes the next
      id for an unseen url; name and about follow the metadata rule. */
  lemma CommittedBrandRow(ix: ProductUpsert.TitleIndex, s: Store, ctx: BrandContext)
    requires UpsertBrandContext(ix, s, ctx).Success?
    ensures var b := Committed(ix, s, ctx);
      && (ctx.websiteUrl !in s.brands ==> b.id == s.nextId && b.name == ctx.brandName && b.about == ctx.about)
      && (ctx.websiteUrl in s.brands ==> b.id == s.brands[ctx.websiteUrl].id)
      && (ctx.websiteUrl in s.brands && !Truthy(ctx.brandName) ==> b.name == s.brands[ctx.websiteUrl].name)
      && (ctx.websiteUrl in s.brands && !Truthy(ctx.about) ==> b.about == s.brands[ctx.websiteUrl].about)
      && (Truthy(ctx.brandName) ==> b.name == ctx.brandName)
      && (Truthy(ctx.about) ==> b.about == ctx.about)
  {
  }

  /** The committed products are the reconciliation of the brand's earlier
      rows with the catalog: every earlier row in its place, changed only
      when a product matched it, then one new row per product no earlier
      row matched. */
  lemma CommittedProducts(ix: ProductUpsert.TitleIndex, s: Store, ctx: BrandContext)
    requires UpsertBrandContext(ix, s, ctx).Success?
    ensures var pre := BrandMetadata(s, ctx).0.products;
      var idx := ProductUpsert.Index(ix, pre);
      var r := Committed(ix, s, ctx).products;
      && |r| == |pre| + |ProductUpsert.Unmatched(idx, ctx.productCatalog)|
      && r[|pre|..] == ProductUpsert.NewRows(ProductUpsert.Unmatched(idx, ctx.productCatalog))
      && (forall i :: 0 <= i < |pre| && ProductUpsert.LastMatching(idx, ctx.productCatalog, i).None? ==> r[i] == pre[i])
  {
    ProductUpsert.UpsertProductsReconciled(ix, BrandMetadata(s, ctx).0.products, ctx.productCatalog);
  }

  /** The committed policies of type `t`: present when the brand had one or
      the profile brings one; url and content per `PolicyValues`. */
  lemma CommittedPolicies(ix: ProductUpsert.TitleIndex, s: Store, ctx: BrandContext, t: PolicyType)
    requires Valid(s) && UpsertBrandContext(ix, s, ctx).Success?
    ensures var pre := BrandMetadata(s, ctx).0.policies;
      var ps := ctx.policies;
      var r := Committed(ix, s, ctx).policies;
      var h := Held(AsMap(r), t, NoPolicy);
      var h0 := Held(AsMap(pre), t, NoPolicy);
      && UniqueKeys(r)
      && (HasKey(r, t) <==> HasKey(pre, t) || Mentions(ps, PolicyKey, t))
      && (NoWrite(ps, PolicyKey, t, UrlGiven) ==> h.url == h0.url)
      && (forall i :: LastWrite(ps, PolicyKey, t, UrlGiven, i) ==> h.url == ps[i].url)
      && (NoWrite(ps, PolicyKey, t, ContentGiven) ==> h.content == h0.content)
      && (forall i :: LastWrite(ps, PolicyKey, t, ContentGiven, i) ==> h.content == ps[i].content)
  {
    PolicyValues(BrandMetadata(s, ctx).0.policies, ctx.policies, t);
  }

  /** The committed FAQs are the profile's, in order, whatever the brand
      held before. */
  lemma CommittedFaqs(ix: ProductUpsert.TitleIndex, s: Store, ctx: BrandContext)
    requires UpsertBrandContext(ix, s, ctx).Success?
    requires forall i :: 0 <= i < |ctx.faqs| ==> ctx.faqs[i].url != Some("")
    ensures FaqsOf(Committed(ix, s, ctx).faqs) == ctx.faqs
  {
    FaqsRoundTrip(ctx.faqs);
  }

  /** The committed handle of platform `p` per `SocialValues`. */
  lemma CommittedSocials(ix: ProductUpsert.TitleIndex, s: Store, ctx: BrandContext, p: SocialPlatform)
    requires Valid(s) && UpsertBrandContext(ix, s, ctx).Success?
    ensures var pre := BrandMetadata(s, ctx).0.socials;
      var hs := ctx.socialHandles;
      var r := Committed(ix, s, ctx).socials;
      var h := Held(AsMap(r), p, "");
      && UniqueKeys(r)
      && (HasKey(r, p) <==> HasKey(pre, p) || Mentions(hs, SocialKey, p))
      && (!Mentions(hs, SocialKey, p) ==> h == Held(AsMap(pre), p, ""))
      && (forall i :: LastWrite(hs, SocialKey, p, Always, i) ==> h == hs[i].handleOrUrl)
  {
    SocialValues(BrandMetadata(s, ctx).0.socials, ctx.socialHandles, p);
  }

  /** The committed link of type `t` per `LinkValues`. */
  lemma CommittedLinks(ix: ProductUpsert.TitleIndex, s: Store, ctx: BrandContext, t: LinkType)
    requires Valid(s) && UpsertBrandContext(ix, s, ctx).Success?
    ensures var pre := BrandMetadata(s, ctx).0.links;
      var ls := ctx.importantLinks;
      var r := Committed(ix, s, ctx).links;
      var h := Held(AsMap(r), t, NoLink);
      var h0 := Held(AsMap(pre), t, NoLink);
      && UniqueKeys(r)
      && (HasKey(r, t) <==> HasKey(pre, t) || Mentions(ls, LinkKey, t))
      && (!Mentions(ls, LinkKey, t) ==> h == h0)
      && (forall i :: LastWrite(ls, LinkKey, t, Always, i) ==> h.url == ls[i].url)
      && (NoWrite(ls, LinkKey, t, LabelGiven) ==> h.labelText == h0.labelText)
      && (forall i :: LastWrite(ls, LinkKey, t, LabelGiven, i) ==> h.labelText == ls[i].labelText)
  {
    LinkValues(BrandMetadata(s, ctx).0.links, ctx.importantLinks, t);
  }

  /** Two incoming handles of a platform the brand does not yet have are
      both inserted, since the lookup sees only earlier rows; the final flush
      then breaks the platform's unique constraint and the whole ingestion
      is rolled back. */
  lemma NewPlatformTwiceRollsBack(ix: ProductUpsert.TitleIndex, s: Store, ctx: BrandContext, i: nat, j: nat)
    requires Valid(s)
    requires i < j < |ctx.socialHandles| && ctx.socialHandles[i].platform == ctx.socialHandles[j].platform
    requires !HasKey(BrandMetadata(s, ctx).0.socials, ctx.socialHandles[i].platform)
    ensures UpsertBrandContext(ix, s, ctx).Failure?
    ensures Ingest(ix, s, ctx) == s
  {
    var pre := BrandMetadata(s, ctx).0.socials;
    UpsertUniqueIff(pre, ctx.socialHandles, SocialKey, "", MergeSocial);
    assert !NoNewKeyTwice(pre, ctx.socialHandles, SocialKey);
  }
}
