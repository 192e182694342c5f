/** The relational schema of the brand store: the four closed enumerations,
    one row type per table, and the store's integrity constraints (unique,
    non-null and cascade rules) as predicates over an immutable store. */
module DbModels {
  import opened Wrappers
  import opened Keyed

  // ---------- enumerations ----------

  datatype PolicyType = Privacy | Refund | Return | Shipping | Terms
  {
    /** The string the enumeration member stands for. */
    function Value(): string {
      match this
      case Privacy => "privacy_policy"
      case Refund => "refund_policy"
      case Return => "return_policy"
      case Shipping => "shipping_policy"
      case Terms => "terms_of_service"
    }
  }

  datatype ContactType = Email | Phone
  {
    function Value(): string {
      match this
      case Email => "email"
      case Phone => "phone"
    }
  }

  datatype SocialPlatform = Instagram | Facebook | TikTok | Twitter | YouTube | Pinterest | LinkedIn | OtherPlatform
  {
    function Value(): string {
      match this
      case Instagram => "instagram"
      case Facebook => "facebook"
      case TikTok => "tiktok"
      case Twitter => "twitter"
      case YouTube => "youtube"
      case Pinterest => "pinterest"
      case LinkedIn => "linkedin"
      case OtherPlatform => "other"
    }
  }

  datatype LinkType = OrderTracking | ContactUs | Blog | Faq | About | Homepage | OtherLink
  {
    function Value(): string {
      match this
      case OrderTracking => "order_tracking"
      case ContactUs => "contact_us"
      case Blog => "blog"
      case Faq => "faq"
      case About => "about"
      case Homepage => "homepage"
      case OtherLink => "other"
    }
  }

  const AllPolicyTypes: seq<PolicyType> := [Privacy, Refund, Return, Shipping, Terms]
  const AllContactTypes: seq<ContactType> := [Email, Phone]
  const AllSocialPlatforms: seq<SocialPlatform> :=
    [Instagram, Facebook, TikTok, Twitter, YouTube, Pinterest, LinkedIn, OtherPlatform]
  const AllLinkTypes: seq<LinkType> := [OrderTracking, ContactUs, Blog, Faq, About, Homepage, OtherLink]

  /** A listing names every member of an enumeration exactly once, and the
      members' string values are pairwise distinct. */
  ghost predicate Enumerates<T(!new)>(all: seq<T>, value: T -> string) {
    (forall t: T :: t in all) &&
    (forall i, j :: 0 <= i < j < |all| ==> value(all[i]) != value(all[j]))
  }

  /** PolicyType has exactly five members. */
  lemma PolicyTypeSize()
    ensures Enumerates(AllPolicyTypes, (t: PolicyType) => t.Value()) && |AllPolicyTypes| == 5
  {
    forall t: PolicyType ensures t in AllPolicyTypes {
      match t
      case Privacy => assert AllPolicyTypes[0] == t;
      case Refund => assert AllPolicyTypes[1] == t;
      case Return => assert AllPolicyTypes[2] == t;
      case Shipping => assert AllPolicyTypes[3] == t;
      case Terms => assert AllPolicyTypes[4] == t;
    }
  }

  /** ContactType has exactly two members. */
  lemma ContactTypeSize()
    ensures Enumerates(AllContactTypes, (t: ContactType) => t.Value()) && |AllContactTypes| == 2
  {
    forall t: ContactType ensures t in AllContactTypes {
      match t
      case Email => assert AllContactTypes[0] == t;
      case Phone => assert AllContactTypes[1] == t;
    }
  }

  /** SocialPlatform has exactly eight members, OTHER included. */
  lemma SocialPlatformSize()
    ensures Enumerates(AllSocialPlatforms, (t: SocialPlatform) => t.Value()) && |AllSocialPlatforms| == 8
  {
    forall t: SocialPlatform ensures t in AllSocialPlatforms {
      match t
      case Instagram => assert AllSocialPlatforms[0] == t;
      case Facebook => assert AllSocialPlatforms[1] == t;
      case TikTok => assert AllSocialPlatforms[2] == t;
      case Twitter => assert AllSocialPlatforms[3] == t;
      case YouTube => assert AllSocialPlatforms[4] == t;
      case Pinterest => assert AllSocialPlatforms[5] == t;
      case LinkedIn => assert AllSocialPlatforms[6] == t;
      case OtherPlatform => assert AllSocialPlatforms[7] == t;
    }
    SocialValuesDistinct();
  }

  lemma SocialValuesDistinct()
    ensures forall i, j :: 0 <= i < j < |AllSocialPlatforms| ==>
      AllSocialPlatforms[i].Value() != AllSocialPlatforms[j].Value()
  {
    forall i, j | 0 <= i < j < |AllSocialPlatforms|
      ensures AllSocialPlatforms[i].Value() != AllSocialPlatforms[j].Value()
    {
      var a := AllSocialPlatforms[i].Value();
      var b := AllSocialPlatforms[j].Value();
      assert a[0] != b[0] || a[1] != b[1] || |a| != |b|;
    }
  }

  /** LinkType has exactly seven members, OTHER included. */
  lemma LinkTypeSize()
    ensures Enumerates(AllLinkTypes, (t: LinkType) => t.Value()) && |AllLinkTypes| == 7
  {
    forall t: LinkType ensures t in AllLinkTypes {
      match t
      case OrderTracking => assert AllLinkTypes[0] == t;
      case ContactUs => assert AllLinkTypes[1] == t;
      case Blog => assert AllLinkTypes[2] == t;
      case Faq => assert AllLinkTypes[3] == t;
      case About => assert AllLinkTypes[4] == t;
      case Homepage => assert AllLinkTypes[5] == t;
      case OtherLink => assert AllLinkTypes[6] == t;
    }
    LinkValuesDistinct();
  }

  lemma LinkValuesDistinct()
    ensures forall i, j :: 0 <= i < j < |AllLinkTypes| ==> AllLinkTypes[i].Value() != AllLinkTypes[j].Value()
  {
    forall i, j | 0 <= i < j < |AllLinkTypes|
      ensures AllLinkTypes[i].Value() != AllLinkTypes[j].Value()
    {
      var a := AllLinkTypes[i].Value();
      var b := AllLinkTypes[j].Value();
      assert a[0] != b[0] || a[1] != b[1];
    }
  }

  // ---------- rows ----------

  /** A product's price. Parsing the storefront's price text into a float is
      not modelled; a price is only ever copied. */
  type Price = real

  datatype ProductRow = ProductRow(
    shopifyId: Option<int>,
    title: string,
    handle: Option<string>,
    url: Option<string>,
    price: Option<Price>,
    currency: Option<string>,
    isHero: bool,
    imageUrl: Option<string>,
    vendor: Option<string>,
    productType: Option<string>,
    description: Option<string>)

  /** The non-key columns of a policy row. */
  datatype PolicyBody = PolicyBody(url: Option<string>, content: Option<string>)

  datatype FaqRow = FaqRow(question: string, answer: Option<string>, url: Option<string>)

  /** The non-key columns of an important-link row. */
  datatype LinkBody = LinkBody(url: string, labelText: Option<string>)

  /** A brand row together with every child row that references it. Child
      tables are keyed by their enumeration column; FAQs are a plain list;
      contacts carry no unique constraint, so nothing stops two rows of one
      type. */
  datatype BrandRecord = BrandRecord(
    id: nat,
    name: Option<string>,
    about: Option<string>,
    products: seq<ProductRow>,
    policies: seq<Row<PolicyType, PolicyBody>>,
    faqs: seq<FaqRow>,
    socials: seq<Row<SocialPlatform, string>>,
    contacts: seq<Row<ContactType, string>>,
    links: seq<Row<LinkType, LinkBody>>)

  /** The whole database: brands by their (unique, non-null) website url,
      the competitor pairs, and the next value of the id sequence. */
  datatype Store = Store(brands: map<string, BrandRecord>, competitors: set<(nat, nat)>, nextId: nat)

  function EmptyBrand(id: nat, name: Option<string>, about: Option<string>): (b: BrandRecord)
    ensures b.id == id && b.name == name && b.about == about
    ensures b.products == [] && b.policies == [] && b.faqs == []
    ensures b.socials == [] && b.contacts == [] && b.links == []
  {
    BrandRecord(id, name, about, [], [], [], [], [], [])
  }

  // ---------- constraints ----------

  /** The unique constraint a flush can violate, which aborts the
      transaction. */
  datatype IntegrityError =
    | DuplicateProductHandle  // uq_product_brand_handle
    | DuplicatePolicyType     // uq_policy_brand_type
    | DuplicateSocialPlatform // uq_social_brand_platform
    | DuplicateLinkType       // uq_link_brand_type

  /** `(brand_id, handle)` is unique. SQL treats NULLs as distinct, so only
      present handles take part, compared exactly as stored. */
  predicate UniqueHandles(rows: seq<ProductRow>) {
    forall i, j :: 0 <= i < j < |rows| && rows[i].handle.Some? && rows[j].handle.Some? ==>
      rows[i].handle.value != rows[j].handle.value
  }

  /** The unique constraints of one brand's child tables. */
  predicate RecordValid(b: BrandRecord) {
    && UniqueHandles(b.products)
    && UniqueKeys(b.policies)
    && UniqueKeys(b.socials)
    && UniqueKeys(b.links)
  }

  /** Brand ids come from the sequence, are distinct, and each brand's
      child tables meet their constraints. */
  predicate Valid(s: Store) {
    && (forall u :: u in s.brands ==> s.brands[u].id < s.nextId && RecordValid(s.brands[u]))
    && (forall u, v :: u in s.brands && v in s.brands && u != v ==> s.brands[u].id != s.brands[v].id)
  }

  predicate HasBrandId(s: Store, id: nat) {
    exists u :: u in s.brands && s.brands[u].id == id
  }

  /** Deleting a brand row. Its child rows are embedded in the record and go
      with it; both foreign keys of the competitor map cascade, so every pair
      that names the brand on either side goes too. */
  function DeleteBrand(s: Store, url: string): (r: Store)
    requires url in s.brands
    ensures r.brands.Keys == s.brands.Keys - {url}
    ensures forall u :: u in r.brands ==> r.brands[u] == s.brands[u]
    ensures forall p :: p in r.competitors <==>
      p in s.competitors && p.0 != s.brands[url].id && p.1 != s.brands[url].id
    ensures r.nextId == s.nextId
    ensures Valid(s) ==> Valid(r) && !HasBrandId(r, s.brands[url].id)
  {
    var id := s.brands[url].id;
    Store(s.brands - {url}, (set p | p in s.competitors && p.0 != id && p.1 != id :: p), s.nextId)
  }
}
