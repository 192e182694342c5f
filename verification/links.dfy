/** The normaliser's important-link pass (`_parse_links`): each homepage
    link is classified by the first matching rule; the first link of each
    kind is kept, absolutised and labelled; a homepage link is added at the
    end when none was found. */
module Links {
  import opened Wrappers
  import opened Text
  import opened Urls
  import opened DbModels
  import opened Schemas
  import Faqs

  /** The rule chain of `_parse_links` on the lower-cased link `h`; `base` is
      the normalised base as given, so the homepage test compares a
      lower-cased link with a base that keeps its case. */
  function Classify(h: string, base: string): Option<LinkType> {
    if Contains(h, "order") && Contains(h, "track") then Some(OrderTracking)
    else if Contains(h, "/contact") || Contains(h, "/pages/contact") then Some(ContactUs)
    else if Contains(h, "/blog") then Some(Blog)
    else if Faqs.FaqShaped(h) then Some(LinkType.Faq)
    else if Contains(h, "/pages/about") || Contains(h, "/about") then Some(About)
    else if RStripSlash(h) == RStripSlash(base) then Some(Homepage)
    else None
  }

  /** None of the substring rules before the homepage test applies. */
  predicate NoSubstringRule(h: string) {
    && !(Contains(h, "order") && Contains(h, "track"))
    && !Contains(h, "/contact") && !Contains(h, "/pages/contact")
    && !Contains(h, "/blog")
    && !Faqs.FaqShaped(h)
    && !Contains(h, "/pages/about") && !Contains(h, "/about")
  }

  /** A link is order tracking exactly when it mentions both "order" and
      "track"; it is a homepage link exactly when no substring rule applies
      and it equals the base up to trailing slashes; it has no kind exactly
      when no rule applies at all; and the catch-all kind is never
      produced. */
  lemma ClassifySpec(h: string, base: string)
    ensures Classify(h, base) != Some(OtherLink)
    ensures Classify(h, base) == Some(OrderTracking) <==> Contains(h, "order") && Contains(h, "track")
    ensures Classify(h, base) == Some(ContactUs) <==>
      !(Contains(h, "order") && Contains(h, "track"))
      && (Contains(h, "/contact") || Contains(h, "/pages/contact"))
    ensures Classify(h, base) == Some(Blog) <==>
      !(Contains(h, "order") && Contains(h, "track"))
      && !Contains(h, "/contact") && !Contains(h, "/pages/contact")
      && Contains(h, "/blog")
    ensures Classify(h, base) == Some(LinkType.Faq) <==>
      !(Contains(h, "order") && Contains(h, "track"))
      && !Contains(h, "/contact") && !Contains(h, "/pages/contact")
      && !Contains(h, "/blog") && Faqs.FaqShaped(h)
    ensures Classify(h, base) == Some(About) <==>
      !(Contains(h, "order") && Contains(h, "track"))
      && !Contains(h, "/contact") && !Contains(h, "/pages/contact")
      && !Contains(h, "/blog") && !Faqs.FaqShaped(h)
      && (Contains(h, "/pages/about") || Contains(h, "/about"))
    ensures Classify(h, base) == Some(Homepage) <==> NoSubstringRule(h) && RStripSlash(h) == RStripSlash(base)
    ensures Classify(h, base).None? <==> NoSubstringRule(h) && RStripSlash(h) != RStripSlash(base)
  {
  }

  /** The kind of a link as written. */
  function Kind(base: string, href: string): Option<LinkType> {
    Classify(Lower(href), base)
  }

  function LabelOf(t: LinkType): string {
    match t
    case OrderTracking => "Order Tracking"
    case ContactUs => "Contact Us"
    case Blog => "Blog"
    case Faq => "FAQ"
    case About => "About"
    case Homepage => "Homepage"
    case OtherLink => "Other"
  }

  predicate HasLinkType(ls: seq<ImportantLink>, t: LinkType) {
    exists k :: 0 <= k < |ls| && ls[k].linkType == t
  }

  predicate LinkTypesDistinct(ls: seq<ImportantLink>) {
    forall k, l :: 0 <= k < l < |ls| ==> ls[k].linkType != ls[l].linkType
  }

  // ---------- the reference definition ----------

  /** `hrefs[i]` is the first link of kind `t`. */
  predicate IsFirst(base: string, hrefs: seq<string>, i: int, t: LinkType) {
    0 <= i < |hrefs| && Kind(base, hrefs[i]) == Some(t) &&
    forall j :: 0 <= j < i ==> Kind(base, hrefs[j]) != Some(t)
  }

  predicate Occurs(base: string, hrefs: seq<string>, t: LinkType) {
    exists i :: 0 <= i < |hrefs| && Kind(base, hrefs[i]) == Some(t)
  }

  /** The position of the first link of kind `t`, found front to back. */
  function FirstOfKind(base: string, hrefs: seq<string>, t: LinkType): (r: Option<nat>)
    ensures r.Some? ==> IsFirst(base, hrefs, r.value, t)
    ensures r.None? <==> !Occurs(base, hrefs, t)
    decreases |hrefs|
  {
    if hrefs == [] then None
    else if Kind(base, hrefs[0]) == Some(t) then Some(0)
    else
      assert forall i :: 1 <= i < |hrefs| ==> hrefs[i] == hrefs[1..][i - 1];
      match FirstOfKind(base, hrefs[1..], t)
      case Some(i) => Some(i + 1)
      case None => None
  }

  /** The link `_parse_links` records for the first link of kind `t`. */
  function LinkAt(lib: UrlLib, base: string, hrefs: seq<string>, i: nat, t: LinkType): ImportantLink
    requires i < |hrefs|
  {
    ImportantLink(t, Absolutize(lib, base, hrefs[i]), Some(LabelOf(t)))
  }

  /** What the scan of a link list promises: one entry per kind that occurs,
      built from that kind's first link, in order of those first links. */
  predicate ScanFacts(lib: UrlLib, base: string, hrefs: seq<string>, r: seq<ImportantLink>) {
    && LinkTypesDistinct(r)
    && (forall t :: HasLinkType(r, t) <==> Occurs(base, hrefs, t))
    && (forall k :: 0 <= k < |r| ==>
          FirstOfKind(base, hrefs, r[k].linkType).Some? &&
          r[k] == LinkAt(lib, base, hrefs, FirstOfKind(base, hrefs, r[k].linkType).value, r[k].linkType))
    && (forall k, l :: 0 <= k < l < |r| ==>
          FirstOfKind(base, hrefs, r[k].linkType).value < FirstOfKind(base, hrefs, r[l].linkType).value)
  }

  /** A first link stays first when more links follow it. */
  lemma FirstOfKindSnoc(base: string, hrefs: seq<string>, h: string, t: LinkType)
    ensures var ext := FirstOfKind(base, hrefs + [h], t);
      && (FirstOfKind(base, hrefs, t).Some? ==> ext == FirstOfKind(base, hrefs, t))
      && (FirstOfKind(base, hrefs, t).None? ==> (ext.Some? <==> Kind(base, h) == Some(t)))
      && (FirstOfKind(base, hrefs, t).None? && ext.Some? ==> ext.value == |hrefs|)
  {
    if FirstOfKind(base, hrefs, t).Some? {
      FirstKept(base, hrefs, h, t);
    } else {
      FirstAdded(base, hrefs, h, t);
    }
  }

  /** There is at most one first link of a kind. */
  lemma FirstUnique(base: string, hrefs: seq<string>, i: int, j: int, t: LinkType)
    requires IsFirst(base, hrefs, i, t) && IsFirst(base, hrefs, j, t)
    ensures i == j
  {
  }

  lemma FirstKept(base: string, hrefs: seq<string>, h: string, t: LinkType)
    requires FirstOfKind(base, hrefs, t).Some?
    ensures FirstOfKind(base, hrefs + [h], t) == FirstOfKind(base, hrefs, t)
  {
    var all := hrefs + [h];
    var i := FirstOfKind(base, hrefs, t).value;
    assert forall j :: 0 <= j <= i ==> all[j] == hrefs[j];
    assert IsFirst(base, all, i, t);
    FirstUnique(base, all, i, FirstOfKind(base, all, t).value, t);
  }

  lemma FirstAdded(base: string, hrefs: seq<string>, h: string, t: LinkType)
    requires FirstOfKind(base, hrefs, t).None?
    ensures var ext := FirstOfKind(base, hrefs + [h], t);
      (ext.Some? <==> Kind(base, h) == Some(t)) && (ext.Some? ==> ext.value == |hrefs|)
  {
    var all := hrefs + [h];
    assert forall j :: 0 <= j < |hrefs| ==> all[j] == hrefs[j];
    assert all[|hrefs|] == h;
    if Kind(base, h) == Some(t) {
      assert IsFirst(base, all, |hrefs|, t);
      FirstUnique(base, all, |hrefs|, FirstOfKind(base, all, t).value, t);
    } else {
      assert !Occurs(base, all, t);
    }
  }

  /** The first link of each kind in a prefix is found at the same place in
      any extension of it. */
  lemma FirstOfKindSnocAll(base: string, init: seq<string>, h: string)
    ensures forall t :: (FirstOfKind(base, init + [h], t) ==
      (if FirstOfKind(base, init, t).Some? then FirstOfKind(base, init, t)
       else if Kind(base, h) == Some(t) then Some(|init|) else None))
  {
    forall t: LinkType
      ensures FirstOfKind(base, init + [h], t) ==
        (if FirstOfKind(base, init, t).Some? then FirstOfKind(base, init, t)
         else if Kind(base, h) == Some(t) then Some(|init|) else None)
    {
      FirstOfKindSnoc(base, init, h, t);
    }
  }

  /** A link of no kind, or of a kind already recorded, leaves the scan as
      it was. */
  lemma ScanSkip(lib: UrlLib, base: string, init: seq<string>, h: string, acc: seq<ImportantLink>)
    requires ScanFacts(lib, base, init, acc)
    requires Kind(base, h).None? || HasLinkType(acc, Kind(base, h).value)
    ensures ScanFacts(lib, base, init + [h], acc)
  {
    var all := init + [h];
    FirstOfKindSnocAll(base, init, h);
    assert forall i :: 0 <= i < |init| ==> all[i] == init[i];
    assert all[|init|] == h;
    forall t
      ensures HasLinkType(acc, t) <==> Occurs(base, all, t)
    {
      assert FirstOfKind(base, all, t).None? <==> !Occurs(base, all, t);
    }
    forall k | 0 <= k < |acc|
      ensures FirstOfKind(base, all, acc[k].linkType) == FirstOfKind(base, init, acc[k].linkType)
      ensures acc[k] == LinkAt(lib, base, all, FirstOfKind(base, all, acc[k].linkType).value, acc[k].linkType)
    {
    }
  }

  /** A link of a new kind makes that kind occur, and no other. */
  lemma ScanAddTypes(lib: UrlLib, base: string, init: seq<string>, h: string, acc: seq<ImportantLink>, t: LinkType)
    requires ScanFacts(lib, base, init, acc)
    requires Kind(base, h) == Some(t) && !HasLinkType(acc, t)
    ensures forall u :: HasLinkType(acc + [LinkAt(lib, base, init + [h], |init|, t)], u) <==> Occurs(base, init + [h], u)
  {
    var all := init + [h];
    var r := acc + [LinkAt(lib, base, all, |init|, t)];
    FirstOfKindSnocAll(base, init, h);
    assert forall k :: 0 <= k < |acc| ==> r[k] == acc[k];
    assert r[|acc|].linkType == t;
    forall u
      ensures HasLinkType(r, u) <==> Occurs(base, all, u)
    {
      assert FirstOfKind(base, all, u).None? <==> !Occurs(base, all, u);
      assert FirstOfKind(base, init, u).None? <==> !Occurs(base, init, u);
      if HasLinkType(r, u) && u != t {
        var k :| 0 <= k < |r| && r[k].linkType == u;
        assert k < |acc|;
      }
    }
  }

  /** A link of a new kind leaves the recorded entries at their first
      links. */
  lemma ScanAddEntries(lib: UrlLib, base: string, init: seq<string>, h: string, acc: seq<ImportantLink>, t: LinkType)
    requires ScanFacts(lib, base, init, acc)
    requires Kind(base, h) == Some(t) && !HasLinkType(acc, t)
    ensures forall k :: 0 <= k < |acc| ==>
      && FirstOfKind(base, init + [h], acc[k].linkType) == FirstOfKind(base, init, acc[k].linkType)
      && FirstOfKind(base, init, acc[k].linkType).value < |init|
      && acc[k] == LinkAt(lib, base, init + [h], FirstOfKind(base, init + [h], acc[k].linkType).value, acc[k].linkType)
    ensures FirstOfKind(base, init + [h], t) == Some(|init|)
  {
    var all := init + [h];
    FirstOfKindSnocAll(base, init, h);
    assert forall i :: 0 <= i < |init| ==> all[i] == init[i];
    assert FirstOfKind(base, init, t).None?;
  }

  /** A link of a new kind is recorded at the end. */
  lemma ScanAdd(lib: UrlLib, base: string, init: seq<string>, h: string, acc: seq<ImportantLink>, t: LinkType)
    requires ScanFacts(lib, base, init, acc)
    requires Kind(base, h) == Some(t) && !HasLinkType(acc, t)
    ensures ScanFacts(lib, base, init + [h], acc + [LinkAt(lib, base, init + [h], |init|, t)])
  {
    var all := init + [h];
    var r := acc + [LinkAt(lib, base, all, |init|, t)];
    ScanAddTypes(lib, base, init, h, acc, t);
    ScanAddEntries(lib, base, init, h, acc, t);
    DistinctSnoc(acc, r[|acc|]);
    ScanAddFirsts(lib, base, init, h, acc, t);
  }

  /** Appending a link of a kind not yet present keeps the kinds distinct. */
  lemma DistinctSnoc(acc: seq<ImportantLink>, x: ImportantLink)
    requires LinkTypesDistinct(acc) && !HasLinkType(acc, x.linkType)
    ensures LinkTypesDistinct(acc + [x])
  {
    var r := acc + [x];
    forall k, l | 0 <= k < l < |r|
      ensures r[k].linkType != r[l].linkType
    {
      assert r[k] == acc[k];
      if l < |acc| {
        assert r[l] == acc[l];
      }
    }
  }

  /** After a link of a new kind, every entry sits at its kind's first
      link, in order of those links. */
  lemma ScanAddFirsts(lib: UrlLib, base: string, init: seq<string>, h: string, acc: seq<ImportantLink>, t: LinkType)
    requires ScanFacts(lib, base, init, acc)
    requires Kind(base, h) == Some(t) && !HasLinkType(acc, t)
    ensures var r := acc + [LinkAt(lib, base, init + [h], |init|, t)];
      && (forall k :: 0 <= k < |r| ==>
            FirstOfKind(base, init + [h], r[k].linkType).Some? &&
            r[k] == LinkAt(lib, base, init + [h], FirstOfKind(base, init + [h], r[k].linkType).value, r[k].linkType))
      && (forall k, l :: 0 <= k < l < |r| ==>
            FirstOfKind(base, init + [h], r[k].linkType).value < FirstOfKind(base, init + [h], r[l].linkType).value)
  {
    var all := init + [h];
    var r := acc + [LinkAt(lib, base, all, |init|, t)];
    ScanAddEntries(lib, base, init, h, acc, t);
    forall k | 0 <= k < |r|
      ensures FirstOfKind(base, all, r[k].linkType).Some?
      ensures r[k] == LinkAt(lib, base, all, FirstOfKind(base, all, r[k].linkType).value, r[k].linkType)
    {
      if k < |acc| {
        assert r[k] == acc[k];
      }
    }
    forall k, l | 0 <= k < l < |r|
      ensures FirstOfKind(base, all, r[k].linkType).value < FirstOfKind(base, all, r[l].linkType).value
    {
      assert r[k] == acc[k];
      if l < |acc| {
        assert r[l] == acc[l];
      }
    }
  }

  /** The loop of `_parse_links`: a link of a kind already seen is skipped. */
  function Scan(lib: UrlLib, base: string, hrefs: seq<string>): (r: seq<ImportantLink>)
    ensures ScanFacts(lib, base, hrefs, r)
    decreases |hrefs|
  {
    if hrefs == [] then []
    else
      var init := hrefs[..|hrefs| - 1];
      var h := hrefs[|hrefs| - 1];
      assert init + [h] == hrefs;
      var acc := Scan(lib, base, init);
      match Kind(base, h)
      case None =>
        ScanSkip(lib, base, init, h, acc);
        acc
      case Some(t) =>
        if HasLinkType(acc, t) then
          ScanSkip(lib, base, init, h, acc);
          acc
        else
          ScanAdd(lib, base, init, h, acc, t);
          acc + [LinkAt(lib, base, hrefs, |init|, t)]
  }

  function HomepageLink(lib: UrlLib, base: string): ImportantLink {
    ImportantLink(Homepage, Absolutize(lib, base, base), Some("Homepage"))
  }

  /** The homepage entry `_parse_links` ends up with: from the first link
      classified as the homepage, or else the base itself. */
  function HomepageEntry(lib: UrlLib, base: string, hrefs: seq<string>): ImportantLink {
    match FirstOfKind(base, hrefs, Homepage)
    case Some(i) => LinkAt(lib, base, hrefs, i, Homepage)
    case None => HomepageLink(lib, base)
  }

  /** `_parse_links`: the scan, plus the base itself as the homepage when no
      link was classified as one. */
  function ParseLinks(lib: UrlLib, base: string, hrefs: seq<string>): (r: seq<ImportantLink>)
    ensures LinkTypesDistinct(r)
    ensures HasLinkType(r, Homepage) && !HasLinkType(r, OtherLink)
    ensures forall t :: t != Homepage ==> (HasLinkType(r, t) <==> Occurs(base, hrefs, t))
    ensures forall k :: 0 <= k < |r| && r[k].linkType != Homepage ==>
      FirstOfKind(base, hrefs, r[k].linkType).Some? &&
      r[k] == LinkAt(lib, base, hrefs, FirstOfKind(base, hrefs, r[k].linkType).value, r[k].linkType)
    ensures forall k :: 0 <= k < |r| && r[k].linkType == Homepage ==> r[k] == HomepageEntry(lib, base, hrefs)
  {
    var s := Scan(lib, base, hrefs);
    forall i | 0 <= i < |hrefs|
      ensures Kind(base, hrefs[i]) != Some(OtherLink)
    {
      ClassifySpec(Lower(hrefs[i]), base);
    }
    if HasLinkType(s, Homepage) then s
    else
      ParseLinksAppend(lib, base, hrefs, s);
      s + [HomepageLink(lib, base)]
  }

  lemma ParseLinksAppend(lib: UrlLib, base: string, hrefs: seq<string>, s: seq<ImportantLink>)
    requires ScanFacts(lib, base, hrefs, s) && !HasLinkType(s, Homepage) && !Occurs(base, hrefs, OtherLink)
    ensures var r := s + [HomepageLink(lib, base)];
      && LinkTypesDistinct(r)
      && HasLinkType(r, Homepage) && !HasLinkType(r, OtherLink)
      && (forall t :: t != Homepage ==> (HasLinkType(r, t) <==> Occurs(base, hrefs, t)))
      && (forall k :: 0 <= k < |r| && r[k].linkType != Homepage ==>
            FirstOfKind(base, hrefs, r[k].linkType).Some? &&
            r[k] == LinkAt(lib, base, hrefs, FirstOfKind(base, hrefs, r[k].linkType).value, r[k].linkType))
      && (forall k :: 0 <= k < |r| && r[k].linkType == Homepage ==> r[k] == HomepageEntry(lib, base, hrefs))
  {
    var r := s + [HomepageLink(lib, base)];
    assert forall k :: 0 <= k < |s| ==> r[k] == s[k];
    assert r[|s|].linkType == Homepage;
    assert FirstOfKind(base, hrefs, Homepage).None?;
    forall t | t != Homepage
      ensures HasLinkType(r, t) <==> HasLinkType(s, t)
    {
      if HasLinkType(r, t) {
        var k :| 0 <= k < |r| && r[k].linkType == t;
        assert k < |s|;
      }
    }
  }

  /** At most one link per kind, and never the catch-all kind. */
  lemma ParseLinksBound(lib: UrlLib, base: string, hrefs: seq<string>)
    ensures |ParseLinks(lib, base, hrefs)| <= 6
  {
    var r := ParseLinks(lib, base, hrefs);
    KindsOfHas(r);
    KindsOfCard(r);
    KindsBound(KindsOf(r));
  }

  /** A set of kinds without the catch-all one has at most six members. */
  lemma KindsBound(ks: set<LinkType>)
    requires OtherLink !in ks
    ensures |ks| <= 6
  {
    var all := {OrderTracking, ContactUs, Blog, LinkType.Faq, About, Homepage};
    forall t | t in ks
      ensures t in all
    {
      assert t != OtherLink;
    }
    assert |all| == 6;
    SubsetCard(ks, all);
  }

  /** The kinds of a list of links. */
  function KindsOf(r: seq<ImportantLink>): set<LinkType>
    decreases |r|
  {
    if r == [] then {} else KindsOf(r[..|r| - 1]) + {r[|r| - 1].linkType}
  }

  /** `KindsOf` holds exactly the kinds that occur. */
  lemma {:induction false} KindsOfHas(r: seq<ImportantLink>)
    ensures forall t :: t in KindsOf(r) <==> HasLinkType(r, t)
    decreases |r|
  {
    if r != [] {
      var init := r[..|r| - 1];
      KindsOfHas(init);
      forall t
        ensures t in KindsOf(r) <==> HasLinkType(r, t)
      {
        if HasLinkType(r, t) && t != r[|r| - 1].linkType {
          var k :| 0 <= k < |r| && r[k].linkType == t;
          assert k < |init| && init[k].linkType == t;
        }
        if HasLinkType(init, t) {
          var k :| 0 <= k < |init| && init[k].linkType == t;
          assert r[k].linkType == t;
        }
      }
    }
  }

  /** With distinct kinds, `KindsOf` has one member per link. */
  lemma {:induction false} KindsOfCard(r: seq<ImportantLink>)
    requires LinkTypesDistinct(r)
    ensures |KindsOf(r)| == |r|
    decreases |r|
  {
    if r != [] {
      var init := r[..|r| - 1];
      assert forall k :: 0 <= k < |init| ==> init[k] == r[k];
      KindsOfCard(init);
      KindsOfHas(init);
      assert !HasLinkType(init, r[|r| - 1].linkType);
    }
  }

  lemma SubsetCard<T>(a: set<T>, b: set<T>)
    requires a <= b
    ensures |a| <= |b|
  {
    if a != {} {
      var x :| x in a;
      SubsetCard(a - {x}, b - {x});
    }
  }

  /** A lower-cased link without any of the letters 'r', 'c', 'b', 'f', 'g'
      matches none of the substring rules. */
  lemma LetterFreeNoRule(h: string)
    requires 'r' !in h && 'c' !in h && 'b' !in h && 'f' !in h && 'g' !in h
    ensures NoSubstringRule(h)
  {
    NoOrderContact(h);
    NoBlogFaqAbout(h);
  }

  /** Neither the order-tracking nor the contact rule applies to a link
      without 'r' and 'c'. */
  lemma NoOrderContact(h: string)
    requires 'r' !in h && 'c' !in h
    ensures !Contains(h, "order") && !Contains(h, "/contact") && !Contains(h, "/pages/contact")
  {
    ContainsChars(h, "order", 1);
    ContainsChars(h, "/contact", 1);
    ContainsChars(h, "/pages/contact", 7);
  }

  /** Neither the blog, FAQ nor about rule applies to a link without 'b',
      'f' and 'g'. */
  lemma NoBlogFaqAbout(h: string)
    requires 'b' !in h && 'f' !in h && 'g' !in h
    ensures !Contains(h, "/blog") && !Faqs.FaqShaped(h) && !Contains(h, "/pages/about") && !Contains(h, "/about")
  {
    ContainsChars(h, "/blog", 1);
    ContainsChars(h, "/faq", 1);
    ContainsChars(h, "/pages/faq", 3);
    ContainsChars(h, "/pages/faqs", 3);
    ContainsChars(h, "/pages/about", 3);
    ContainsChars(h, "/about", 2);
  }

  /** The homepage test lower-cases the link but not the base: with a base
      whose host has an upper-case letter, a link to the base itself is of
      no kind at all. */
  lemma MixedCaseBaseMissesHomepage()
    ensures Kind("http://A", "http://A") == None
  {
    var href := "http://A";
    LowerMixedCaseBase();
    LetterFreeNoRule("http://a");
    ClassifySpec("http://a", href);
    RStripSlashClean("http://a");
    RStripSlashClean(href);
  }

  lemma LowerMixedCaseBase()
    ensures Lower("http://A") == "http://a"
    ensures var h := "http://a"; 'r' !in h && 'c' !in h && 'b' !in h && 'f' !in h && 'g' !in h
  {
    var s := "http://A";
    assert Lower(s) == [LowerChar(s[0])] + Lower(s[1..]);
    assert Lower(s[7..]) == "a";
  }

  /** ... so the homepage entry falls back to the base. */
  lemma MixedCaseBaseFallsBack(lib: UrlLib)
    ensures ParseLinks(lib, "http://A", ["http://A"]) == [HomepageLink(lib, "http://A")]
  {
    MixedCaseBaseMissesHomepage();
    var hrefs := ["http://A"];
    assert hrefs[..0] == [];
    assert Scan(lib, "http://A", hrefs) == [];
  }
}
