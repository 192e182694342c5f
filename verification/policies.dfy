/** The normaliser's policy pass (`_parse_policies`): the fetched privacy and
    refund texts, then shipping, terms and return placeholders, merged into
    an insertion-ordered dictionary keyed by policy type. */
module Policies {
  import opened Wrappers
  import opened Text
  import opened Urls
  import opened DbModels
  import opened Schemas

  predicate HasType(ps: seq<Policy>, t: PolicyType) {
    exists i :: 0 <= i < |ps| && ps[i].policyType == t
  }

  predicate TypesDistinct(ps: seq<Policy>) {
    forall i, j :: 0 <= i < j < |ps| ==> ps[i].policyType != ps[j].policyType
  }

  /** The first position holding type `t`. */
  function IndexOfType(ps: seq<Policy>, t: PolicyType): (r: Option<nat>)
    ensures r.Some? ==> r.value < |ps| && ps[r.value].policyType == t
    ensures r.Some? ==> forall k :: 0 <= k < r.value ==> ps[k].policyType != t
    ensures r.None? <==> !HasType(ps, t)
    decreases |ps|
  {
    if ps == [] then None
    else if ps[0].policyType == t then Some(0)
    else match IndexOfType(ps[1..], t)
      case Some(i) => Some(i + 1)
      case None =>
        assert forall i :: 1 <= i < |ps| ==> ps[i] == ps[1..][i - 1];
        None
  }

  /** One step of the merge: a new type takes the next slot; a type already
      held keeps its slot, and its entry is replaced only when the held one
      has no content and the new one has. */
  function MergeOne(acc: seq<Policy>, pol: Policy): (r: seq<Policy>)
    requires TypesDistinct(acc)
    ensures TypesDistinct(r)
    ensures forall t :: HasType(r, t) <==> HasType(acc, t) || t == pol.policyType
  {
    match IndexOfType(acc, pol.policyType)
    case Some(i) =>
      var r := if !Truthy(acc[i].content) && Truthy(pol.content) then acc[i := pol] else acc;
      assert forall k :: 0 <= k < |r| ==> r[k].policyType == acc[k].policyType;
      r
    case None =>
      var r := acc + [pol];
      assert forall k :: 0 <= k < |acc| ==> r[k] == acc[k];
      assert forall t :: HasType(r, t) ==> HasType(acc, t) || t == pol.policyType;
      assert HasType(r, pol.policyType) by {
        assert r[|acc|] == pol;
      }
      r
  }

  /** `merged` built in input order; `list(merged.values())`. */
  function DedupByType(ps: seq<Policy>): (r: seq<Policy>)
    ensures TypesDistinct(r)
    ensures forall t :: HasType(r, t) <==> HasType(ps, t)
    decreases |ps|
  {
    if ps == [] then []
    else
      var init := ps[..|ps| - 1];
      var last := ps[|ps| - 1];
      assert forall t :: HasType(ps, t) <==> HasType(init, t) || t == last.policyType by {
        assert forall k :: 0 <= k < |init| ==> init[k] == ps[k];
        assert ps[|ps| - 1] == last;
      }
      MergeOne(DedupByType(init), last)
  }

  // ---------- the reference definition of the merge ----------

  /** The first position holding type `t` with content. */
  function FirstWithContent(ps: seq<Policy>, t: PolicyType): (r: Option<nat>)
    ensures r.Some? ==> r.value < |ps| && ps[r.value].policyType == t && Truthy(ps[r.value].content)
    ensures r.Some? ==> forall k :: 0 <= k < r.value && ps[k].policyType == t ==> !Truthy(ps[k].content)
    ensures r.None? <==> forall k :: 0 <= k < |ps| && ps[k].policyType == t ==> !Truthy(ps[k].content)
    decreases |ps|
  {
    if ps == [] then None
    else if ps[0].policyType == t && Truthy(ps[0].content) then Some(0)
    else match FirstWithContent(ps[1..], t)
      case Some(i) =>
        assert forall k :: 1 <= k < |ps| ==> ps[k] == ps[1..][k - 1];
        Some(i + 1)
      case None =>
        assert forall k :: 1 <= k < |ps| ==> ps[k] == ps[1..][k - 1];
        None
  }

  /** The entry the merge should keep for type `t`: the first one with
      content, or the first one of that type when none has content. */
  function Preferred(ps: seq<Policy>, t: PolicyType): Option<Policy> {
    match FirstWithContent(ps, t)
    case Some(k) => Some(ps[k])
    case None =>
      match IndexOfType(ps, t)
      case Some(k) => Some(ps[k])
      case None => None
  }

  /** Where type `t` first occurs (`|ps|` when it does not). */
  function Rank(ps: seq<Policy>, t: PolicyType): nat {
    match IndexOfType(ps, t)
    case Some(k) => k
    case None => |ps|
  }

  /** `r` keeps, for each type, the preferred entry of `ps`, and lists the
      types in the order they first occur in `ps`. */
  predicate MergeFacts(ps: seq<Policy>, r: seq<Policy>) {
    && (forall i :: 0 <= i < |r| ==> Preferred(ps, r[i].policyType) == Some(r[i]) && r[i] in ps)
    && (forall i, j :: 0 <= i < j < |r| ==> Rank(ps, r[i].policyType) < Rank(ps, r[j].policyType))
  }

  /** The merge keeps the preferred entry of each type, in first-occurrence
      order. */
  lemma {:induction false} DedupPrefers(ps: seq<Policy>)
    ensures MergeFacts(ps, DedupByType(ps))
    decreases |ps|
  {
    if ps != [] {
      var init := ps[..|ps| - 1];
      var last := ps[|ps| - 1];
      assert init + [last] == ps;
      DedupPrefers(init);
      var a := DedupByType(init);
      assert DedupByType(ps) == MergeOne(a, last);
      MergePrefers(init, last, a);
    }
  }

  /** The merge step keeps the reference facts. */
  lemma MergePrefers(init: seq<Policy>, last: Policy, a: seq<Policy>)
    requires TypesDistinct(a) && forall t :: HasType(a, t) <==> HasType(init, t)
    requires MergeFacts(init, a)
    ensures MergeFacts(init + [last], MergeOne(a, last))
  {
    match IndexOfType(a, last.policyType)
    case Some(i) => MergeHeld(init, last, a, i);
    case None => MergeNew(init, last, a);
  }

  /** A type already held: its slot keeps the preferred entry. */
  lemma MergeHeld(init: seq<Policy>, last: Policy, a: seq<Policy>, i: nat)
    requires TypesDistinct(a) && forall t :: HasType(a, t) <==> HasType(init, t)
    requires MergeFacts(init, a)
    requires IndexOfType(a, last.policyType) == Some(i)
    ensures MergeFacts(init + [last], MergeOne(a, last))
  {
    var ps := init + [last];
    var r := MergeOne(a, last);
    var t := last.policyType;
    assert HasType(init, t) by {
      assert HasType(a, t);
    }
    HeldContent(init, a[i]);
    PreferredSnoc(init, last, t);
    RankSnoc(init, last, t);
    assert r == if !Truthy(a[i].content) && Truthy(last.content) then a[i := last] else a;
    forall k | 0 <= k < |a|
      ensures r[k].policyType == a[k].policyType
      ensures k != i ==> r[k] == a[k] && a[k].policyType != t
      ensures Preferred(ps, r[k].policyType) == Some(r[k]) && r[k] in ps
      ensures Rank(ps, r[k].policyType) == Rank(init, a[k].policyType)
    {
      assert HasType(a, a[k].policyType);
      if k != i {
        assert a[k].policyType != a[i].policyType;
        PreferredSnoc(init, last, a[k].policyType);
        RankSnoc(init, last, a[k].policyType);
        SnocHas(init, last, a[k]);
      } else {
        SnocHas(init, last, a[k]);
      }
    }
  }

  /** A new type: the entry goes to a new last slot. */
  lemma MergeNew(init: seq<Policy>, last: Policy, a: seq<Policy>)
    requires TypesDistinct(a) && forall t :: HasType(a, t) <==> HasType(init, t)
    requires MergeFacts(init, a)
    requires IndexOfType(a, last.policyType).None?
    ensures MergeFacts(init + [last], MergeOne(a, last))
  {
    var ps := init + [last];
    var r := MergeOne(a, last);
    var t := last.policyType;
    assert !HasType(init, t);
    assert r == a + [last];
    PreferredSnoc(init, last, t);
    RankSnoc(init, last, t);
    assert r[|a|] == last && last in ps;
    forall k | 0 <= k < |r|
      ensures Preferred(ps, r[k].policyType) == Some(r[k]) && r[k] in ps
    {
      if k < |a| {
        assert r[k] == a[k];
        NewKeepsOld(init, last, a, k);
      }
    }
    forall i, k | 0 <= i < k < |r|
      ensures Rank(ps, r[i].policyType) < Rank(ps, r[k].policyType)
    {
      assert r[i] == a[i];
      NewKeepsOld(init, last, a, i);
      if k < |a| {
        assert r[k] == a[k];
        NewKeepsOld(init, last, a, k);
      }
    }
  }

  /** ... and the entries held before keep their facts. */
  lemma NewKeepsOld(init: seq<Policy>, last: Policy, a: seq<Policy>, k: nat)
    requires forall t :: HasType(a, t) <==> HasType(init, t)
    requires MergeFacts(init, a)
    requires !HasType(init, last.policyType) && k < |a|
    ensures Preferred(init + [last], a[k].policyType) == Some(a[k]) && a[k] in init + [last]
    ensures Rank(init + [last], a[k].policyType) == Rank(init, a[k].policyType) < |init|
    ensures forall j :: 0 <= j < k ==> Rank(init + [last], a[j].policyType) < Rank(init + [last], a[k].policyType)
  {
    var t := a[k].policyType;
    assert HasType(a, t);
    assert t != last.policyType;
    PreferredSnoc(init, last, t);
    RankSnoc(init, last, t);
    SnocHas(init, last, a[k]);
    forall j | 0 <= j < k
      ensures Rank(init + [last], a[j].policyType) == Rank(init, a[j].policyType)
    {
      assert HasType(a, a[j].policyType);
      RankSnoc(init, last, a[j].policyType);
    }
  }

  lemma SnocHas(init: seq<Policy>, x: Policy, p: Policy)
    requires p in init
    ensures p in init + [x]
  {
  }

  /** The preferred entry held for a type has content exactly when some
      entry of that type has. */
  lemma HeldContent(init: seq<Policy>, p: Policy)
    requires Preferred(init, p.policyType) == Some(p)
    ensures Truthy(p.content) <==> FirstWithContent(init, p.policyType).Some?
  {
  }

  /** How one more entry changes the preferred entry of a type. */
  lemma PreferredSnoc(init: seq<Policy>, x: Policy, t: PolicyType)
    ensures Preferred(init + [x], t) ==
      if t != x.policyType then Preferred(init, t)
      else if FirstWithContent(init, t).Some? then Preferred(init, t)
      else if Truthy(x.content) then Some(x)
      else if HasType(init, t) then Preferred(init, t)
      else Some(x)
  {
    var ps := init + [x];
    IndexOfTypeSnoc(init, x, t);
    FirstWithContentSnoc(init, x, t);
    match FirstWithContent(init, t)
    case Some(k) =>
      assert ps[k] == init[k];
    case None =>
      if t == x.policyType && Truthy(x.content) {
        assert ps[|init|] == x;
      } else {
        match IndexOfType(init, t)
        case Some(k) =>
          assert ps[k] == init[k];
        case None =>
          if t == x.policyType {
            assert ps[|init|] == x;
          }
      }
  }

  /** How one more entry changes the first position of a type. */
  lemma RankSnoc(init: seq<Policy>, x: Policy, t: PolicyType)
    ensures Rank(init + [x], t) ==
      if HasType(init, t) then Rank(init, t) else if t == x.policyType then |init| else |init| + 1
  {
    IndexOfTypeSnoc(init, x, t);
  }

  lemma IndexOfTypeSnoc(init: seq<Policy>, x: Policy, t: PolicyType)
    ensures IndexOfType(init + [x], t) ==
      if HasType(init, t) then IndexOfType(init, t)
      else if x.policyType == t then Some(|init|)
      else None
  {
    var ps := init + [x];
    assert forall k :: 0 <= k < |init| ==> ps[k] == init[k];
    if HasType(init, t) {
      IndexOfTypeFirst(ps, t, IndexOfType(init, t).value);
    } else if x.policyType == t {
      assert ps[|init|] == x;
      IndexOfTypeFirst(ps, t, |init|);
    } else {
      assert ps[|init|] == x;
      assert !HasType(ps, t);
    }
  }

  /** The first position of a type is the one with no earlier entry of it. */
  lemma IndexOfTypeFirst(ps: seq<Policy>, t: PolicyType, k: nat)
    requires k < |ps| && ps[k].policyType == t
    requires forall j :: 0 <= j < k ==> ps[j].policyType != t
    ensures IndexOfType(ps, t) == Some(k)
  {
  }

  lemma FirstWithContentSnoc(init: seq<Policy>, x: Policy, t: PolicyType)
    ensures FirstWithContent(init + [x], t) ==
      if FirstWithContent(init, t).Some? then FirstWithContent(init, t)
      else if x.policyType == t && Truthy(x.content) then Some(|init|)
      else None
  {
    match FirstWithContent(init, t)
    case Some(k) => ContentEarlier(init, x, t, k);
    case None => ContentNotEarlier(init, x, t);
  }

  lemma ContentEarlier(init: seq<Policy>, x: Policy, t: PolicyType, k: nat)
    requires FirstWithContent(init, t) == Some(k)
    ensures FirstWithContent(init + [x], t) == Some(k)
  {
    var ps := init + [x];
    assert forall j :: 0 <= j <= k ==> ps[j] == init[j];
    FirstWithContentFirst(ps, t, k);
  }

  lemma ContentNotEarlier(init: seq<Policy>, x: Policy, t: PolicyType)
    requires FirstWithContent(init, t).None?
    ensures FirstWithContent(init + [x], t) ==
      if x.policyType == t && Truthy(x.content) then Some(|init|) else None
  {
    if x.policyType == t && Truthy(x.content) {
      ContentFirstAtEnd(init, x, t);
    } else {
      NoContentAfter(init, x, t);
    }
  }

  lemma ContentFirstAtEnd(init: seq<Policy>, x: Policy, t: PolicyType)
    requires FirstWithContent(init, t).None? && x.policyType == t && Truthy(x.content)
    ensures FirstWithContent(init + [x], t) == Some(|init|)
  {
    var ps := init + [x];
    forall j | 0 <= j < |init| && ps[j].policyType == t
      ensures !Truthy(ps[j].content)
    {
      assert ps[j] == init[j];
    }
    assert ps[|init|] == x;
    FirstWithContentFirst(ps, t, |init|);
  }

  lemma NoContentAfter(init: seq<Policy>, x: Policy, t: PolicyType)
    requires FirstWithContent(init, t).None? && !(x.policyType == t && Truthy(x.content))
    ensures FirstWithContent(init + [x], t).None?
  {
    var ps := init + [x];
    forall j | 0 <= j < |ps| && ps[j].policyType == t
      ensures !Truthy(ps[j].content)
    {
      if j < |init| {
        assert ps[j] == init[j];
      } else {
        assert ps[j] == x;
      }
    }
  }

  lemma FirstWithContentFirst(ps: seq<Policy>, t: PolicyType, k: nat)
    requires k < |ps| && ps[k].policyType == t && Truthy(ps[k].content)
    requires forall j :: 0 <= j < k && ps[j].policyType == t ==> !Truthy(ps[j].content)
    ensures FirstWithContent(ps, t) == Some(k)
  {
  }

  /** When every type arrives once, the merge changes nothing. */
  lemma {:induction false} DedupDistinct(ps: seq<Policy>)
    requires TypesDistinct(ps)
    ensures DedupByType(ps) == ps
    decreases |ps|
  {
    if ps != [] {
      var init := ps[..|ps| - 1];
      var last := ps[|ps| - 1];
      assert TypesDistinct(init);
      DedupDistinct(init);
      assert !HasType(init, last.policyType);
      assert init + [last] == ps;
    }
  }

  /** The pages `_parse_policies` proposes, before the merge, given their
      five urls. */
  function CandidateList(privacy: Option<string>, refund: Option<string>,
                         u1: string, u2: string, u3: string, u4: string, u5: string): seq<Policy> {
    (if Truthy(privacy) then [Policy(Privacy, Some(u1), privacy)] else [])
    + (if Truthy(refund) then [Policy(Refund, Some(u2), refund)] else [])
    + [Policy(Shipping, Some(u3), None), Policy(Terms, Some(u4), None), Policy(Return, Some(u5), None)]
  }

  /** The candidates, each url joined onto the base. */
  function Candidates(lib: UrlLib, base: string, privacy: Option<string>, refund: Option<string>): seq<Policy> {
    CandidateList(privacy, refund,
                  Join(lib, base, "/policies/privacy-policy"), Join(lib, base, "/policies/refund-policy"),
                  Join(lib, base, "/policies/shipping-policy"), Join(lib, base, "/policies/terms-of-service"),
                  Join(lib, base, "/policies/return-policy"))
  }

  /** The path under the base each policy type is looked for at. */
  function Slug(t: PolicyType): string {
    match t
    case Privacy => "/policies/privacy-policy"
    case Refund => "/policies/refund-policy"
    case Shipping => "/policies/shipping-policy"
    case Terms => "/policies/terms-of-service"
    case Return => "/policies/return-policy"
  }

  /** The place of each type in the order `_parse_policies` proposes them. */
  function CandidateRank(t: PolicyType): nat {
    match t
    case Privacy => 0
    case Refund => 1
    case Shipping => 2
    case Terms => 3
    case Return => 4
  }

  /** Every page sits at the url `at` gives its type, and the types come in
      proposal order. */
  predicate ShapedBy(r: seq<Policy>, at: PolicyType -> string) {
    && (forall i :: 0 <= i < |r| ==> r[i].url == Some(at(r[i].policyType)))
    && (forall i, j :: 0 <= i < j < |r| ==> CandidateRank(r[i].policyType) < CandidateRank(r[j].policyType))
  }

  /** Every page sits at its own type's path under the base, in proposal
      order. */
  predicate CandidateShape(lib: UrlLib, base: string, r: seq<Policy>) {
    ShapedBy(r, t => Join(lib, base, Slug(t)))
  }

  /** The url among five that belongs to type `t`. */
  function UrlAt(t: PolicyType, u1: string, u2: string, u3: string, u4: string, u5: string): string {
    match t
    case Privacy => u1
    case Refund => u2
    case Shipping => u3
    case Terms => u4
    case Return => u5
  }

  /** Ranks that rise at every step rise between any two positions. */
  lemma {:induction false} RankRises(c: seq<Policy>, i: nat, j: nat)
    requires forall k :: 0 <= k < |c| - 1 ==> CandidateRank(c[k].policyType) < CandidateRank(c[k + 1].policyType)
    requires i < j < |c|
    ensures CandidateRank(c[i].policyType) < CandidateRank(c[j].policyType)
    decreases j - i
  {
    if i + 1 < j {
      RankRises(c, i, j - 1);
    }
  }

  /** `c` is shaped by `at` once each page sits at its url and each step
      raises the rank. */
  lemma ShapedByStep(c: seq<Policy>, at: PolicyType -> string)
    requires forall i :: 0 <= i < |c| ==> c[i].url == Some(at(c[i].policyType))
    requires forall k :: 0 <= k < |c| - 1 ==> CandidateRank(c[k].policyType) < CandidateRank(c[k + 1].policyType)
    ensures ShapedBy(c, at)
  {
    forall i, j | 0 <= i < j < |c|
      ensures CandidateRank(c[i].policyType) < CandidateRank(c[j].policyType)
    {
      RankRises(c, i, j);
    }
  }

  lemma CandidateListShape(privacy: Option<string>, refund: Option<string>,
                           u1: string, u2: string, u3: string, u4: string, u5: string)
    ensures ShapedBy(CandidateList(privacy, refund, u1, u2, u3, u4, u5), t => UrlAt(t, u1, u2, u3, u4, u5))
  {
    var c := CandidateList(privacy, refund, u1, u2, u3, u4, u5);
    var p := Policy(Privacy, Some(u1), privacy);
    var f := Policy(Refund, Some(u2), refund);
    var s, t, e := Policy(Shipping, Some(u3), None), Policy(Terms, Some(u4), None), Policy(Return, Some(u5), None);
    if Truthy(privacy) && Truthy(refund) {
      assert c == [p, f, s, t, e];
    } else if Truthy(privacy) {
      assert c == [p, s, t, e];
    } else if Truthy(refund) {
      assert c == [f, s, t, e];
    } else {
      assert c == [s, t, e];
    }
    ShapedByStep(c, t => UrlAt(t, u1, u2, u3, u4, u5));
  }

  /** Two url choices that agree on every type shape a list alike. */
  lemma ShapedByAgree(r: seq<Policy>, at: PolicyType -> string, at2: PolicyType -> string)
    requires forall t :: at(t) == at2(t)
    requires ShapedBy(r, at)
    ensures ShapedBy(r, at2)
  {
  }

  lemma CandidatesShape(lib: UrlLib, base: string, privacy: Option<string>, refund: Option<string>)
    ensures CandidateShape(lib, base, Candidates(lib, base, privacy, refund))
  {
    var u1, u2, u3, u4, u5 := Join(lib, base, "/policies/privacy-policy"), Join(lib, base, "/policies/refund-policy"),
      Join(lib, base, "/policies/shipping-policy"), Join(lib, base, "/policies/terms-of-service"),
      Join(lib, base, "/policies/return-policy");
    var at := t => UrlAt(t, u1, u2, u3, u4, u5);
    CandidateListShape(privacy, refund, u1, u2, u3, u4, u5);
    forall t ensures at(t) == Join(lib, base, Slug(t)) {
      match t
      case Privacy =>
      case Refund =>
      case Shipping =>
      case Terms =>
      case Return =>
    }
    ShapedByAgree(Candidates(lib, base, privacy, refund), at, t => Join(lib, base, Slug(t)));
  }

  function Count(b: bool): nat {
    if b then 1 else 0
  }

  /** What a merged policy list promises about the fetched texts. */
  predicate PolicyFacts(r: seq<Policy>, privacy: Option<string>, refund: Option<string>) {
    && TypesDistinct(r)
    && |r| == 3 + Count(Truthy(privacy)) + Count(Truthy(refund))
    && (HasType(r, Privacy) <==> Truthy(privacy))
    && (HasType(r, Refund) <==> Truthy(refund))
    && HasType(r, Shipping) && HasType(r, Terms) && HasType(r, Return)
    && (forall i :: 0 <= i < |r| && r[i].policyType == Privacy ==> r[i].content == privacy)
    && (forall i :: 0 <= i < |r| && r[i].policyType == Refund ==> r[i].content == refund)
    && (forall i :: 0 <= i < |r| && r[i].policyType in {Shipping, Terms, Return} ==> r[i].content.None?)
    && (forall i :: 0 <= i < |r| ==> r[i].url.Some?)
  }

  /** Both texts fetched: five candidates. */
  lemma BothFacts(privacy: Option<string>, refund: Option<string>, p: Policy, f: Policy, s: Policy, t: Policy, e: Policy)
    requires Truthy(privacy) && Truthy(refund)
    requires p.policyType == Privacy && p.content == privacy && p.url.Some?
    requires f.policyType == Refund && f.content == refund && f.url.Some?
    requires s.policyType == Shipping && t.policyType == Terms && e.policyType == Return
    requires s.content.None? && t.content.None? && e.content.None?
    requires s.url.Some? && t.url.Some? && e.url.Some?
    ensures PolicyFacts([p, f, s, t, e], privacy, refund)
  {
    var c := [p, f, s, t, e];
    assert c[0] == p && c[1] == f && c[2] == s && c[3] == t && c[4] == e;
  }

  /** Only the privacy text fetched: four candidates. */
  lemma PrivacyFacts(privacy: Option<string>, refund: Option<string>, p: Policy, s: Policy, t: Policy, e: Policy)
    requires Truthy(privacy) && !Truthy(refund)
    requires p.policyType == Privacy && p.content == privacy && p.url.Some?
    requires s.policyType == Shipping && t.policyType == Terms && e.policyType == Return
    requires s.content.None? && t.content.None? && e.content.None?
    requires s.url.Some? && t.url.Some? && e.url.Some?
    ensures PolicyFacts([p, s, t, e], privacy, refund)
  {
    var c := [p, s, t, e];
    assert c[0] == p && c[1] == s && c[2] == t && c[3] == e;
  }

  /** Only the refund text fetched: four candidates. */
  lemma RefundFacts(privacy: Option<string>, refund: Option<string>, f: Policy, s: Policy, t: Policy, e: Policy)
    requires !Truthy(privacy) && Truthy(refund)
    requires f.policyType == Refund && f.content == refund && f.url.Some?
    requires s.policyType == Shipping && t.policyType == Terms && e.policyType == Return
    requires s.content.None? && t.content.None? && e.content.None?
    requires s.url.Some? && t.url.Some? && e.url.Some?
    ensures PolicyFacts([f, s, t, e], privacy, refund)
  {
    var c := [f, s, t, e];
    assert c[0] == f && c[1] == s && c[2] == t && c[3] == e;
  }

  /** Neither text fetched: the three placeholders. */
  lemma PlaceholderFacts(privacy: Option<string>, refund: Option<string>, s: Policy, t: Policy, e: Policy)
    requires !Truthy(privacy) && !Truthy(refund)
    requires s.policyType == Shipping && t.policyType == Terms && e.policyType == Return
    requires s.content.None? && t.content.None? && e.content.None?
    requires s.url.Some? && t.url.Some? && e.url.Some?
    ensures PolicyFacts([s, t, e], privacy, refund)
  {
    var c := [s, t, e];
    assert c[0] == s && c[1] == t && c[2] == e;
  }

  lemma CandidateListFacts(privacy: Option<string>, refund: Option<string>,
                            u1: string, u2: string, u3: string, u4: string, u5: string)
    ensures PolicyFacts(CandidateList(privacy, refund, u1, u2, u3, u4, u5), privacy, refund)
  {
    var c := CandidateList(privacy, refund, u1, u2, u3, u4, u5);
    var p := Policy(Privacy, Some(u1), privacy);
    var f := Policy(Refund, Some(u2), refund);
    var s := Policy(Shipping, Some(u3), None);
    var t := Policy(Terms, Some(u4), None);
    var e := Policy(Return, Some(u5), None);
    if Truthy(privacy) && Truthy(refund) {
      assert c == [p, f, s, t, e];
      BothFacts(privacy, refund, p, f, s, t, e);
    } else if Truthy(privacy) {
      assert c == [p, s, t, e];
      PrivacyFacts(privacy, refund, p, s, t, e);
    } else if Truthy(refund) {
      assert c == [f, s, t, e];
      RefundFacts(privacy, refund, f, s, t, e);
    } else {
      assert c == [s, t, e];
      PlaceholderFacts(privacy, refund, s, t, e);
    }
  }

  lemma CandidatesFacts(lib: UrlLib, base: string, privacy: Option<string>, refund: Option<string>)
    ensures PolicyFacts(Candidates(lib, base, privacy, refund), privacy, refund)
  {
    CandidateListFacts(privacy, refund,
                       Join(lib, base, "/policies/privacy-policy"), Join(lib, base, "/policies/refund-policy"),
                       Join(lib, base, "/policies/shipping-policy"), Join(lib, base, "/policies/terms-of-service"),
                       Join(lib, base, "/policies/return-policy"));
  }

  /** `_parse_policies`: since every candidate has its own type, the merge
      keeps them all, in order. */
  function ParsePolicies(lib: UrlLib, base: string, privacy: Option<string>, refund: Option<string>)
    : (r: seq<Policy>)
    ensures PolicyFacts(r, privacy, refund)
    ensures CandidateShape(lib, base, r)
    ensures r == Candidates(lib, base, privacy, refund)
  {
    var c := Candidates(lib, base, privacy, refund);
    CandidatesFacts(lib, base, privacy, refund);
    CandidatesShape(lib, base, privacy, refund);
    DedupDistinct(c);
    DedupByType(c)
  }
}
