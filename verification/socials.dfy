/** The normaliser's social pass (`_parse_socials`): every (key, value) item
    of the social dictionary becomes one handle, its platform looked up by
    the trimmed, lower-cased key. Nothing is deduplicated. */
module Socials {
  import opened Text
  import opened DbModels
  import opened Schemas

  /** The keys of `platform_map`. */
  const KnownKeys: set<string> := {"instagram", "facebook", "tiktok", "twitter", "x", "youtube", "pinterest", "linkedin"}

  /** `platform_map.get(key, SocialPlatform.OTHER)`. */
  function PlatformOfKey(k: string): (p: SocialPlatform)
    ensures p == OtherPlatform <==> k !in KnownKeys
    ensures p == Twitter <==> k == "twitter" || k == "x"
    ensures p != OtherPlatform && k != "x" ==> k == p.Value()
  {
    if k == "instagram" then Instagram
    else if k == "facebook" then Facebook
    else if k == "tiktok" then TikTok
    else if k == "twitter" || k == "x" then Twitter
    else if k == "youtube" then YouTube
    else if k == "pinterest" then Pinterest
    else if k == "linkedin" then LinkedIn
    else OtherPlatform
  }

  /** The stored value of every platform maps back to that platform; for
      "other" this is the default of the lookup. */
  lemma PlatformValueRoundTrip(p: SocialPlatform)
    ensures PlatformOfKey(p.Value()) == p
  {
  }

  /** Two keys share a platform exactly when they are equal, are the two
      spellings of Twitter, or are both unknown. */
  lemma PlatformOfKeyCollision(a: string, b: string)
    ensures PlatformOfKey(a) == PlatformOfKey(b) <==>
      a == b || (a in {"twitter", "x"} && b in {"twitter", "x"}) || (a !in KnownKeys && b !in KnownKeys)
  {
    var pa := PlatformOfKey(a);
    var pb := PlatformOfKey(b);
    if pa == pb && pa != OtherPlatform && pa != Twitter {
      assert a == pa.Value() && b == pb.Value();
    }
  }

  /** `key.strip().lower()`. */
  function NormKey(k: string): string {
    Lower(Strip(k))
  }

  /** Normalising a normalised key changes nothing, so a key already in
      canonical form is looked up as it is. */
  lemma NormKeyIdempotent(k: string)
    ensures NormKey(NormKey(k)) == NormKey(k)
  {
    var s := Strip(k);
    StripLower(s);
    StripIdempotent(k);
    LowerIdempotent(s);
  }

  /** `_parse_socials`: one handle per item, in dictionary order. */
  function ParseSocials(items: seq<(string, string)>): (r: seq<SocialHandle>)
    ensures |r| == |items|
    ensures forall i :: 0 <= i < |r| ==> r[i].handleOrUrl == items[i].1
    ensures forall i :: 0 <= i < |r| ==> (r[i].platform == OtherPlatform <==> NormKey(items[i].0) !in KnownKeys)
    ensures forall i :: 0 <= i < |r| ==> r[i].platform == PlatformOfKey(NormKey(items[i].0))
  {
    seq(|items|, i requires 0 <= i < |items| => SocialHandle(PlatformOfKey(NormKey(items[i].0)), items[i].1))
  }

  predicate PlatformsDistinct(hs: seq<SocialHandle>) {
    forall i, j :: 0 <= i < j < |hs| ==> hs[i].platform != hs[j].platform
  }

  /** Two normalised keys that land on one platform. */
  predicate Clash(a: string, b: string) {
    a == b || (a in {"twitter", "x"} && b in {"twitter", "x"}) || (a !in KnownKeys && b !in KnownKeys)
  }

  /** The handles name each platform at most once exactly when no two keys
      clash after normalisation: a dictionary with both "twitter" and "x",
      or with two unknown keys, yields a repeated platform. */
  lemma ParseSocialsDistinctIff(items: seq<(string, string)>)
    ensures PlatformsDistinct(ParseSocials(items)) <==>
      forall i, j :: 0 <= i < j < |items| ==> !Clash(NormKey(items[i].0), NormKey(items[j].0))
  {
    var r := ParseSocials(items);
    forall i, j | 0 <= i < j < |items|
      ensures r[i].platform == r[j].platform <==> Clash(NormKey(items[i].0), NormKey(items[j].0))
    {
      PlatformOfKeyCollision(NormKey(items[i].0), NormKey(items[j].0));
    }
  }
}
