/** The parser's light HTML-to-text reduction (`_strip_html`): every
    `<[^>]+>` becomes a space, every whitespace run `\s+` becomes one space,
    and the ends are stripped. */
module Html {
  import opened Wrappers
  import opened Text

  predicate NoGt(s: string) {
    forall k :: 0 <= k < |s| ==> s[k] != '>'
  }

  predicate StartsWithGt(s: string) {
    |s| > 0 && s[0] == '>'
  }

  /** The pattern `<[^>]+>` occurs nowhere: every '<' is followed directly
      by '>' or by text without any '>'. */
  predicate TagFree(s: string)
    decreases |s|
  {
    s == [] || ((s[0] == '<' ==> StartsWithGt(s[1..]) || NoGt(s[1..])) && TagFree(s[1..]))
  }

  /** Whitespace appears only as single ' ' characters. */
  predicate SpaceNormal(s: string) {
    forall i :: 0 <= i < |s| && IsSpace(s[i]) ==> s[i] == ' ' && (i + 1 < |s| ==> !IsSpace(s[i + 1]))
  }

  /** Index of the first '>' of `s`. */
  function FirstGt(s: string): (r: Option<nat>)
    ensures r.Some? ==> r.value < |s| && s[r.value] == '>' && NoGt(s[..r.value])
    ensures r.None? <==> NoGt(s)
  {
    if s == [] then None
    else if s[0] == '>' then Some(0)
    else match FirstGt(s[1..])
      case Some(j) =>
        assert s[..j + 1] == [s[0]] + s[1..][..j];
        Some(j + 1)
      case None => None
  }

  /** `re.sub(r"<[^>]+>", " ", s)`: scanning left to right, a '<' that has a
      '>' later on with at least one character between them starts a match
      that ends at the first such '>'; any other character is kept. */
  function RemoveTags(s: string): (r: string)
    ensures TagFree(r)
    ensures NoGt(s) ==> NoGt(r)
    ensures StartsWithGt(s) ==> StartsWithGt(r)
    decreases |s|
  {
    if s == [] then []
    else if s[0] == '<' then
      match FirstGt(s)
      case Some(j) =>
        if j > 1 then " " + RemoveTags(s[j + 1..])
        else "<" + RemoveTags(s[1..])
      case None => "<" + RemoveTags(s[1..])
    else [s[0]] + RemoveTags(s[1..])
  }

  /** `re.sub(r"\s+", " ", s)`: every maximal whitespace run becomes ' '. */
  function Collapse(s: string): (r: string)
    ensures SpaceNormal(r)
    ensures |r| > 0 <==> |s| > 0
    ensures |s| > 0 ==> (IsSpace(r[0]) <==> IsSpace(s[0])) && (!IsSpace(s[0]) ==> r[0] == s[0])
    ensures NoGt(s) <==> NoGt(r)
    ensures TagFree(s) ==> TagFree(r)
    decreases |s|
  {
    if s == [] then []
    else if IsSpace(s[0]) then
      var rest := LStrip(s);
      LStripFacts(s);
      assert |rest| < |s|;
      TagFreeSuffix(s, |s| - |rest|);
      NoGtSuffixes(s, |s| - |rest|);
      NoGtCons(' ', Collapse(rest));
      " " + Collapse(rest)
    else
      NoGtCons(s[0], s[1..]);
      NoGtCons(s[0], Collapse(s[1..]));
      assert [s[0]] + s[1..] == s;
      [s[0]] + Collapse(s[1..])
  }

  lemma NoGtCons(c: char, t: string)
    ensures NoGt([c] + t) <==> c != '>' && NoGt(t)
  {
    var s := [c] + t;
    assert s[0] == c;
    assert forall k :: 0 <= k < |t| ==> s[k + 1] == t[k];
    if c != '>' && NoGt(t) {
      forall k | 0 <= k < |s|
        ensures s[k] != '>'
      {
        if k > 0 {
          assert s[k] == t[k - 1];
        }
      }
    }
  }

  /** Removing leading whitespace does not change whether '>' occurs. */
  lemma NoGtSuffixes(s: string, k: nat)
    requires k <= |s| && AllSpace(s[..k])
    ensures NoGt(s) <==> NoGt(s[k..])
  {
    forall i | 0 <= i < k
      ensures s[i] != '>'
    {
      assert s[..k][i] == s[i];
    }
    assert forall i :: k <= i < |s| ==> s[i] == s[k..][i - k];
  }

  lemma {:induction false} TagFreeSuffix(s: string, k: nat)
    requires k <= |s|
    ensures TagFree(s) ==> TagFree(s[k..])
    decreases k
  {
    if k > 0 && TagFree(s) {
      TagFreeSuffix(s[1..], k - 1);
      assert s[1..][k - 1..] == s[k..];
    }
  }

  lemma {:induction false} TagFreePrefix(s: string, n: nat)
    requires n <= |s| && TagFree(s)
    ensures TagFree(s[..n])
    decreases n
  {
    if n > 0 {
      TagFreePrefix(s[1..], n - 1);
      assert s[..n][1..] == s[1..][..n - 1];
      if s[0] == '<' && !StartsWithGt(s[1..]) {
        assert NoGt(s[..n][1..]);
      }
    }
  }

  lemma SpaceNormalInfix(s: string, r: string, i: nat)
    requires SpaceNormal(s) && OccursAt(s, r, i)
    ensures SpaceNormal(r)
  {
    forall k | 0 <= k < |r| && IsSpace(r[k])
      ensures r[k] == ' ' && (k + 1 < |r| ==> !IsSpace(r[k + 1]))
    {
      assert r[k] == s[i + k];
      if k + 1 < |r| {
        assert r[k + 1] == s[i + k + 1];
      }
    }
  }

  /** The text `_strip_html` produces from a non-empty input. */
  function CleanText(html: string): (t: string)
    ensures TagFree(t) && SpaceNormal(t)
    ensures |t| > 0 ==> !IsSpace(t[0]) && !IsSpace(t[|t| - 1])
  {
    var c := Collapse(RemoveTags(html));
    StripKeepsClean(c);
    Strip(c)
  }

  /** Stripping the ends keeps text tag-free and single-spaced. */
  lemma StripKeepsClean(c: string)
    requires TagFree(c) && SpaceNormal(c)
    ensures TagFree(Strip(c)) && SpaceNormal(Strip(c))
  {
    var l := LStrip(c);
    LStripFacts(c);
    RStripFacts(l);
    TagFreeSuffix(c, |c| - |l|);
    TagFreePrefix(l, |RStrip(l)|);
    StripOccurs(c);
    SpaceNormalInfix(c, Strip(c), |c| - |l|);
  }

  /** `_strip_html`: nothing for a missing or empty input. The result may be
      the empty string (markup with no text). */
  function StripHtml(html: Option<string>): (r: Option<string>)
    ensures r.Some? <==> Truthy(html)
    ensures r.Some? ==> TagFree(r.value) && SpaceNormal(r.value)
    ensures r.Some? && |r.value| > 0 ==> !IsSpace(r.value[0]) && !IsSpace(r.value[|r.value| - 1])
  {
    if Truthy(html) then Some(CleanText(html.value)) else None
  }

  /** Text without markup is left alone by the tag pass. */
  lemma {:induction false} RemoveTagsTagFree(s: string)
    requires TagFree(s)
    ensures RemoveTags(s) == s
    decreases |s|
  {
    if s != [] {
      RemoveTagsTagFree(s[1..]);
      if s[0] == '<' {
        assert FirstGt(s) == Some(1) || FirstGt(s).None?;
      }
    }
  }

  /** Normalised whitespace is left alone by the collapsing pass. */
  lemma {:induction false} CollapseNormal(s: string)
    requires SpaceNormal(s)
    ensures Collapse(s) == s
    decreases |s|
  {
    if s != [] {
      assert SpaceNormal(s[1..]) by {
        forall k | 0 <= k < |s[1..]| && IsSpace(s[1..][k])
          ensures s[1..][k] == ' ' && (k + 1 < |s[1..]| ==> !IsSpace(s[1..][k + 1]))
        {
          assert s[1..][k] == s[k + 1];
        }
      }
      CollapseNormal(s[1..]);
      if IsSpace(s[0]) {
        assert LStrip(s) == s[1..];
      }
    }
  }

  /** Reducing already reduced text changes nothing. */
  lemma CleanTextIdempotent(html: string)
    ensures CleanText(CleanText(html)) == CleanText(html)
  {
    CleanTextKeepsText(CleanText(html));
  }

  /** Text that is already tag-free, single-spaced and trimmed comes out of
      the reduction unchanged: the reduction keeps text, it only removes
      markup and surplus whitespace. */
  lemma CleanTextKeepsText(t: string)
    requires TagFree(t) && SpaceNormal(t)
    requires |t| > 0 ==> !IsSpace(t[0]) && !IsSpace(t[|t| - 1])
    ensures CleanText(t) == t
  {
    RemoveTagsTagFree(t);
    CollapseNormal(t);
    StripClean(t);
  }

  /** The text between an opening and a closing tag survives: each tag
      becomes a space and the stripping removes both. */
  lemma CleanTextBetweenTags(a: string, t: string, b: string)
    requires |a| > 0 && NoGt(a) && |b| > 0 && NoGt(b)
    requires forall k :: 0 <= k < |t| ==> t[k] != '<'
    requires SpaceNormal(t) && (|t| > 0 ==> !IsSpace(t[0]) && !IsSpace(t[|t| - 1]))
    ensures CleanText("<" + a + ">" + t + "<" + b + ">") == t
  {
    TagsBecomeSpaces(a, t, b);
    PaddedText(t);
  }

  /** The tag pass turns both tags into spaces and keeps the text. */
  lemma TagsBecomeSpaces(a: string, t: string, b: string)
    requires |a| > 0 && NoGt(a) && |b| > 0 && NoGt(b)
    requires forall k :: 0 <= k < |t| ==> t[k] != '<'
    ensures RemoveTags("<" + a + ">" + t + "<" + b + ">") == " " + t + " "
  {
    var close := "<" + b + ">";
    var s := "<" + a + ">" + (t + close);
    assert "<" + a + ">" + t + "<" + b + ">" == s;
    TextThenTag(t, b);
    RemoveTagsTag(a, t + close);
    assert RemoveTags(s) == " " + (t + " ");
    assert " " + (t + " ") == " " + t + " ";
  }

  /** Text followed by a closing tag: the text, then one space. */
  lemma TextThenTag(t: string, b: string)
    requires |b| > 0 && NoGt(b)
    requires forall k :: 0 <= k < |t| ==> t[k] != '<'
    ensures RemoveTags(t + ("<" + b + ">")) == t + " "
  {
    var close := "<" + b + ">";
    TagAlone(b);
    RemoveTagsPlain(t, close);
  }

  /** A tag on its own is one space. */
  lemma TagAlone(b: string)
    requires |b| > 0 && NoGt(b)
    ensures RemoveTags("<" + b + ">") == " "
  {
    RemoveTagsTag(b, []);
    assert "<" + b + ">" + [] == "<" + b + ">";
  }

  /** Collapsing and stripping a single-spaced, trimmed text padded with one
      space on each side gives the text back. */
  lemma PaddedText(t: string)
    requires SpaceNormal(t) && (|t| > 0 ==> !IsSpace(t[0]) && !IsSpace(t[|t| - 1]))
    ensures Strip(Collapse(" " + t + " ")) == t
  {
    if t == [] {
      assert " " + t + " " == "  ";
      assert Collapse("  ") == " " by {
        assert LStrip("  ") == [];
      }
      assert Strip(" ") == [];
    } else {
      PaddedNormal(t);
      CollapseNormal(" " + t + " ");
      PaddedStrip(t);
    }
  }

  lemma PaddedNormal(t: string)
    requires SpaceNormal(t) && Trimmed(t)
    ensures SpaceNormal(" " + t + " ")
  {
    var u := " " + t + " ";
    forall i | 0 <= i < |u| && IsSpace(u[i])
      ensures u[i] == ' ' && (i + 1 < |u| ==> !IsSpace(u[i + 1]))
    {
      if 0 < i < |u| - 1 {
        assert u[i] == t[i - 1];
        if i + 1 < |u| - 1 {
          assert u[i + 1] == t[i];
        }
      }
    }
  }

  lemma PaddedStrip(t: string)
    requires Trimmed(t)
    ensures Strip(" " + t + " ") == t
  {
    var u := " " + t + " ";
    assert LStrip(u) == t + " " by {
      assert u[1..] == t + " ";
    }
    assert RStrip(t + " ") == t by {
      assert (t + " ")[..|t|] == t;
    }
  }

  /** A piece without '<' passes the tag pass unchanged, whatever follows. */
  lemma {:induction false} RemoveTagsPlain(t: string, x: string)
    requires forall k :: 0 <= k < |t| ==> t[k] != '<'
    ensures RemoveTags(t + x) == t + RemoveTags(x)
    decreases |t|
  {
    if t != [] {
      var s := t + x;
      assert s[0] == t[0] && s[1..] == t[1..] + x;
      assert RemoveTags(s) == [t[0]] + RemoveTags(t[1..] + x);
      RemoveTagsPlain(t[1..], x);
      var r := RemoveTags(x);
      assert [t[0]] + (t[1..] + r) == ([t[0]] + t[1..]) + r;
      assert [t[0]] + t[1..] == t;
    } else {
      assert t + x == x;
    }
  }

  /** A tag `<a>` with a non-empty, '>'-free body becomes one space. */
  lemma RemoveTagsTag(a: string, x: string)
    requires |a| > 0 && NoGt(a)
    ensures RemoveTags("<" + a + ">" + x) == " " + RemoveTags(x)
  {
    var s := "<" + a + ">" + x;
    FirstGtAt(s, |a| + 1);
    assert s[|a| + 2..] == x;
  }

  /** The first '>' is the one with no '>' before it. */
  lemma {:induction false} FirstGtAt(s: string, n: nat)
    requires n < |s| && s[n] == '>' && NoGt(s[..n])
    ensures FirstGt(s) == Some(n)
    decreases n
  {
    if n > 0 {
      assert s[0] == s[..n][0];
      assert s[1..][..n - 1] == s[..n][1..];
      FirstGtAt(s[1..], n - 1);
    }
  }
}
