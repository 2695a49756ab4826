/**
 * `validate_url`: a page URL is accepted when it matches, case-insensitively and from
 * its first character, `https://hanime.tv/videos/hentai/` followed by at least two
 * alphanumeric runs joined by `-`; the episode id is then the text after its last `/`.
 * The match is anchored at the start only, so anything may follow the slug.
 */
module Url {
  import opened Common

  const PagePrefix: string := "https://hanime.tv/videos/hentai/"

  /** Exit status of the process when the URL is rejected. */
  const InvalidUrlExitStatus: int := 0

  predicate IsAlnum(c: char) {
    'A' <= c <= 'Z' || 'a' <= c <= 'z' || '0' <= c <= '9'
  }

  function LowerAscii(c: char): char {
    if 'A' <= c <= 'Z' then (c as int - 'A' as int + 'a' as int) as char else c
  }

  /** The URL starts with the page prefix, ignoring ASCII case. */
  predicate HasPagePrefix(url: string) {
    |url| >= |PagePrefix| && forall i :: 0 <= i < |PagePrefix| ==> LowerAscii(url[i]) == PagePrefix[i]
  }

  /** Length of the alphanumeric run that starts `s`. */
  function AlnumRun(s: string): (n: nat)
    ensures n <= |s|
    ensures forall i :: 0 <= i < n ==> IsAlnum(s[i])
    ensures n < |s| ==> !IsAlnum(s[n])
  {
    if s == [] || !IsAlnum(s[0]) then 0 else 1 + AlnumRun(s[1..])
  }

  /** A prefix of `rest` matches the slug group: a run, a `-`, and another alphanumeric. */
  predicate SlugStarts(rest: string) {
    var n := AlnumRun(rest);
    0 < n && n + 1 < |rest| && rest[n] == '-' && IsAlnum(rest[n + 1])
  }

  predicate Matches(url: string) {
    HasPagePrefix(url) && SlugStarts(url[|PagePrefix|..])
  }

  /**
   * The whole of `s` is `[A-Za-z0-9]+(-[A-Za-z0-9]+)+`: alphanumerics and dashes,
   * at least one dash, no dash at either end and no two dashes in a row.
   */
  ghost predicate IsSlug(s: string) {
    && |s| >= 3
    && IsAlnum(s[0]) && IsAlnum(s[|s| - 1])
    && (forall i :: 0 <= i < |s| ==> IsAlnum(s[i]) || s[i] == '-')
    && (forall i :: 0 <= i < |s| - 1 && s[i] == '-' ==> s[i + 1] != '-')
    && (exists i :: 0 <= i < |s| && s[i] == '-')
  }

  /** `re.match` semantics: the slug test holds iff some prefix of the rest is a whole slug. */
  lemma SlugStartsIffSlugPrefix(rest: string)
    ensures SlugStarts(rest) <==> exists j :: 0 <= j <= |rest| && IsSlug(rest[..j])
  {
    var n := AlnumRun(rest);
    if SlugStarts(rest) {
      var s := rest[..n + 2];
      assert s[n] == '-';
      assert IsSlug(s);
    }
    if exists j :: 0 <= j <= |rest| && IsSlug(rest[..j]) {
      var j :| 0 <= j <= |rest| && IsSlug(rest[..j]);
      var s := rest[..j];
      var m := FirstDash(s);
      forall i | 0 <= i < m ensures IsAlnum(rest[i]) {
        assert s[i] == rest[i];
      }
      RunIs(rest, m);
      assert s[m + 1] == rest[m + 1];
    }
  }

  /** Index of the first `-` in a slug. */
  function FirstDash(s: string): (m: nat)
    requires IsSlug(s)
    ensures 0 < m < |s| - 1 && s[m] == '-'
    ensures forall i :: 0 <= i < m ==> IsAlnum(s[i])
  {
    var d :| 0 <= d < |s| && s[d] == '-';
    FirstDashFrom(s, 0, d)
  }

  function FirstDashFrom(s: string, i: nat, d: nat): (m: nat)
    requires IsSlug(s) && i <= d < |s| && s[d] == '-'
    requires forall k :: 0 <= k < i ==> IsAlnum(s[k])
    ensures 0 < m < |s| - 1 && s[m] == '-'
    ensures forall k :: 0 <= k < m ==> IsAlnum(s[k])
    decreases d - i
  {
    if s[i] == '-' then i else FirstDashFrom(s, i + 1, d)
  }

  lemma {:induction false} RunIs(s: string, m: nat)
    requires m < |s| && !IsAlnum(s[m])
    requires forall i :: 0 <= i < m ==> IsAlnum(s[i])
    ensures AlnumRun(s) == m
  {
    if m > 0 {
      RunIs(s[1..], m - 1);
    }
  }

  /** `url.split("/")[-1]`: the text after the last `/`, or all of it when there is none. */
  function LastComponent(s: string): (r: string)
    ensures '/' !in r
    ensures |r| <= |s| && r == s[|s| - |r|..]
    ensures |r| < |s| ==> s[|s| - |r| - 1] == '/'
  {
    if s == [] then []
    else if s[|s| - 1] == '/' then []
    else LastComponent(s[..|s| - 1]) + [s[|s| - 1]]
  }

  /** `validate_url`: the episode id, or the process exit with status 0. */
  function ValidateUrl(url: string): (r: Result<string, int>)
    ensures r.Err? <==> !Matches(url)
    ensures r.Err? ==> r.error == InvalidUrlExitStatus
    ensures r.Ok? ==> |r.value| < |url| && url[|url| - |r.value| - 1] == '/'
    ensures r.Ok? ==> r.value == url[|url| - |r.value|..] && '/' !in r.value
  {
    if !Matches(url) then Err(InvalidUrlExitStatus)
    else
      assert url[|PagePrefix| - 1] == '/' by {
        assert LowerAscii(url[|PagePrefix| - 1]) == '/';
      }
      Ok(LastComponent(url))
  }

  /** A prefix that equals the page prefix up to ASCII case. */
  predicate PrefixIgnoringCase(p: string) {
    |p| == |PagePrefix| && forall i :: 0 <= i < |p| ==> LowerAscii(p[i]) == PagePrefix[i]
  }

  /**
   * A URL that is the page prefix, in any ASCII case, followed by a slug is accepted,
   * and its id is the slug.
   */
  lemma ValidateSlugUrl(p: string, slug: string)
    requires PrefixIgnoringCase(p) && IsSlug(slug)
    ensures ValidateUrl(p + slug) == Ok(slug)
  {
    var url := p + slug;
    assert HasPagePrefix(url) by {
      assert forall i :: 0 <= i < |p| ==> url[i] == p[i];
    }
    assert SlugStarts(url[|PagePrefix|..]) by {
      assert url[|PagePrefix|..] == slug;
      assert slug[..|slug|] == slug;
      SlugStartsIffSlugPrefix(slug);
    }
    assert p[|p| - 1] == '/' by {
      assert LowerAscii(p[|p| - 1]) == '/';
    }
    assert '/' !in slug;
    LastAfterSlash(p, slug);
  }

  /** The last component of `a + b`, when `a` ends with `/` and `b` has none, is `b`. */
  lemma {:induction false} LastAfterSlash(a: string, b: string)
    requires |a| > 0 && a[|a| - 1] == '/' && '/' !in b
    ensures LastComponent(a + b) == b
  {
    if b == [] {
      assert a + b == a;
    } else {
      var b' := b[..|b| - 1];
      assert (a + b)[..|a + b| - 1] == a + b';
      LastAfterSlash(a, b');
      assert b == b' + [b[|b| - 1]];
    }
  }
}
