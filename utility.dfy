/** `Utility.getStaticSiteUrl` (util/Utility.java): the request URL with the
    servlet path removed by Java's `String.replace(target, "")`. */
module Utility {
  import opened Strings

  /** `s.replace(target, "")`: scans left to right and drops every
      non-overlapping occurrence of `target`. An empty target changes nothing
      (Java inserts the empty replacement between characters). */
  function RemoveAll(s: string, target: string): string
    decreases |s|
  {
    if |target| == 0 || |s| < |target| then s
    else if s[..|target|] == target then RemoveAll(s[|target|..], target)
    else [s[0]] + RemoveAll(s[1..], target)
  }

  /** How many occurrences the same scan removes. */
  function RemovedCount(s: string, target: string): nat
    decreases |s|
  {
    if |target| == 0 || |s| < |target| then 0
    else if s[..|target|] == target then 1 + RemovedCount(s[|target|..], target)
    else RemovedCount(s[1..], target)
  }

  /** `target` occurs in `s` at position `i`. */
  predicate OccursAt(target: string, s: string, i: int) {
    0 <= i && i + |target| <= |s| && s[i..i + |target|] == target
  }

  /** `target` occurs somewhere in `s` (`s.contains(target)`). */
  predicate Occurs(target: string, s: string) {
    exists i :: 0 <= i <= |s| && OccursAt(target, s, i)
  }

  /** `getStaticSiteUrl(request)`. */
  function GetStaticSiteUrl(requestUrl: string, servletPath: string): string {
    RemoveAll(requestUrl, servletPath)
  }

  /** The result is the input less `k` copies of the target, where `k` is the
      number of removed occurrences; so it is never longer than the input. */
  lemma {:induction false} RemoveAllLength(s: string, target: string)
    ensures |RemoveAll(s, target)| == |s| - RemovedCount(s, target) * |target|
    ensures |RemoveAll(s, target)| <= |s|
    decreases |s|
  {
    if |target| == 0 || |s| < |target| {
    } else if s[..|target|] == target {
      var tail := s[|target|..];
      RemoveAllLength(tail, target);
      var c, n := RemovedCount(tail, target), |target|;
      assert RemoveAll(s, target) == RemoveAll(tail, target);
      assert RemovedCount(s, target) == 1 + c;
      assert |tail| == |s| - n;
      OneMoreCopy(c, n);
    } else {
      RemoveAllLength(s[1..], target);
    }
  }

  /** Removing one more copy of length `n` after `c` copies. */
  lemma OneMoreCopy(c: nat, n: nat)
    ensures (1 + c) * n == n + c * n
    ensures 0 <= c * n
  {
  }

  /** An occurrence in a suffix of `s` is an occurrence in `s`. */
  lemma OccursInSuffix(target: string, s: string, d: nat, i: int)
    requires d <= |s| && OccursAt(target, s[d..], i)
    ensures OccursAt(target, s, i + d)
  {
    assert s[d..][i..i + |target|] == s[i + d..i + d + |target|];
  }

  /** An occurrence after the first position is an occurrence in the tail. */
  lemma OccursInTail(target: string, s: string, i: int)
    requires 1 <= i && OccursAt(target, s, i)
    ensures OccursAt(target, s[1..], i - 1)
  {
    assert s[1..][i - 1..i - 1 + |target|] == s[i..i + |target|];
  }

  /** Nothing is removed exactly when the (non-empty) target does not occur. */
  lemma {:induction false} NothingRemovedIffAbsent(s: string, target: string)
    requires |target| > 0
    ensures RemovedCount(s, target) == 0 <==> !Occurs(target, s)
    decreases |s|
  {
    if |s| < |target| {
    } else if s[..|target|] == target {
      assert OccursAt(target, s, 0);
    } else {
      NothingRemovedIffAbsent(s[1..], target);
      if Occurs(target, s[1..]) {
        var i :| OccursAt(target, s[1..], i);
        OccursInSuffix(target, s, 1, i);
      }
      if Occurs(target, s) {
        var i :| OccursAt(target, s, i);
        assert OccursAt(target, s, i);
        OccursInTail(target, s, i);
      }
    }
  }

  /** A URL in which the servlet path does not occur is returned unchanged. */
  lemma {:induction false} AbsentTargetUnchanged(s: string, target: string)
    requires !Occurs(target, s)
    ensures RemoveAll(s, target) == s
    decreases |s|
  {
    if |target| == 0 || |s| < |target| {
    } else {
      assert !OccursAt(target, s, 0);
      if Occurs(target, s[1..]) {
        var i :| OccursAt(target, s[1..], i);
        OccursInSuffix(target, s, 1, i);
      }
      AbsentTargetUnchanged(s[1..], target);
      assert s == [s[0]] + s[1..];
    }
  }

  /** An empty servlet path returns the URL unchanged. */
  lemma EmptyTargetUnchanged(s: string)
    ensures RemoveAll(s, "") == s
  {
  }

  /** Every copy is removed, not only the first: `k` back-to-back copies of the
      target vanish entirely. */
  function Repeat(t: string, k: nat): string {
    if k == 0 then [] else t + Repeat(t, k - 1)
  }

  lemma {:induction false} RemovesEveryCopy(t: string, k: nat, rest: string)
    requires |t| > 0
    ensures RemoveAll(Repeat(t, k) + rest, t) == RemoveAll(rest, t)
    ensures RemovedCount(Repeat(t, k) + rest, t) == k + RemovedCount(rest, t)
  {
    if k > 0 {
      var s := Repeat(t, k) + rest;
      assert s == t + (Repeat(t, k - 1) + rest);
      assert s[..|t|] == t;
      assert s[|t|..] == Repeat(t, k - 1) + rest;
      RemovesEveryCopy(t, k - 1, rest);
    } else {
      assert Repeat(t, k) + rest == rest;
    }
  }

  /** A prefix that lacks the target's second character is kept, and the copy
      of the target after it is removed (for paths like "/forgot_password":
      no 'f' in the prefix). */
  lemma CleanPrefixThenTarget(u: string, t: string, rest: string)
    requires |t| >= 2 && t[0] != t[1] && t[1] !in u
    ensures RemoveAll(u + t + rest, t) == u + RemoveAll(rest, t)
  {
    forall i | 0 <= i < |u|
      ensures !OccursAt(t, u + t + rest, i)
    {
    }
    SkipPrefix(u, t, rest);
    RemovesEveryCopy(t, 1, rest);
    assert Repeat(t, 1) + rest == t + rest;
  }

  /** A site URL followed by the servlet path loses exactly the servlet path,
      provided the path's second character does not occur in the site URL. */
  lemma TrailingServletPathRemoved(u: string, t: string)
    requires |t| >= 2 && t[0] != t[1] && t[1] !in u
    ensures RemoveAll(u + t, t) == u
  {
    CleanPrefixThenTarget(u, t, "");
    assert u + t + "" == u + t;
    assert u + RemoveAll("", t) == u;
  }

  /** The usual case: "http://h/app/forgot_password" without "/forgot_password"
      is the site URL "http://h/app". */
  lemma TypicalSiteUrl()
    ensures GetStaticSiteUrl("http://h/app/forgot_password", "/forgot_password") == "http://h/app"
  {
    assert "http://h/app" + "/forgot_password" == "http://h/app/forgot_password";
    TrailingServletPathRemoved("http://h/app", "/forgot_password");
  }

  /** A prefix in which no occurrence of the target starts is kept as it is. */
  lemma {:induction false} SkipPrefix(u: string, t: string, rest: string)
    requires |t| > 0
    requires forall i :: 0 <= i < |u| ==> !OccursAt(t, u + t + rest, i)
    ensures RemoveAll(u + t + rest, t) == u + RemoveAll(t + rest, t)
    decreases |u|
  {
    if |u| > 0 {
      var s := u + t + rest;
      assert !OccursAt(t, s, 0);
      assert s[0..|t|] == s[..|t|];
      assert s[..|t|] != t;
      assert RemoveAll(s, t) == [s[0]] + RemoveAll(s[1..], t);
      assert s[1..] == u[1..] + t + rest;
      forall i | 0 <= i < |u[1..]|
        ensures !OccursAt(t, u[1..] + t + rest, i)
      {
        if OccursAt(t, u[1..] + t + rest, i) {
          OccursInSuffix(t, s, 1, i);
        }
      }
      SkipPrefix(u[1..], t, rest);
      assert s[0] == u[0];
      assert [u[0]] + u[1..] == u;
    }
  }

  /** Removal is not idempotent: "aabb" without "ab" is "ab", which still
      contains "ab". */
  lemma NotIdempotent()
    ensures RemoveAll("aabb", "ab") == "ab"
    ensures RemoveAll(RemoveAll("aabb", "ab"), "ab") == ""
  {
  }

  /** A servlet path that also occurs between the site URL and a trailing
      copy of itself is cut out at both places. */
  lemma InteriorCopyRemoved(site: string, path: string, tail: string)
    requires |path| >= 2 && path[0] != path[1] && path[1] !in site && path[1] !in tail
    ensures GetStaticSiteUrl(site + path + tail + path, path) == site + tail
  {
    TrailingServletPathRemoved(tail, path);
    CleanPrefixThenTarget(site, path, tail + path);
    assert site + path + tail + path == site + path + (tail + path);
  }

  /** As written, a servlet path that also occurs inside the context path is
      cut out there too: "http://h/login-demo/login" with servlet path
      "/login" gives "http://h-demo" instead of "http://h/login-demo". */
  lemma InteriorServletPathAlsoRemoved()
    ensures GetStaticSiteUrl("http://h/login-demo/login", "/login") == "http://h-demo"
  {
    var site, path, tail := "http://h", "/login", "-demo";
    assert path[0] == '/' && path[1] == 'l';
    assert 'l' !in site;
    assert 'l' !in tail;
    InteriorCopyRemoved(site, path, tail);
    assert site + path + tail + path == "http://h/login-demo/login";
    assert site + tail == "http://h-demo";
  }

  /** The evidently intended site URL: the request URL with the servlet path
      taken off its end, and nothing else. */
  function SiteUrl(requestUrl: string, servletPath: string): (r: string)
    ensures r <= requestUrl
    ensures EndsWith(requestUrl, servletPath) ==> r + servletPath == requestUrl
    ensures !EndsWith(requestUrl, servletPath) ==> r == requestUrl
  {
    if EndsWith(requestUrl, servletPath) then requestUrl[..|requestUrl| - |servletPath|]
    else requestUrl
  }

  /** For every site URL and servlet path, the site URL is recovered from the
      request URL they make up. */
  lemma SiteUrlRecoversPrefix(siteUrl: string, servletPath: string)
    ensures SiteUrl(siteUrl + servletPath, servletPath) == siteUrl
  {
    var u := siteUrl + servletPath;
    assert u[|u| - |servletPath|..] == servletPath;
    assert u[..|u| - |servletPath|] == siteUrl;
  }

  /** The two agree on the example where the as-written code goes wrong only
      in the intended one. */
  lemma SiteUrlKeepsContextPath()
    ensures SiteUrl("http://h/login-demo/login", "/login") == "http://h/login-demo"
  {
    SiteUrlRecoversPrefix("http://h/login-demo", "/login");
    assert "http://h/login-demo" + "/login" == "http://h/login-demo/login";
  }
}
