/** The URL authorisation rules of `WebSecurityConfig.configure(HttpSecurity)`
    (config/WebSecurityConfig.java): an ordered table of Ant-style matchers, tried
    in declared order, where the first rule that matches decides. */
module Authorization {
  import opened Wrappers

  /** Who is asking: an anonymous request, or an authenticated principal with
      its granted authorities. */
  datatype Principal = Anonymous | Authenticated(authorities: set<string>)

  // The shapes of pattern used in the table:
  // - AntExact(p): a pattern without wildcards ("/new");
  // - AntSegmentWildcard(p): p followed by "**" inside one path segment
  //   ("/login**"): p followed by characters other than '/';
  // - AntSubtree(p): p followed by "/**" ("/edit/**"): p itself or anything below it;
  // - AnyRequest: anyRequest().
  datatype Matcher =
    | AntExact(pattern: string)
    | AntSegmentWildcard(prefix: string)
    | AntSubtree(base: string)
    | AnyRequest

  /** `permitAll()`, `hasAnyAuthority(...)` / `hasAuthority(...)`, `authenticated()`. */
  datatype Access = PermitAll | HasAnyAuthority(required: set<string>) | IsAuthenticated

  /** One `antMatchers(...).<access>` line: any of its patterns selects it. */
  datatype Rule = Rule(matchers: seq<Matcher>, access: Access)

  datatype Decision = Permit | Deny

  predicate NoSlash(s: string) {
    forall k :: 0 <= k < |s| ==> s[k] != '/'
  }

  predicate MatcherMatches(m: Matcher, path: string) {
    match m
    case AntExact(p) => path == p
    case AntSegmentWildcard(p) => |p| <= |path| && path[..|p|] == p && NoSlash(path[|p|..])
    case AntSubtree(b) => path == b || (|b| < |path| && path[..|b|] == b && path[|b|] == '/')
    case AnyRequest => true
  }

  predicate RuleMatches(r: Rule, path: string) {
    exists k :: 0 <= k < |r.matchers| && MatcherMatches(r.matchers[k], path)
  }

  /** Rule `i` is the first rule of `rules` that matches `path`. */
  predicate FirstMatching(rules: seq<Rule>, path: string, i: int) {
    0 <= i < |rules| && RuleMatches(rules[i], path)
    && forall j :: 0 <= j < i ==> !RuleMatches(rules[j], path)
  }

  /** The first rule that matches, tried in declared order. */
  function FirstMatch(rules: seq<Rule>, path: string): (r: Option<nat>)
    ensures r.Some? ==> FirstMatching(rules, path, r.value)
    ensures r.None? ==> forall j :: 0 <= j < |rules| ==> !RuleMatches(rules[j], path)
  {
    if |rules| == 0 then None
    else if RuleMatches(rules[0], path) then Some(0)
    else match FirstMatch(rules[1..], path)
      case None => None
      case Some(k) =>
        assert forall j :: 1 <= j <= k ==> rules[j] == rules[1..][j - 1];
        Some(k + 1)
  }

  predicate Granted(a: Access, p: Principal) {
    match a
    case PermitAll => true
    case HasAnyAuthority(required) => p.Authenticated? && required * p.authorities != {}
    case IsAuthenticated => p.Authenticated?
  }

  /** The decision of a rule table. A request no rule matches is a public
      invocation, which the framework lets through; the table below ends in
      `anyRequest()`, so that never happens there. */
  function Decide(rules: seq<Rule>, path: string, p: Principal): Decision {
    match FirstMatch(rules, path)
    case Some(i) => if Granted(rules[i].access, p) then Permit else Deny
    case None => Permit
  }

  const Admin := "ADMIN"
  const Creator := "CREATOR"
  const Editor := "EDITOR"

  /** Lines 63-67, in order. */
  const Rules: seq<Rule> := [
    Rule([AntExact("/"), AntExact("/forgot_password"), AntExact("/reset_password"),
          AntSegmentWildcard("/login")], PermitAll),
    Rule([AntExact("/new")], HasAnyAuthority({Admin, Creator})),
    Rule([AntSubtree("/edit")], HasAnyAuthority({Admin, Editor})),
    Rule([AntSubtree("/delete")], HasAnyAuthority({Admin})),
    Rule([AnyRequest], IsAuthenticated)
  ]

  /** The decision for a request path (servlet path plus path info). */
  function Authorize(path: string, p: Principal): Decision {
    Decide(Rules, path, p)
  }

  /** Every request is governed by exactly one rule of the table: the first one
      that matches. */
  lemma ExactlyOneGoverningRule(path: string)
    ensures exists i :: FirstMatching(Rules, path, i)
    ensures forall i, j :: FirstMatching(Rules, path, i) && FirstMatching(Rules, path, j) ==> i == j
    ensures FirstMatch(Rules, path).Some?
  {
    assert MatcherMatches(Rules[4].matchers[0], path);
    assert RuleMatches(Rules[4], path);
    assert FirstMatch(Rules, path).Some?;
  }

  /** The decision of the governing rule is the decision of the table. */
  lemma FirstMatchDecides(rules: seq<Rule>, path: string, p: Principal, i: int)
    requires FirstMatching(rules, path, i)
    ensures Decide(rules, path, p) == if Granted(rules[i].access, p) then Permit else Deny
  {
    var r := FirstMatch(rules, path);
    assert r == Some(i);
  }

  /** Granting more authorities, or authenticating at all, never turns a permit
      into a deny, for any rule table. */
  lemma Monotonic(rules: seq<Rule>, path: string, granted: set<string>, more: set<string>)
    ensures Decide(rules, path, Authenticated(granted)) == Permit ==>
              Decide(rules, path, Authenticated(granted + more)) == Permit
    ensures Decide(rules, path, Anonymous) == Permit ==>
              Decide(rules, path, Authenticated(granted)) == Permit
  {
    match FirstMatch(rules, path)
    case None =>
    case Some(i) =>
      var a := rules[i].access;
      if a.HasAnyAuthority? && a.required * granted != {} {
        var x :| x in a.required * granted;
        assert x in a.required * (granted + more);
      }
  }

  /** "/", "/forgot_password", "/reset_password" and "/login" followed by
      anything without '/' are open to everyone, anonymous requests included. */
  lemma PublicPathsPermitted(p: Principal, rest: string)
    ensures Authorize("/", p) == Permit
    ensures Authorize("/forgot_password", p) == Permit
    ensures Authorize("/reset_password", p) == Permit
    ensures NoSlash(rest) ==> Authorize("/login" + rest, p) == Permit
  {
    assert MatcherMatches(Rules[0].matchers[0], "/");
    FirstMatchDecides(Rules, "/", p, 0);
    assert MatcherMatches(Rules[0].matchers[1], "/forgot_password");
    FirstMatchDecides(Rules, "/forgot_password", p, 0);
    assert MatcherMatches(Rules[0].matchers[2], "/reset_password");
    FirstMatchDecides(Rules, "/reset_password", p, 0);
    if NoSlash(rest) {
      var path := "/login" + rest;
      assert path[..6] == "/login" && path[6..] == rest;
      assert MatcherMatches(Rules[0].matchers[3], path);
      FirstMatchDecides(Rules, path, p, 0);
    }
  }

  /** "/new" needs ADMIN or CREATOR. */
  lemma NewNeedsAdminOrCreator(p: Principal)
    ensures Authorize("/new", p) == Permit <==>
              p.Authenticated? && (Admin in p.authorities || Creator in p.authorities)
  {
    NotPublic("/new");
    assert MatcherMatches(Rules[1].matchers[0], "/new");
    FirstMatchDecides(Rules, "/new", p, 1);
    if p.Authenticated? && (Admin in p.authorities || Creator in p.authorities) {
      var x := if Admin in p.authorities then Admin else Creator;
      assert x in {Admin, Creator} * p.authorities;
    }
  }

  /** The first character after the leading '/' tells the restricted paths from
      the public ones. */
  lemma NotPublic(path: string)
    requires |path| >= 2 && path[0] == '/' && path[1] != 'f' && path[1] != 'r' && path[1] != 'l'
    ensures !RuleMatches(Rules[0], path)
  {
    assert path != "/" && path != "/forgot_password" && path != "/reset_password" by {
      assert |path| >= 2;
      assert "/forgot_password"[1] == 'f' && "/reset_password"[1] == 'r';
    }
    if 6 <= |path| {
      assert path[..6][1] == path[1];
      assert path[..6] != "/login";
    }
  }

  /** "/edit" and everything below it need ADMIN or EDITOR; "/editor" is not below it. */
  lemma EditNeedsAdminOrEditor(p: Principal, rest: string)
    ensures Authorize("/edit", p) == Permit <==>
              p.Authenticated? && (Admin in p.authorities || Editor in p.authorities)
    ensures Authorize("/edit/" + rest, p) == Permit <==>
              p.Authenticated? && (Admin in p.authorities || Editor in p.authorities)
  {
    if p.Authenticated? && (Admin in p.authorities || Editor in p.authorities) {
      var x := if Admin in p.authorities then Admin else Editor;
      assert x in {Admin, Editor} * p.authorities;
    }
    NotPublic("/edit");
    assert MatcherMatches(Rules[2].matchers[0], "/edit");
    FirstMatchDecides(Rules, "/edit", p, 2);
    var path := "/edit/" + rest;
    assert path[..6] == "/edit/";
    NotPublic(path);
    assert path != "/new";
    assert path[..5] == "/edit" && path[5] == '/';
    assert MatcherMatches(Rules[2].matchers[0], path);
    FirstMatchDecides(Rules, path, p, 2);
  }

  /** "/delete" and everything below it need ADMIN; EDITOR or CREATOR alone are denied. */
  lemma DeleteNeedsAdmin(p: Principal, rest: string)
    ensures Authorize("/delete", p) == Permit <==> p.Authenticated? && Admin in p.authorities
    ensures Authorize("/delete/" + rest, p) == Permit <==> p.Authenticated? && Admin in p.authorities
    ensures Authorize("/delete/" + rest, Authenticated({Editor, Creator})) == Deny
  {
    NotPublic("/delete");
    assert "/delete"[..5] != "/edit";
    assert MatcherMatches(Rules[3].matchers[0], "/delete");
    FirstMatchDecides(Rules, "/delete", p, 3);
    var path := "/delete/" + rest;
    assert path[..8] == "/delete/";
    NotPublic(path);
    assert path != "/new";
    assert path[..5] != "/edit" by { assert path[..5][1] == 'd'; }
    assert path[..7] == "/delete" && path[7] == '/';
    assert MatcherMatches(Rules[3].matchers[0], path);
    FirstMatchDecides(Rules, path, p, 3);
    FirstMatchDecides(Rules, path, Authenticated({Editor, Creator}), 3);
    if p.Authenticated? && Admin in p.authorities {
      assert Admin in {Admin} * p.authorities;
    }
    assert {Admin} * {Editor, Creator} == {};
  }

  /** A path that none of the first four rules matches falls to `anyRequest()`
      and needs authentication only. */
  lemma GovernedByLastRule(path: string, p: Principal)
    requires !RuleMatches(Rules[0], path)
    requires !MatcherMatches(AntExact("/new"), path)
    requires !MatcherMatches(AntSubtree("/edit"), path)
    requires !MatcherMatches(AntSubtree("/delete"), path)
    ensures Authorize(path, p) == Permit <==> p.Authenticated?
  {
    assert MatcherMatches(Rules[4].matchers[0], path);
    FirstMatchDecides(Rules, path, p, 4);
  }

  /** Other paths need authentication only, including ones that merely contain
      or resemble a restricted pattern. */
  lemma OtherPathsNeedAuthentication(p: Principal)
    ensures Authorize("/editor", p) == Permit <==> p.Authenticated?
    ensures Authorize("/users/edit/5", p) == Permit <==> p.Authenticated?
    ensures Authorize("/products", p) == Permit <==> p.Authenticated?
    ensures Authorize("/new/", p) == Permit <==> p.Authenticated?
  {
    NotPublic("/editor");
    assert "/editor"[5] != '/' && "/editor"[..7] != "/delete";
    GovernedByLastRule("/editor", p);
    NotPublic("/users/edit/5");
    assert "/users/edit/5"[..5] != "/edit" && "/users/edit/5"[..7] != "/delete";
    GovernedByLastRule("/users/edit/5", p);
    NotPublic("/products");
    assert "/products"[..5] != "/edit" && "/products"[..7] != "/delete";
    GovernedByLastRule("/products", p);
    NotPublic("/new/");
    assert "/new/"[..5] != "/edit";
    GovernedByLastRule("/new/", p);
  }
}
