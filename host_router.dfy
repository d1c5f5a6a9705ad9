/**
 * The host router run on every request (middleware.ts): it resolves a tenant
 * name from the request URL and `Host` header, decides whether the auth
 * gate must run, and either rewrites the path to `/s/<tenant><path>` or lets
 * the request through. The configured root domain is a parameter.
 */
module HostRouter {
  import opened Wrappers
  import opened JsStrings

  /** The parts of a request the router reads. `hostHeader` is `None` when the header is missing. */
  datatype Request = Request(url: string, hostHeader: Option<string>, pathname: string)

  /** What the middleware returns: the auth gate's rejection, a rewrite, or `NextResponse.next()`. */
  datatype Response = Rejected | Rewrite(target: string) | Next

  /** The response together with whether `auth.protect()` was invoked. */
  datatype Routing = Routing(gateInvoked: bool, response: Response)

  // ---------------------------------------------------------------------------
  // Subdomain extraction

  /** `s.split(":")[0]`: the text before the first colon, which drops a port. */
  function StripPort(s: string): (r: string)
    ensures StartsWith(s, r) && ':' !in r
    ensures r == s || s[|r|] == ':'
  {
    SplitPiecesLackChar(s, ':');
    SplitOn(s, ":")[0]
  }

  /** The hostname compared by every rule: the `Host` header, or "" when it is missing, without its port. */
  function Hostname(hostHeader: Option<string>): string {
    StripPort(hostHeader.GetOr(""))
  }

  /** The request is a local-development one: the URL contains `localhost` or `127.0.0.1`. */
  predicate IsLocalUrl(url: string) {
    Includes(url, "localhost") || Includes(url, "127.0.0.1")
  }

  /** `name` is a capture of `/http:\/\/([^.]+)\.localhost/` for a match starting at position `i`. */
  predicate LabelMatchesAt(url: string, i: nat, name: string) {
    i <= |url| && name != "" && '.' !in name && StartsWith(url[i..], "http://" + name + ".localhost")
  }

  /** The capture group of `/http:\/\/([^.]+)\.localhost/` for a match that starts at `i`, if one does. */
  function LocalUrlLabelAt(url: string, i: nat): Option<string>
    requires i <= |url|
  {
    var s := url[i..];
    if !StartsWith(s, "http://") then None
    else
      var rest := s[7..];
      var d := IndexOf(rest, ".");
      if d > 0 && StartsWith(rest[d..], ".localhost") then Some(rest[..d]) else None
  }

  /** Every capture computed at a position is a label the pattern matches there. */
  lemma LocalUrlLabelAtSound(url: string, i: nat)
    requires i <= |url|
    ensures LocalUrlLabelAt(url, i).Some? ==> LabelMatchesAt(url, i, LocalUrlLabelAt(url, i).value)
  {
    var s := url[i..];
    if StartsWith(s, "http://") {
      var rest := s[7..];
      var d := IndexOf(rest, ".");
      if d > 0 && StartsWith(rest[d..], ".localhost") {
        var l := rest[..d];
        forall k | 0 <= k < |l| ensures l[k] != '.' {
          assert rest[k..k + 1] == [l[k]];
          assert !OccursAt(rest, ".", k);
        }
        assert s == "http://" + rest;
        assert rest == l + rest[d..];
        assert rest[d..] == ".localhost" + rest[d + 10..];
        assert s == "http://" + l + ".localhost" + rest[d + 10..];
      }
    }
  }

  /** A label the pattern matches at a position is the capture computed there. */
  lemma LocalUrlLabelAtComplete(url: string, i: nat, name: string)
    requires LabelMatchesAt(url, i, name)
    ensures LocalUrlLabelAt(url, i) == Some(name)
  {
    var s := url[i..];
    var rest := s[7..];
    var after := rest[|name| + 1..];
    assert rest == name + ['.'] + after;
    IndexOfChar(name, '.', after);
    assert rest[|name|..] == ['.'] + after;
    assert rest[..|name|] == name;
  }

  /** The position of the leftmost match of `/http:\/\/([^.]+)\.localhost/` at or after `from`. */
  function FirstLocalUrlMatch(url: string, from: nat): (r: Option<nat>)
    requires from <= |url|
    ensures r.Some? ==> from <= r.value <= |url| && LocalUrlLabelAt(url, r.value).Some?
    ensures r.Some? ==> forall j :: from <= j < r.value ==> LocalUrlLabelAt(url, j).None?
    ensures r.None? ==> forall j :: from <= j <= |url| ==> LocalUrlLabelAt(url, j).None?
    decreases |url| - from
  {
    if LocalUrlLabelAt(url, from).Some? then Some(from)
    else if from == |url| then None
    else FirstLocalUrlMatch(url, from + 1)
  }

  /** `url.match(/http:\/\/([^.]+)\.localhost/)?.[1]` */
  function LocalUrlCapture(url: string): Option<string> {
    match FirstLocalUrlMatch(url, 0)
    case None => None
    case Some(i) => LocalUrlLabelAt(url, i)
  }

  /** A capture of the pattern is a non-empty label without dots. */
  lemma LocalUrlCaptureIsLabel(url: string)
    ensures LocalUrlCapture(url).Some? ==> LocalUrlCapture(url).value != "" && '.' !in LocalUrlCapture(url).value
  {
    if FirstLocalUrlMatch(url, 0).Some? {
      LocalUrlLabelAtSound(url, FirstLocalUrlMatch(url, 0).value);
    }
  }

  /** The local-development rules, in their order. */
  function LocalRule(url: string, hostname: string): (r: Option<string>)
    ensures r.Some? ==> '.' !in r.value
  {
    var m := LocalUrlCapture(url);
    LocalUrlCaptureIsLabel(url);
    SplitPiecesLackChar(hostname, '.');
    if m.Some? && m.value != "" then m
    else if Includes(hostname, ".localhost") then Some(SplitOn(hostname, ".")[0])
    else None
  }

  /** A preview-deployment hostname: it contains `---` and ends with `.vercel.app`. */
  predicate IsPreviewHost(hostname: string) {
    Includes(hostname, "---") && EndsWith(hostname, ".vercel.app")
  }

  /** The production rule, against the root domain without its port. */
  function ProductionRule(hostname: string, rootDomainFormatted: string): Option<string> {
    var isSubdomain :=
      hostname != rootDomainFormatted &&
      hostname != "www." + rootDomainFormatted &&
      EndsWith(hostname, "." + rootDomainFormatted);
    if isSubdomain then Some(ReplaceFirst(hostname, "." + rootDomainFormatted, "")) else None
  }

  /** `extractSubdomain`: the three rules in order, the first that applies deciding. */
  function ExtractSubdomain(url: string, hostHeader: Option<string>, rootDomain: string): Option<string> {
    var hostname := Hostname(hostHeader);
    if IsLocalUrl(url) then LocalRule(url, hostname)
    else
      var rootDomainFormatted := StripPort(rootDomain);
      if IsPreviewHost(hostname) then
        var parts := SplitOn(hostname, "---");
        if |parts| > 0 then Some(parts[0]) else None
      else ProductionRule(hostname, rootDomainFormatted)
  }

  // ---------------------------------------------------------------------------
  // Properties of subdomain extraction

  /** The hostname of a header with no colon, followed or not by a port. */
  lemma HostnameOfHeader(host: string, port: string)
    requires ':' !in host
    ensures Hostname(Some(host)) == host
    ensures Hostname(Some(host + ":" + port)) == host
  {
    IndexOfMissingChar(host, ':');
    IndexOfChar(host, ':', port);
    assert (host + ":" + port)[..|host|] == host;
  }

  /** A port on the `Host` header or on the root domain never changes the result. */
  lemma PortsIgnored(url: string, host: string, hostPort: string, rootDomain: string, rootPort: string)
    requires ':' !in host && ':' !in rootDomain
    ensures ExtractSubdomain(url, Some(host + ":" + hostPort), rootDomain)
         == ExtractSubdomain(url, Some(host), rootDomain)
    ensures ExtractSubdomain(url, Some(host), rootDomain + ":" + rootPort)
         == ExtractSubdomain(url, Some(host), rootDomain)
    ensures ExtractSubdomain(url, Some(host + ":" + hostPort), rootDomain + ":" + rootPort)
         == ExtractSubdomain(url, Some(host), rootDomain)
  {
    HostnameOfHeader(host, hostPort);
    HostnameOfHeader(rootDomain, rootPort);
  }

  /** A missing `Host` header behaves as an empty one, which has no tenant outside local development. */
  lemma MissingHostIsEmpty(url: string, rootDomain: string)
    ensures ExtractSubdomain(url, None, rootDomain) == ExtractSubdomain(url, Some(""), rootDomain)
    ensures !IsLocalUrl(url) ==> ExtractSubdomain(url, None, rootDomain) == None
  {
    HostnameOfHeader("", "");
    MissingCharNotIncluded("", "---", '-');
  }

  /** Outside local development, the root domain and its `www.` alias have no tenant (unless they are preview hosts). */
  lemma RootDomainHasNoTenant(url: string, hostHeader: Option<string>, rootDomain: string)
    requires !IsLocalUrl(url) && !IsPreviewHost(Hostname(hostHeader))
    requires Hostname(hostHeader) == StripPort(rootDomain) || Hostname(hostHeader) == "www." + StripPort(rootDomain)
    ensures ExtractSubdomain(url, hostHeader, rootDomain) == None
  {
  }

  /** `<name>.<root>` ends with `.<root>`. */
  lemma EndsWithRoot(name: string, root: string)
    ensures EndsWith(name + "." + root, "." + root)
  {
    assert name + "." + root == name + ("." + root);
    assert (name + ("." + root))[|name| + 1 + |root| - |"." + root|..] == "." + root;
  }

  /** `<name>.<root>` is not the `www.` alias unless the name is `www`. */
  lemma NotWwwAlias(name: string, root: string)
    requires name != "www"
    ensures name + "." + root != "www." + root
  {
    if |name| == 3 {
      assert (name + "." + root)[..3] == name;
      assert ("www." + root)[..3] == "www";
    }
  }

  /** Removing the first `.<root>` from `<name>.<root>`, for a dot-free name, leaves the name. */
  lemma RemoveRootSuffix(name: string, root: string)
    requires '.' !in name
    ensures ReplaceFirst(name + "." + root, "." + root, "") == name
  {
    var pat := "." + root;
    var hostname := name + pat;
    assert name + "." + root == hostname;
    assert hostname == name + pat + "";
    IndexOfAfter(name, pat, "");
    assert hostname[..|name|] == name;
    assert hostname[|name| + |pat|..] == "";
  }

  /** `<name>.<root>` with a dot-free name other than `www` passes the production rule and yields the name. */
  lemma ProductionTenant(name: string, root: string)
    requires '.' !in name && name != "www"
    ensures ProductionRule(name + "." + root, root) == Some(name)
  {
    EndsWithRoot(name, root);
    NotWwwAlias(name, root);
    RemoveRootSuffix(name, root);
  }

  /**
   * The production rule removes the first occurrence of `.<root>`, which is
   * not always the trailing one: for a dot-free `a`, `a.<root>b.<root>`
   * becomes `ab.<root>`.
   */
  lemma ProductionRemovesFirstOccurrence(a: string, b: string, root: string)
    requires '.' !in a
    requires a + "." + root + b + "." + root != "www." + root
    ensures ProductionRule(a + "." + root + b + "." + root, root) == Some(a + b + "." + root)
  {
    var pat := "." + root;
    var h := a + "." + root + b + "." + root;
    TwoOccurrences(a, b, root);
    RemoveFirstRootOccurrence(a, b + pat, root);
    assert ReplaceFirst(h, pat, "") == a + (b + pat);
    EndsWithRoot(a + "." + root + b, root);
    assert EndsWith(h, pat);
    ProductionRuleApplies(h, root);
  }

  /** Only re-associates the concatenations in `a.<root>b.<root>` and `ab.<root>`, for the solver. */
  lemma TwoOccurrences(a: string, b: string, root: string)
    ensures a + "." + root + b + "." + root == a + ("." + root) + (b + ("." + root))
    ensures a + "." + root + b + "." + root == a + "." + root + (b + ("." + root))
    ensures a + "." + root + b + "." + root == (a + "." + root + b) + "." + root
    ensures a + (b + ("." + root)) == a + b + "." + root
  {
  }

  /** A hostname other than the `www.` alias that ends with `.<root>` passes the `isSubdomain` test. */
  lemma ProductionRuleApplies(hostname: string, root: string)
    requires hostname != "www." + root && EndsWith(hostname, "." + root)
    ensures ProductionRule(hostname, root) == Some(ReplaceFirst(hostname, "." + root, ""))
  {
    assert |hostname| > |root|;
  }

  /** For a dot-free `a`, the first `.<root>` in `a.<root><rest>` is the one after `a`. */
  lemma RemoveFirstRootOccurrence(a: string, rest: string, root: string)
    requires '.' !in a
    ensures ReplaceFirst(a + "." + root + rest, "." + root, "") == a + rest
  {
    var pat := "." + root;
    var h := a + pat + rest;
    IndexOfAfter(a, pat, rest);
    assert h[..|a|] + "" + h[|a| + |pat|..] == a + rest by {
      assert h[..|a|] == a;
      assert h[|a| + |pat|..] == rest;
    }
    assert a + "." + root + rest == h;
  }

  // The concrete hosts in this and the following examples are written as
  // concatenations of their parts, the form the general lemmas they
  // instantiate take; a single literal would make the verifier evaluate
  // `IndexOf` on it character by character.

  /** `x.example.comy.example.com` under `example.com` yields `xy.example.com`, not `x.example.comy`. */
  lemma FirstOccurrenceExample()
    ensures ProductionRule("x" + "." + "example.com" + "y" + "." + "example.com", "example.com")
         == Some("x" + "y" + "." + "example.com")
  {
    assert "x" + "." + "example.com" + "y" + "." + "example.com" != "www." + "example.com" by {
      assert ("x" + "." + "example.com" + "y" + "." + "example.com")[0] == 'x';
    }
    ProductionRemovesFirstOccurrence("x", "y", "example.com");
  }

  /** Outside local development, `<name>.<root>` with a dot-free name other than `www` yields exactly that name. */
  lemma TenantOfRootDomain(url: string, name: string, rootDomain: string)
    requires !IsLocalUrl(url)
    requires '.' !in name && ':' !in name && name != "www"
    requires !IsPreviewHost(name + "." + StripPort(rootDomain))
    ensures ExtractSubdomain(url, Some(name + "." + StripPort(rootDomain)), rootDomain) == Some(name)
  {
    HostnameOfHeader(name + "." + StripPort(rootDomain), "");
    ProductionTenant(name, StripPort(rootDomain));
  }

  /** A hostname that ends with the root domain without a dot before it has no tenant. */
  lemma NoTenantWithoutDot(url: string, prefix: string, rootDomain: string)
    requires !IsLocalUrl(url)
    requires prefix != "" && prefix[|prefix| - 1] != '.' && ':' !in prefix
    requires !IsPreviewHost(prefix + StripPort(rootDomain))
    ensures ExtractSubdomain(url, Some(prefix + StripPort(rootDomain)), rootDomain) == None
  {
    var root := StripPort(rootDomain);
    var pat := "." + root;
    var hostname := prefix + root;
    HostnameOfHeader(hostname, "");
    if |pat| <= |hostname| {
      assert hostname[|hostname| - |pat|] == prefix[|prefix| - 1];
      assert hostname[|hostname| - |pat|..][0] == hostname[|hostname| - |pat|];
    }
    assert !EndsWith(hostname, pat);
  }

  /** `notexample.com` is not a tenant of `example.com`. */
  lemma NotExampleIsNoTenant(url: string)
    requires !IsLocalUrl(url)
    ensures ExtractSubdomain(url, Some("not" + "example.com"), "example.com") == None
  {
    MissingCharNotIncluded("not" + "example.com", "---", '-');
    HostnameOfHeader("example.com", "");
    NoTenantWithoutDot(url, "not", "example.com");
  }

  /** Outside local development a preview host yields the text before its first `---`, whatever the root domain. */
  lemma PreviewHostTenant(url: string, hostHeader: Option<string>, rootDomain: string)
    requires !IsLocalUrl(url) && IsPreviewHost(Hostname(hostHeader))
    ensures ExtractSubdomain(url, hostHeader, rootDomain).Some?
    ensures var t := ExtractSubdomain(url, hostHeader, rootDomain).value;
      StartsWith(Hostname(hostHeader), t + "---") && !Includes(t, "---")
    ensures var t := ExtractSubdomain(url, hostHeader, rootDomain).value;
      forall k :: 0 <= k < |t| ==> !OccursAt(Hostname(hostHeader), "---", k)
  {
    var h := Hostname(hostHeader);
    var i := IndexOf(h, "---");
    var t := h[..i];
    assert h[i..i + 3] == "---";
    assert h[..i + 3] == t + "---";
    forall k | 0 <= k && k + 3 <= |t| ensures !OccursAt(t, "---", k) {
      assert !OccursAt(h, "---", k);
      OccursInPrefix(h, "---", i, k);
    }
  }

  /** The hostname `<name>---<rest>.vercel.app`, for a name without a hyphen, is a preview host of tenant `name`. */
  lemma PreviewHostOf(url: string, name: string, rest: string, rootDomain: string)
    requires !IsLocalUrl(url)
    requires '-' !in name && ':' !in name + rest
    ensures ExtractSubdomain(url, Some(name + "---" + rest + ".vercel.app"), rootDomain) == Some(name)
  {
    var tail := rest + ".vercel.app";
    var h := name + "---" + rest + ".vercel.app";
    assert h == name + "---" + tail;
    assert ':' !in ".vercel.app";
    HostnameOfHeader(h, "");
    IndexOfAfter(name, "---", tail);
    EndsWithAppended(name + "---" + rest, ".vercel.app");
    assert h[..|name|] == name;
  }

  /**
   * Rule order: outside local development a preview host is resolved by the
   * preview rule before the production rule is consulted, so the root
   * domain makes no difference to it.
   */
  lemma PreviewBeforeProduction(url: string, hostHeader: Option<string>, rootDomain: string, otherRoot: string)
    requires !IsLocalUrl(url) && IsPreviewHost(Hostname(hostHeader))
    ensures ExtractSubdomain(url, hostHeader, rootDomain) == ExtractSubdomain(url, hostHeader, otherRoot)
    ensures ExtractSubdomain(url, hostHeader, rootDomain) == Some(SplitOn(Hostname(hostHeader), "---")[0])
  {
  }

  /**
   * `acme---x.vercel.app` is a preview host even under the root domain
   * `vercel.app`, where the production rule alone would yield `acme---x`
   * (`ProductionAnswerForPreviewHost`).
   */
  lemma PreviewBeforeProductionExample(url: string)
    requires !IsLocalUrl(url)
    ensures ExtractSubdomain(url, Some("acme---x.vercel.app"), "vercel.app") == Some("acme")
  {
    assert "acme---x.vercel.app" == "acme" + "---" + "x" + ".vercel.app";
    PreviewHostOf(url, "acme", "x", "vercel.app");
  }

  /** Under the root domain `vercel.app`, the production rule alone would take `acme---x.vercel.app` to `acme---x`. */
  lemma ProductionAnswerForPreviewHost()
    ensures ProductionRule("acme---x" + "." + "vercel.app", "vercel.app") == Some("acme---x")
  {
    var name := "acme---x";
    assert |name| == 8;
    assert forall k :: 0 <= k < |name| ==> name[k] != '.';
    ProductionTenant(name, "vercel.app");
  }

  /** `tenant---myapp-abc123.vercel.app` belongs to tenant `tenant`. */
  lemma PreviewHostExample(url: string, rootDomain: string)
    requires !IsLocalUrl(url)
    ensures ExtractSubdomain(url, Some("tenant---myapp-abc123.vercel.app"), rootDomain) == Some("tenant")
  {
    assert "tenant---myapp-abc123.vercel.app" == "tenant" + "---" + "myapp-abc123" + ".vercel.app";
    PreviewHostOf(url, "tenant", "myapp-abc123", rootDomain);
  }

  /** A preview host whose name begins with `---` yields the empty label. */
  lemma PreviewHostEmptyLabel(url: string, rest: string, rootDomain: string)
    requires !IsLocalUrl(url) && ':' !in rest
    ensures ExtractSubdomain(url, Some("---" + rest + ".vercel.app"), rootDomain) == Some("")
  {
    assert "---" + rest + ".vercel.app" == "" + "---" + rest + ".vercel.app";
    PreviewHostOf(url, "", rest, rootDomain);
  }

  // ---------------------------------------------------------------------------
  // Local development

  /** A URL without any dot has no `http://<label>.localhost` match. */
  lemma NoDotNoCapture(url: string)
    requires '.' !in url
    ensures LocalUrlCapture(url).None?
  {
    forall i | 0 <= i <= |url| ensures LocalUrlLabelAt(url, i).None? {
      var s := url[i..];
      if StartsWith(s, "http://") {
        assert '.' !in s[7..];
        IndexOfMissingChar(s[7..], '.');
      }
    }
  }

  /** `http://<name>.localhost...` with a non-empty dot-free name yields that name, whatever the host and root domain. */
  lemma LocalhostUrlTenant(name: string, rest: string, hostHeader: Option<string>, rootDomain: string)
    requires name != "" && '.' !in name
    ensures ExtractSubdomain("http://" + name + ".localhost" + rest, hostHeader, rootDomain) == Some(name)
  {
    var url := "http://" + name + ".localhost" + rest;
    assert OccursAt(url, "localhost", 7 + |name| + 1) by {
      assert url[8 + |name|..8 + |name| + 9] == "localhost";
    }
    assert url[0..] == url;
    LocalUrlLabelAtComplete(url, 0, name);
  }

  /**
   * The leftmost match of the pattern decides a local request, wherever in
   * the URL it starts: a URL in which `http://<name>.localhost` is first
   * matched at position `i` belongs to `name`, whatever the host and root
   * domain.
   */
  lemma LeftmostLocalUrlMatchDecides(url: string, i: nat, name: string, hostHeader: Option<string>, rootDomain: string)
    requires IsLocalUrl(url) && LabelMatchesAt(url, i, name)
    requires forall j :: 0 <= j < i ==> LocalUrlLabelAt(url, j).None?
    ensures ExtractSubdomain(url, hostHeader, rootDomain) == Some(name)
  {
    LocalUrlLabelAtComplete(url, i, name);
    assert FirstLocalUrlMatch(url, 0).value == i;
  }

  /** `http://acme.localhost:3000/x` belongs to tenant `acme`. */
  lemma LocalhostExample(hostHeader: Option<string>, rootDomain: string)
    ensures ExtractSubdomain("http://acme.localhost:3000/x", hostHeader, rootDomain) == Some("acme")
  {
    assert "http://acme.localhost:3000/x" == "http://" + "acme" + ".localhost" + ":3000/x";
    LocalhostUrlTenant("acme", ":3000/x", hostHeader, rootDomain);
  }

  /** Without a URL match, a local request takes the first dot-separated segment of a `.localhost` hostname, and otherwise has no tenant. */
  lemma LocalHostnameSegment(url: string, hostHeader: Option<string>, rootDomain: string)
    requires IsLocalUrl(url) && LocalUrlCapture(url).None?
    ensures var h := Hostname(hostHeader);
      Includes(h, ".localhost") ==>
        ExtractSubdomain(url, hostHeader, rootDomain).Some? &&
        var t := ExtractSubdomain(url, hostHeader, rootDomain).value;
        StartsWith(h, t + ".") && '.' !in t
    ensures !Includes(Hostname(hostHeader), ".localhost") ==> ExtractSubdomain(url, hostHeader, rootDomain) == None
  {
    var h := Hostname(hostHeader);
    if Includes(h, ".localhost") {
      var i := IndexOf(h, ".");
      assert OccursAt(h, ".", IndexOf(h, ".localhost")) by {
        var j := IndexOf(h, ".localhost");
        assert h[j..j + 10][..1] == h[j..j + 1];
      }
      var t := h[..i];
      assert h[..i + 1] == t + ".";
      forall k | 0 <= k < |t| ensures t[k] != '.' {
        assert h[k..k + 1] == [t[k]];
        assert !OccursAt(h, ".", k);
      }
    }
  }

  /** Local requests use only the local rules: the root domain, and with it the preview and production rules, is never consulted. */
  lemma LocalIgnoresRootDomain(url: string, hostHeader: Option<string>, rootDomain: string, otherRoot: string)
    requires IsLocalUrl(url)
    ensures ExtractSubdomain(url, hostHeader, rootDomain) == ExtractSubdomain(url, hostHeader, otherRoot)
  {
  }

  // ---------------------------------------------------------------------------
  // Routing decision

  /** `isPublicRoute`: `/sign-in(.*)`, `/sign-up(.*)` and `/(.*)`, each a fixed prefix followed by anything. */
  predicate IsPublicRoute(pathname: string) {
    StartsWith(pathname, "/sign-in") || StartsWith(pathname, "/sign-up") || StartsWith(pathname, "/")
  }

  /** No line terminator from position `from` to the end. */
  predicate NoLineTerminatorFrom(s: string, from: nat) {
    forall j :: from <= j < |s| ==> !IsLineTerminator(s[j])
  }

  /** `/\.(.*)$/` matches: some dot is followed only by characters `.` matches, up to the end. */
  predicate HasDotSuffix(pathname: string) {
    exists i :: 0 <= i < |pathname| && pathname[i] == '.' && NoLineTerminatorFrom(pathname, i + 1)
  }

  /** `isInternalAsset` */
  predicate IsInternalAsset(pathname: string) {
    StartsWith(pathname, "/_next") || StartsWith(pathname, "/api") || HasDotSuffix(pathname)
  }

  /** `!!subdomain`: a tenant is present when there is one and it is not empty. */
  predicate Present(subdomain: Option<string>) {
    subdomain.Some? && subdomain.value != ""
  }

  /** The middleware callback; `authPasses` is what `auth.protect()` would decide. */
  function Route(req: Request, rootDomain: string, authPasses: bool): Routing {
    var subdomain := ExtractSubdomain(req.url, req.hostHeader, rootDomain);
    var isProtected := !IsPublicRoute(req.pathname) || Present(subdomain);
    if isProtected && !authPasses then Routing(true, Rejected)
    else if Present(subdomain) && !IsInternalAsset(req.pathname) then
      Routing(isProtected, Rewrite("/s/" + subdomain.value + req.pathname))
    else Routing(isProtected, Next)
  }

  /** For a path without line terminators the dot pattern holds exactly when the path contains a dot, in any segment. */
  lemma HasDotSuffixIffDot(pathname: string)
    requires forall j :: 0 <= j < |pathname| ==> !IsLineTerminator(pathname[j])
    ensures HasDotSuffix(pathname) <==> '.' in pathname
  {
    if '.' in pathname {
      var i :| 0 <= i < |pathname| && pathname[i] == '.';
      assert NoLineTerminatorFrom(pathname, i + 1);
    }
  }

  /** A dot in a directory segment counts, and a dot followed by a line terminator does not. */
  lemma DotSuffixExamples()
    ensures HasDotSuffix("/a.b/c")
    ensures !HasDotSuffix("/x.css\n")
  {
    assert "/a.b/c"[2] == '.';
    assert NoLineTerminatorFrom("/a.b/c", 3);
    var p := "/x.css\n";
    forall i | 0 <= i < |p| && p[i] == '.' ensures !NoLineTerminatorFrom(p, i + 1) {
      assert IsLineTerminator(p[6]);
    }
  }

  /** Every pathname starts with `/`, so the auth gate runs exactly when a non-empty tenant was resolved. */
  lemma GateIffTenant(req: Request, rootDomain: string, authPasses: bool)
    requires StartsWith(req.pathname, "/")
    ensures Route(req, rootDomain, authPasses).gateInvoked
        <==> Present(ExtractSubdomain(req.url, req.hostHeader, rootDomain))
  {
  }

  /** The three outcomes of routing, with the exact rewrite target. */
  lemma RouteOutcomes(req: Request, rootDomain: string, authPasses: bool)
    ensures var sub := ExtractSubdomain(req.url, req.hostHeader, rootDomain);
      var r := Route(req, rootDomain, authPasses);
      (r.response == Rejected <==> r.gateInvoked && !authPasses) &&
      (r.response.Rewrite? <==>
         authPasses && Present(sub) && !StartsWith(req.pathname, "/_next") && !StartsWith(req.pathname, "/api")
         && !HasDotSuffix(req.pathname)) &&
      (r.response.Rewrite? ==> r.response.target == "/s/" + sub.value + req.pathname) &&
      (r.response == Next <==> (!r.gateInvoked || authPasses) && !(Present(sub) && !IsInternalAsset(req.pathname)))
  {
  }

  /** An empty tenant, such as a preview host starting with `---`, is treated as no tenant at all. */
  lemma EmptyTenantIsAbsent(req: Request, rootDomain: string, authPasses: bool)
    requires ExtractSubdomain(req.url, req.hostHeader, rootDomain) == Some("")
    requires StartsWith(req.pathname, "/")
    ensures Route(req, rootDomain, authPasses) == Routing(false, Next)
  {
  }

  /** End to end in production: a request to `<name>.<root>` runs the gate and, once it passes, is rewritten unless it is an internal asset. */
  lemma TenantRequest(url: string, name: string, root: string, pathname: string, authPasses: bool)
    requires !IsLocalUrl(url)
    requires name != "" && '.' !in name && ':' !in name && name != "www" && ':' !in root
    requires !IsPreviewHost(name + "." + root)
    ensures Route(Request(url, Some(name + "." + root), pathname), root, authPasses)
         == if !authPasses then Routing(true, Rejected)
            else if IsInternalAsset(pathname) then Routing(true, Next)
            else Routing(true, Rewrite("/s/" + name + pathname))
  {
    HostnameOfHeader(root, "");
    TenantOfRootDomain(url, name, root);
  }

  /** End to end in production: a request to the root domain or its `www.` alias has no tenant, runs no gate and passes through. */
  lemma RootRequest(url: string, host: string, root: string, pathname: string, authPasses: bool)
    requires !IsLocalUrl(url) && ':' !in root && StartsWith(pathname, "/")
    requires host == root || host == "www." + root
    requires !IsPreviewHost(host)
    ensures Route(Request(url, Some(host), pathname), root, authPasses) == Routing(false, Next)
  {
    HostnameOfHeader(root, "");
    HostnameOfHeader(host, "");
    RootDomainHasNoTenant(url, Some(host), root);
  }

  /** With root `example.com`, a request for `acme.example.com/generate` runs the gate and, once it passes, is dispatched to `/s/acme/generate`. */
  lemma TenantRequestRewritten(url: string)
    requires !IsLocalUrl(url)
    ensures Route(Request(url, Some("acme" + "." + "example.com"), "/generate"), "example.com", true)
         == Routing(true, Rewrite("/s/" + "acme" + "/generate"))
  {
    MissingCharNotIncluded("acme" + "." + "example.com", "---", '-');
    assert "/generate"[1] != '_' && "/generate"[2] != 'a';
    assert forall i | 0 <= i < |"/generate"| :: "/generate"[i] != '.';
    HasDotSuffixIffDot("/generate");
    TenantRequest(url, "acme", "example.com", "/generate", true);
  }

  /** The same request is rejected when the gate does not pass. */
  lemma TenantRequestRejected(url: string)
    requires !IsLocalUrl(url)
    ensures Route(Request(url, Some("acme" + "." + "example.com"), "/generate"), "example.com", false)
         == Routing(true, Rejected)
  {
    MissingCharNotIncluded("acme" + "." + "example.com", "---", '-');
    TenantRequest(url, "acme", "example.com", "/generate", false);
  }

  /** A static file under a tenant is not rewritten. */
  lemma TenantAssetNotRewritten(url: string)
    requires !IsLocalUrl(url)
    ensures Route(Request(url, Some("acme" + "." + "example.com"), "/logo.png"), "example.com", true)
         == Routing(true, Next)
  {
    MissingCharNotIncluded("acme" + "." + "example.com", "---", '-');
    assert "/logo.png"[5] == '.';
    assert NoLineTerminatorFrom("/logo.png", 6);
    TenantRequest(url, "acme", "example.com", "/logo.png", true);
  }

  /** A request for `example.com/pricing` has no tenant, runs no gate, and passes through unchanged. */
  lemma RootRequestPassesThrough(url: string, authPasses: bool)
    requires !IsLocalUrl(url)
    ensures Route(Request(url, Some("example" + "." + "com"), "/pricing"), "example" + "." + "com", authPasses)
         == Routing(false, Next)
  {
    var root := "example" + "." + "com";
    assert ':' !in root && '-' !in root;
    MissingCharNotIncluded(root, "---", '-');
    RootRequest(url, root, root, "/pricing", authPasses);
  }
}
