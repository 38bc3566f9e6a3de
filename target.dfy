/** The request shaping and hit decision of `scan_target`
    (GENSCAN.py:67-153). The DNS lookup and the HTTP transport are parameters:
    `resolves` answers whether a host name resolves, `send` gives the reply to
    a request. */
module Target {
  import opened Wrappers
  import opened Text
  import opened Pieces
  import opened Keyword
  import opened Mode
  import opened Inputs

  /** Seconds every request waits before giving up (`TIMEOUT`). */
  const Timeout: nat := 5

  /** `target.replace("SCAN", word.strip())`: the template's
      placeholder-separated pieces joined by the stripped word (an independent
      reference definition), of the length that implies, and the template
      itself when it has no placeholder. */
  function TargetUrl(target: string, word: string): (url: string)
    ensures url == Join(Split(target, Placeholder), Strip(word))
    ensures |url| + 4 * Count(target, Placeholder) == |target| + Count(target, Placeholder) * |Strip(word)|
    ensures !Contains(target, Placeholder) ==> url == target
  {
    var url := Replace(target, Placeholder, Strip(word));
    ReplaceIsJoinOfSplit(target, Placeholder, Strip(word));
    ReplaceLength(target, Placeholder, Strip(word));
    if Contains(target, Placeholder) then url
    else
      ReplaceAbsent(target, Placeholder, Strip(word));
      url
  }

  /** A template holding the placeholder once, with no other occurrence on
      either side, gets the word exactly there. */
  lemma TargetUrlSinglePlaceholder(a: string, b: string, word: string)
    requires !Contains(a, Placeholder) && !Contains(b, Placeholder)
    ensures TargetUrl(a + Placeholder + b, word) == a + Strip(word) + b
  {
    ReplaceSingle(a, b, Strip(word));
  }

  lemma ReplaceSingle(a: string, b: string, w: string)
    requires !Contains(a, Placeholder) && !Contains(b, Placeholder)
    ensures Replace(a + Placeholder + b, Placeholder, w) == a + w + b
  {
    var t := Placeholder + b;
    assert a + Placeholder + b == a + t;
    forall i | 0 <= i < |a| ensures !OccursAt(a + t, Placeholder, i) {
      PlaceholderNotAcross(a, b, i);
    }
    ReplaceNoMatch(a, t, Placeholder, w);
    ReplaceAtStart(Placeholder, b, w);
    ReplaceAbsent(b, Placeholder, w);
    assert a + (w + b) == a + w + b;
  }

  /** No occurrence of the placeholder starts inside a placeholder-free `a`
      in front of a placeholder: `SCAN` has no proper prefix that is also a
      suffix, and `S` occurs in it only at the start. */
  lemma PlaceholderNotAcross(a: string, b: string, i: nat)
    requires !Contains(a, Placeholder) && i < |a|
    ensures !OccursAt(a + (Placeholder + b), Placeholder, i)
  {
    var s := a + (Placeholder + b);
    if i + 4 <= |a| {
      assert !OccursAt(a, Placeholder, i);
      assert s[i..i + 4] == a[i..i + 4];
    } else {
      var k := |a| - i;
      assert s[|a|] == 'S';
      assert Placeholder[k] != 'S';
      assert !(i + 4 <= |s| && s[i..i + 4][k] == Placeholder[k]);
    }
  }

  function Last<T>(xs: seq<T>): T
    requires |xs| > 0
  {
    xs[|xs| - 1]
  }

  /** `target_url.split("//")[-1].split("/")[0]`: the host name looked up in
      subdomain mode. It never contains `/`. */
  function Domain(targetUrl: string): (d: string)
    ensures '/' !in d
  {
    var afterScheme := Last(Split(targetUrl, "//"));
    SplitPiecesFree(afterScheme, '/', []);
    Split(afterScheme, "/")[0]
  }

  /** For `scheme//host/path` (or `scheme//host`) the domain is the host. */
  lemma DomainOfUrl(scheme: string, host: string, path: string)
    requires '/' !in scheme && '/' !in host
    requires path == [] || (path[0] == '/' && !Contains(path, "//"))
    ensures Domain(scheme + "//" + host + path) == host
  {
    var hp := host + path;
    assert !Contains(hp, "//") by {
      if path == [] {
        AbsentFirstChar(hp, "//");
      } else {
        NoOccurrenceAcross(host, path, "//");
      }
    }
    var u := scheme + "//" + host + path;
    assert u == scheme + ("//" + hp);
    SplitSkip(scheme, "//" + hp, "//", []);
    assert [] + scheme == scheme;
    assert "//" <= "//" + hp && ("//" + hp)[2..] == hp;
    assert SplitFrom("//" + hp, "//", scheme) == [scheme] + SplitFrom(hp, "//", []);
    SplitNone(hp, "//", []);
    assert [] + hp == hp;
    assert Split(u, "//") == [scheme, hp];
    assert Last(Split(u, "//")) == hp;
    SplitSkip(host, path, "/", []);
    assert [] + host == host;
    assert Split(hp, "/") == SplitFrom(path, "/", host);
    if path != [] {
      assert "/" <= path;
    }
  }

  /** `//` does not occur in `host + path` when `host` has no `/` and `path`
      has no `//`. */
  lemma NoOccurrenceAcross(host: string, path: string, sep: string)
    requires sep == "//" && '/' !in host && !Contains(path, sep)
    ensures !Contains(host + path, sep)
  {
    var s := host + path;
    forall i | 0 <= i <= |s| - 2 ensures !OccursAt(s, sep, i) {
      if i < |host| {
        assert s[i] == host[i] != '/';
      } else {
        assert !OccursAt(path, sep, i - |host|);
        assert s[i..i + 2] == path[i - |host|..i - |host| + 2];
      }
    }
  }

  /** The directory base URL (GENSCAN.py:96-98): every placeholder removed,
      and a `/` appended only when the result does not already end in one. */
  function BaseUrl(target: string): (b: string)
    ensures EndsWith(b, "/")
    ensures b == Replace(target, Placeholder, "") || b == Replace(target, Placeholder, "") + "/"
    ensures b == Replace(target, Placeholder, "") <==> EndsWith(Replace(target, Placeholder, ""), "/")
  {
    var stripped := Replace(target, Placeholder, "");
    if EndsWith(stripped, "/") then stripped else stripped + "/"
  }

  /** Removing the placeholder from the ending `/SCAN` leaves `/`. */
  lemma BareEnding()
    ensures Replace("/SCAN", Placeholder, "") == "/"
  {
    assert "SCAN"[4..] == [];
    assert Replace("SCAN", Placeholder, "") == [];
    assert "/SCAN"[1..] == "SCAN";
  }

  /** Removing the placeholder from the ending `/SCAN/` leaves `//`. */
  lemma SlashEnding()
    ensures Replace("/SCAN/", Placeholder, "") == "//"
  {
    assert Replace("/", Placeholder, "") == "/";
    assert "SCAN/"[4..] == "/";
    assert Replace("SCAN/", Placeholder, "") == "/";
    assert "/SCAN/"[1..] == "SCAN/";
  }

  /** A template `p/SCAN` yields the base `p'/`, where `p'` is `p` without
      placeholders: exactly one slash before the word is joined on. */
  lemma DirectoryBaseBare(p: string)
    ensures BaseUrl(p + "/SCAN") == Replace(p, Placeholder, "") + "/"
  {
    var q := Replace(p, Placeholder, "");
    var t := p + "/SCAN";
    BareEnding();
    ReplaceConcat(p, "/SCAN", Placeholder, "");
    assert Replace(t, Placeholder, "") == q + "/";
    assert (q + "/")[|q + "/"| - 1..] == "/";
    assert EndsWith(Replace(t, Placeholder, ""), "/");
  }

  /** A template `p/SCAN/` yields the base `p'//`: the slash after the
      placeholder stays, so `base_url` ends in a doubled slash. */
  lemma DirectoryBaseSlash(p: string)
    ensures BaseUrl(p + "/SCAN/") == Replace(p, Placeholder, "") + "//"
  {
    var q := Replace(p, Placeholder, "");
    SlashEnding();
    ReplaceConcat(p, "/SCAN/", Placeholder, "");
    assert EndsWith(q + "//", "/");
  }

  /** The POST fields with the placeholder replaced in every value
      (GENSCAN.py:119): same keys, each value substituted. */
  function SubstitutePost(post: map<string, string>, word: string): (m: map<string, string>)
    ensures m.Keys == post.Keys
    ensures forall k :: k in m ==> m[k] == Replace(post[k], Placeholder, Strip(word))
  {
    map k | k in post :: Replace(post[k], Placeholder, Strip(word))
  }

  /** Fields whose values hold no placeholder go out unchanged. */
  lemma SubstitutePostKeepsPlain(post: map<string, string>, word: string, k: string)
    requires k in post && !Contains(post[k], Placeholder)
    ensures SubstitutePost(post, word)[k] == post[k]
  {
    ReplaceAbsent(post[k], Placeholder, Strip(word));
  }

  /** The status test repeated at GENSCAN.py:88, 110 and 136,
      `(desired and status in desired) or (not desired and status == 200)`:
      a non-empty list accepts exactly its members, no list or an empty one
      accepts 200 and nothing else. */
  function StatusAccepted(desired: Option<seq<int>>, status: int): (b: bool)
    ensures desired.Some? && desired.value != [] ==>
      (b <==> exists i :: 0 <= i < |desired.value| && desired.value[i] == status)
    ensures desired.None? || desired.value == [] ==> (b <==> status == 200)
  {
    || (desired.Some? && desired.value != [] && status in desired.value)
    || ((desired.None? || desired.value == []) && status == 200)
  }

  /** The status test on the list parsed from `--status-codes`: without the
      argument only 200 passes; with it, exactly the statuses that some
      comma-separated entry spells. */
  lemma DesiredCodesAccept(arg: Option<string>, desired: Option<seq<int>>, status: int)
    requires StatusCodes(arg) == Success(desired)
    ensures arg.None? || arg.value == [] ==> (StatusAccepted(desired, status) <==> status == 200)
    ensures arg.Some? && arg.value != [] ==>
      (StatusAccepted(desired, status) <==>
        exists i :: 0 <= i < |Split(arg.value, ",")| && Code(Split(arg.value, ",")[i]) == Some(status))
  {
    if arg.Some? && arg.value != [] {
      var pieces := Split(arg.value, ",");
      var codes := desired.value;
      if StatusAccepted(desired, status) {
        var i :| 0 <= i < |codes| && codes[i] == status;
        assert Code(pieces[i]) == Some(status);
      }
      if exists i :: 0 <= i < |pieces| && Code(pieces[i]) == Some(status) {
        var i :| 0 <= i < |pieces| && Code(pieces[i]) == Some(status);
        assert codes[i] == status;
      }
    }
  }

  datatype Method = Get | Post

  /** A request URL: a plain string, or `urljoin(base, reference)`, whose
      resolution algorithm is not part of this model. */
  datatype Url = Plain(text: string) | Joined(base: string, reference: string)

  /** A request as `requests.get`/`requests.post` receive it. */
  datatype Request = Request(verb: Method, url: Url, userAgent: string, form: Option<map<string, string>>, timeout: nat)

  /** What the transport gives back: a status and a body, or a
      `requests.RequestException`. */
  datatype Reply = Failed | Reply(status: int, body: string)

  /** The arguments `scan_target` receives besides the word and the mode. */
  datatype Config = Config(
    target: string,
    userAgent: string,
    post: Option<map<string, string>>,
    keyword: Option<string>,
    desired: Option<seq<int>>)

  /** The request sent (None when the host did not resolve) and whether the
      target was reported. */
  datatype Outcome = Outcome(sent: Option<Request>, hit: bool)

  function GetRequest(cfg: Config, url: Url): Request {
    Request(Get, url, cfg.userAgent, None, Timeout)
  }

  /** Param mode: a POST of the substituted fields when there are any, a GET
      of the substituted URL otherwise (an empty field map is falsy). */
  function ParamRequest(cfg: Config, word: string): (r: Request)
    ensures r.url == Plain(TargetUrl(cfg.target, word))
    ensures r.userAgent == cfg.userAgent && r.timeout == Timeout
    ensures r.verb == Post <==> cfg.post.Some? && cfg.post.value != map[]
    ensures r.verb == Post ==> r.form == Some(SubstitutePost(cfg.post.value, word))
    ensures r.verb == Get ==> r.form == None
  {
    var url := TargetUrl(cfg.target, word);
    if cfg.post.Some? && cfg.post.value != map[] then
      Request(Post, Plain(url), cfg.userAgent, Some(SubstitutePost(cfg.post.value, word)), Timeout)
    else
      GetRequest(cfg, Plain(url))
  }

  /** The reply passes the status test. */
  predicate Accepted(desired: Option<seq<int>>, reply: Reply) {
    reply.Reply? && StatusAccepted(desired, reply.status)
  }

  /** `scan_target(target, word, user_agent, mode, post_data, keyword,
      desired_status_codes)`: what it sends and whether it reports a hit.
      Subdomain mode sends nothing when the host does not resolve (a DNS miss
      is told apart from an HTTP miss) and otherwise a GET of the substituted
      URL. Directory mode sends a GET of `urljoin(base, word)` on the
      placeholder-free base and ignores the keyword. Param mode sends the
      param request and reports a hit only when, besides the status, the
      lower-cased body contains the lower-cased keyword (if one is given). */
  function ScanTarget(cfg: Config, mode: ScanMode, word: string,
                      resolves: string -> bool, send: Request -> Reply): (o: Outcome)
    ensures mode == Subdomain ==>
      var url := TargetUrl(cfg.target, word);
      && (o.sent.None? <==> !resolves(Domain(url)))
      && (o.sent.Some? ==> o.sent.value == Request(Get, Plain(url), cfg.userAgent, None, Timeout))
      && (o.hit <==> o.sent.Some? && Accepted(cfg.desired, send(o.sent.value)))
    ensures mode == Directory ==>
      && o.sent == Some(Request(Get, Joined(BaseUrl(cfg.target), Strip(word)), cfg.userAgent, None, Timeout))
      && (o.hit <==> Accepted(cfg.desired, send(o.sent.value)))
    ensures mode == Param ==>
      var reply := send(ParamRequest(cfg, word));
      && o.sent == Some(ParamRequest(cfg, word))
      && (o.hit <==>
            reply.Reply? && StatusAccepted(cfg.desired, reply.status) &&
            (KeywordGiven(cfg.keyword) ==> Contains(Lower(reply.body), Lower(cfg.keyword.value))))
  {
    var url := TargetUrl(cfg.target, word);
    match mode
    case Subdomain =>
      if !resolves(Domain(url)) then Outcome(None, false)
      else
        var req := GetRequest(cfg, Plain(url));
        Outcome(Some(req), Accepted(cfg.desired, send(req)))
    case Directory =>
      var req := GetRequest(cfg, Joined(BaseUrl(cfg.target), Strip(word)));
      Outcome(Some(req), Accepted(cfg.desired, send(req)))
    case Param =>
      var req := ParamRequest(cfg, word);
      var reply := send(req);
      Outcome(Some(req),
        Accepted(cfg.desired, reply) &&
        (ScanKeyword(reply.body, cfg.keyword).found || !KeywordGiven(cfg.keyword)))
  }

  /** In every mode a hit needs a reply whose status passes the same test, and
      every request carries the configured User-Agent and the fixed timeout. */
  lemma HitNeedsAcceptedStatus(cfg: Config, mode: ScanMode, word: string,
                               resolves: string -> bool, send: Request -> Reply)
    ensures var o := ScanTarget(cfg, mode, word, resolves, send);
      o.hit ==> o.sent.Some? && Accepted(cfg.desired, send(o.sent.value))
    ensures var o := ScanTarget(cfg, mode, word, resolves, send);
      o.sent.Some? ==> o.sent.value.userAgent == cfg.userAgent && o.sent.value.timeout == Timeout
  {
  }

  /** Subdomain mode on a template `scheme//SCAN.rest/path`: the host looked
      up is the stripped word followed by `.rest`, and nothing is sent unless
      that host resolves. */
  lemma SubdomainLookup(cfg: Config, scheme: string, rest: string, path: string, word: string,
                        resolves: string -> bool, send: Request -> Reply)
    requires cfg.target == scheme + "//" + Placeholder + "." + rest + path
    requires !Contains(scheme + "//", Placeholder) && !Contains("." + rest + path, Placeholder)
    requires '/' !in scheme && '/' !in rest && '/' !in word
    requires path == [] || (path[0] == '/' && !Contains(path, "//"))
    ensures Domain(TargetUrl(cfg.target, word)) == Strip(word) + "." + rest
    ensures ScanTarget(cfg, Subdomain, word, resolves, send).sent.None? <==> !resolves(Strip(word) + "." + rest)
  {
    SubdomainHost(scheme, rest, path, word);
  }

  /** The substituted subdomain URL and the host taken from it. */
  lemma SubdomainHost(scheme: string, rest: string, path: string, word: string)
    requires !Contains(scheme + "//", Placeholder) && !Contains("." + rest + path, Placeholder)
    requires '/' !in scheme && '/' !in rest && '/' !in word
    requires path == [] || (path[0] == '/' && !Contains(path, "//"))
    ensures var url := TargetUrl(scheme + "//" + Placeholder + "." + rest + path, word);
      url == scheme + "//" + (Strip(word) + "." + rest) + path && Domain(url) == Strip(word) + "." + rest
  {
    var w := Strip(word);
    var host := w + "." + rest;
    var a := scheme + "//";
    var b := "." + rest + path;
    Regroup(a, Placeholder, ".", rest, path);
    TargetUrlSinglePlaceholder(a, b, word);
    Regroup(a, w, ".", rest, path);
    StripKeepsAbsent(word, '/');
    assert '/' !in host;
    DomainOfUrl(scheme, host, path);
  }

  lemma Regroup(a: string, w: string, d: string, r: string, p: string)
    ensures a + w + d + r + p == a + w + (d + r + p)
    ensures a + w + (d + r + p) == a + (w + d + r) + p
  {
  }

  /** Directory mode on a template `p/SCAN`: the word is joined onto `p`
      without placeholders followed by a single `/`. */
  lemma DirectoryTemplateRequest(cfg: Config, p: string, word: string,
                                 resolves: string -> bool, send: Request -> Reply)
    requires cfg.target == p + "/SCAN"
    ensures ScanTarget(cfg, Directory, word, resolves, send).sent
         == Some(Request(Get, Joined(Replace(p, Placeholder, "") + "/", Strip(word)), cfg.userAgent, None, Timeout))
  {
    DirectoryBaseBare(p);
  }
}
