/**
 * The one repository-URL pattern the commit view understands,
 *   ^(https?://)?github\.com/(\S+/\S+)/?$
 * and its rewrite to `https://api.github.com/repos/$2/commits?per_page=100`, written out
 * by hand. `\S` is "not Unicode White_Space", as in Rust's regex crate, and `$` is the end
 * of the text.
 */
module GitHub {
  import opened Wrappers
  import opened Seqs

  const Host := "github.com/"
  const ApiPrefix := "https://api.github.com/repos/"
  const ApiSuffix := "/commits?per_page=100"

  /** The characters with the Unicode White_Space property. */
  predicate IsWhitespace(c: char)
  {
    || ('\t' <= c <= '\r')
    || c == ' ' || c == '\U{85}' || c == '\U{A0}' || c == '\U{1680}'
    || ('\U{2000}' <= c <= '\U{200A}')
    || c == '\U{2028}' || c == '\U{2029}' || c == '\U{202F}' || c == '\U{205F}' || c == '\U{3000}'
  }

  predicate NoWhitespace(s: string)
  {
    forall i :: 0 <= i < |s| ==> !IsWhitespace(s[i])
  }

  /** The optional scheme the URL starts with (`https?://`), or "" when there is none. */
  function SchemeOf(url: string): (scheme: string)
    ensures scheme <= url
  {
    if "https://" <= url then "https://"
    else if "http://" <= url then "http://"
    else ""
  }

  /** What follows `github.com/` once the scheme is dropped, if the host is there. */
  function Remainder(url: string): (r: Option<string>)
    ensures r.Some? ==> url == SchemeOf(url) + Host + r.value
  {
    var rest := url[|SchemeOf(url)|..];
    if Host <= rest then Some(rest[|Host|..]) else None
  }

  /** The remainder matches `\S+/\S+/?`: no whitespace, and a '/' that is neither first nor last. */
  predicate IsRepoPath(r: string)
  {
    |r| >= 3 && NoWhitespace(r) && '/' in r[1..|r| - 1]
  }

  /** `re.is_match(url)`: accepted exactly when the pattern has a parse of the URL. */
  predicate IsGitHubRepo(url: string): (b: bool)
    ensures b <==> exists scheme, g, t :: RegexParse(url, scheme, g, t)
  {
    ParseIffRepoPath(url);
    Remainder(url).Some? && IsRepoPath(Remainder(url).value)
  }

  /**
   * `re.replace(url, ..$2..)` on an accepted URL: whichever parse of the pattern is
   * taken, the rewrite carries group 2 together with the optional trailing '/'.
   */
  function ApiUrl(url: string): (r: string)
    requires IsGitHubRepo(url)
    ensures forall scheme, g, t :: RegexParse(url, scheme, g, t) ==> r == ApiPrefix + g + t + ApiSuffix
  {
    ParseDeterminesRemainder(url);
    ApiPrefix + Remainder(url).value + ApiSuffix
  }

  /** The endpoint of one stored entry, or `None` when the pattern does not match it. */
  function Endpoint(url: string): (r: Option<string>)
    ensures r.Some? <==> exists scheme, g, t :: RegexParse(url, scheme, g, t)
    ensures forall scheme, g, t :: RegexParse(url, scheme, g, t) ==> r == Some(ApiPrefix + g + t + ApiSuffix)
  {
    if IsGitHubRepo(url) then Some(ApiUrl(url)) else None
  }

  // The pattern read as a grammar, independently of the matcher above.

  /** `\S+` */
  ghost predicate NonSpaceRun(x: string)
  {
    |x| >= 1 && NoWhitespace(x)
  }

  /** Group 2, `\S+/\S+`. */
  ghost predicate Group2(g: string)
  {
    exists i :: 0 <= i < |g| && g[i] == '/' && NonSpaceRun(g[..i]) && NonSpaceRun(g[i + 1..])
  }

  /** `url` splits as `(https?://)?`, `github.com/`, group 2 `g` and the optional `/` `t`. */
  ghost predicate RegexParse(url: string, scheme: string, g: string, t: string)
  {
    && (scheme == "" || scheme == "http://" || scheme == "https://")
    && Group2(g)
    && (t == "" || t == "/")
    && url == scheme + Host + g + t
  }

  /** The three scheme alternatives exclude one another, so the matcher finds the remainder. */
  lemma RemainderAfterScheme(url: string, scheme: string, rest: string)
    requires scheme == "" || scheme == "http://" || scheme == "https://"
    requires url == scheme + Host + rest
    ensures SchemeOf(url) == scheme && Remainder(url) == Some(rest)
  {
    assert url == scheme + (Host + rest);
    if scheme == "" {
      assert url[0] == 'g';
    } else if scheme == "http://" {
      assert url[4] == ':';
    }
    assert url[|scheme|..] == Host + rest;
  }

  /** Group 2 followed by the optional '/' passes the matcher's remainder test. */
  lemma Group2IsRepoPath(g: string, t: string)
    requires Group2(g) && (t == "" || t == "/")
    ensures IsRepoPath(g + t)
  {
    var i :| 0 <= i < |g| && g[i] == '/' && NonSpaceRun(g[..i]) && NonSpaceRun(g[i + 1..]);
    var r := g + t;
    forall j | 0 <= j < |r|
      ensures !IsWhitespace(r[j])
    {
      if j < i {
        assert r[j] == g[..i][j];
      } else if i < j < |g| {
        assert r[j] == g[i + 1..][j - i - 1];
      }
    }
    assert r[1..|r| - 1][i - 1] == '/';
  }

  /** Every parse of the pattern leaves group 2 and the optional '/' as the remainder. */
  lemma ParseDeterminesRemainder(url: string)
    ensures forall scheme, g, t :: RegexParse(url, scheme, g, t) ==> Remainder(url) == Some(g + t)
  {
    forall scheme, g, t | RegexParse(url, scheme, g, t)
      ensures Remainder(url) == Some(g + t)
    {
      assert url == scheme + Host + (g + t);
      RemainderAfterScheme(url, scheme, g + t);
    }
  }

  /** The matcher's test on the remainder holds exactly when the pattern has a parse. */
  lemma ParseIffRepoPath(url: string)
    ensures (Remainder(url).Some? && IsRepoPath(Remainder(url).value)) <==>
              exists scheme, g, t :: RegexParse(url, scheme, g, t)
  {
    ParseDeterminesRemainder(url);
    if Remainder(url).Some? && IsRepoPath(Remainder(url).value) {
      var r := Remainder(url).value;
      RepoPathIsGroup2(r);
      assert url == SchemeOf(url) + Host + r + "";
      assert RegexParse(url, SchemeOf(url), r, "");
    }
    forall scheme, g, t | RegexParse(url, scheme, g, t)
      ensures IsRepoPath(Remainder(url).value)
    {
      Group2IsRepoPath(g, t);
    }
  }

  /**
   * Every way the pattern can match is accepted, and the rewrite carries `g + t`: the
   * greedy group 2 takes the optional trailing '/' along, so it is not dropped.
   */
  lemma MatchComplete(url: string, scheme: string, g: string, t: string)
    requires RegexParse(url, scheme, g, t)
    ensures Endpoint(url) == Some(ApiPrefix + g + t + ApiSuffix)
  {
    assert url == scheme + Host + (g + t);
    RemainderAfterScheme(url, scheme, g + t);
    Group2IsRepoPath(g, t);
    assert ApiPrefix + (g + t) + ApiSuffix == ApiPrefix + g + t + ApiSuffix;
  }

  /** A remainder the matcher accepts splits as `\S+/\S+`. */
  lemma RepoPathIsGroup2(r: string)
    requires IsRepoPath(r)
    ensures Group2(r)
  {
    var j :| 0 <= j < |r[1..|r| - 1]| && r[1..|r| - 1][j] == '/';
    var i := j + 1;
    assert r[i] == '/';
    assert NonSpaceRun(r[..i]) && NonSpaceRun(r[i + 1..]);
  }

  /** Whatever the matcher accepts is a parse of the pattern with group 2 the whole remainder. */
  lemma MatchSound(url: string)
    requires Endpoint(url).Some?
    ensures RegexParse(url, SchemeOf(url), Remainder(url).value, "")
    ensures Endpoint(url).value == ApiPrefix + Remainder(url).value + ApiSuffix
  {
    var r := Remainder(url).value;
    RepoPathIsGroup2(r);
    assert url == SchemeOf(url) + Host + r + "";
  }

  /** A URL the matcher refuses admits no parse of the pattern at all. */
  lemma NoMatch(url: string)
    requires Endpoint(url).None?
    ensures forall scheme, g, t :: !RegexParse(url, scheme, g, t)
  {
    forall scheme, g, t | RegexParse(url, scheme, g, t)
      ensures false
    {
      MatchComplete(url, scheme, g, t);
    }
  }

  /** `repos.iter().filter(is_match).map(replace).collect()` */
  function Endpoints(repos: seq<string>): (r: seq<string>)
    ensures |r| == |Filter(repos, IsGitHubRepo)|
    ensures forall k :: 0 <= k < |r| ==> Endpoint(Filter(repos, IsGitHubRepo)[k]) == Some(r[k])
  {
    ApiUrls(Filter(repos, IsGitHubRepo))
  }

  function ApiUrls(urls: seq<string>): (r: seq<string>)
    requires forall u :: u in urls ==> IsGitHubRepo(u)
    ensures |r| == |urls|
    ensures forall k :: 0 <= k < |urls| ==> r[k] == ApiUrl(urls[k])
  {
    if urls == [] then [] else [ApiUrl(urls[0])] + ApiUrls(urls[1..])
  }

  /**
   * One endpoint per matching entry, in the order of the list: the k-th endpoint is the
   * rewrite of the entry at the k-th position whose entry matches.
   */
  lemma EndpointsInOrder(repos: seq<string>)
    ensures |Endpoints(repos)| == |KeptIndices(repos, IsGitHubRepo)|
    ensures forall k :: 0 <= k < |Endpoints(repos)| ==>
              Endpoint(repos[KeptIndices(repos, IsGitHubRepo)[k]]) == Some(Endpoints(repos)[k])
    ensures forall i :: 0 <= i < |repos| ==>
              (i in KeptIndices(repos, IsGitHubRepo) <==> Endpoint(repos[i]).Some?)
  {
    FilterSelects(repos, IsGitHubRepo);
    KeptIndicesExact(repos, IsGitHubRepo);
  }

  /** The endpoints are exactly the rewrites of the matching entries. */
  lemma EndpointsMembers(repos: seq<string>)
    ensures forall e :: e in Endpoints(repos) <==> exists u :: u in repos && Endpoint(u) == Some(e)
  {
    var kept := Filter(repos, IsGitHubRepo);
    forall e | e in Endpoints(repos)
      ensures exists u :: u in repos && Endpoint(u) == Some(e)
    {
      var k :| 0 <= k < |kept| && Endpoints(repos)[k] == e;
      assert kept[k] in kept;
    }
    forall u | u in repos && Endpoint(u).Some?
      ensures Endpoint(u).value in Endpoints(repos)
    {
      var k :| 0 <= k < |kept| && kept[k] == u;
      assert Endpoints(repos)[k] == ApiUrl(u);
    }
  }

  /** No endpoint is produced exactly when no entry matches. */
  lemma EndpointsEmpty(repos: seq<string>)
    ensures Endpoints(repos) == [] <==> forall u :: u in repos ==> Endpoint(u).None?
  {
    var kept := Filter(repos, IsGitHubRepo);
    if kept != [] {
      assert kept[0] in kept;
    }
  }
}
