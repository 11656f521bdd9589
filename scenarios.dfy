/** Worked cases of the behaviour above, stated on concrete inputs. */
module Scenarios {
  import opened Wrappers
  import opened Entities
  import opened Repos
  import opened GitHub
  import opened Commits
  import opened ProjectStore

  /** `https://github.com/acme/widgets` */
  const Widgets := "https://" + Host + "acme/widgets"
  /** `https://api.github.com/repos/acme/widgets/commits?per_page=100` */
  const WidgetsApi := ApiPrefix + "acme/widgets" + ApiSuffix

  /** Printable ASCII holds no whitespace. */
  lemma VisibleAscii(s: string)
    requires forall i :: 0 <= i < |s| ==> '!' <= s[i] <= '~'
    ensures NoWhitespace(s)
  {
  }

  lemma AcmeWidgetsIsGroup2()
    ensures Group2("acme/widgets")
  {
    var g := "acme/widgets";
    assert g[..4] == "acme" && g[5..] == "widgets";
    VisibleAscii("acme");
    VisibleAscii("widgets");
    assert g[4] == '/' && NonSpaceRun(g[..4]) && NonSpaceRun(g[5..]);
  }

  lemma WidgetsMatches()
    ensures Endpoint(Widgets) == Some(WidgetsApi)
  {
    var g := "acme/widgets";
    assert RegexParse(Widgets, "https://", g, "") by {
      AcmeWidgetsIsGroup2();
      assert Widgets == "https://" + Host + g + "";
    }
    MatchComplete(Widgets, "https://", g, "");
    assert ApiPrefix + g + "" + ApiSuffix == WidgetsApi;
  }

  /** The trailing '/' is allowed by the pattern but stays inside group 2. */
  lemma TrailingSlashKept()
    ensures Endpoint(Host + "acme/widgets" + "/") == Some(ApiPrefix + "acme/widgets" + "/" + ApiSuffix)
  {
    var g := "acme/widgets";
    assert RegexParse(Host + g + "/", "", g, "/") by {
      AcmeWidgetsIsGroup2();
      assert Host + g + "/" == "" + Host + g + "/";
    }
    MatchComplete(Host + g + "/", "", g, "/");
  }

  lemma NotARepoRefused()
    ensures Endpoint("not-a-repo") == None
  {
    var url := "not-a-repo";
    assert url[0] == 'n';
    assert SchemeOf(url) == "";
    assert !(Host <= url);
  }

  /**
   * A project created with a GitHub URL, an unsupported entry and an empty one stores the
   * first two, and its commit view fetches the GitHub entry alone.
   */
  lemma WidgetsStoredAndFetched<V>(fetch: string -> Option<V>, body: V)
    requires fetch(WidgetsApi) == Some(body)
    ensures Normalise([Widgets, "not-a-repo", ""]) == [Widgets, "not-a-repo"]
    ensures Endpoints([Widgets, "not-a-repo"]) == [WidgetsApi]
    ensures ProjectCommits([Widgets, "not-a-repo"], fetch) == Success(Some([body]))
  {
    var submitted, stored := [Widgets, "not-a-repo", ""], [Widgets, "not-a-repo"];
    assert |Widgets| > 0 && |"not-a-repo"| > 0;
    assert submitted[1..] == ["not-a-repo", ""] && submitted[1..][1..] == [""];
    assert Seqs.Filter([""], NonEmpty) == [];
    assert Seqs.Filter(["not-a-repo", ""], NonEmpty) == ["not-a-repo"];
    WidgetsMatches();
    NotARepoRefused();
    assert stored[1..] == ["not-a-repo"];
    assert Seqs.Filter(stored, IsGitHubRepo) == [Widgets];
    assert Endpoints(stored) == [WidgetsApi];
    var fetched := FetchAll([WidgetsApi], fetch);
    assert fetched.Success? && |fetched.value| == 1 && fetch(WidgetsApi) == Some(fetched.value[0]);
    assert fetched.value == [body];
  }

  /** Creating, joining and adding members, as a client of the store sees them. */
  method CreateJoinAdd(alice: User, bob: User)
    requires alice.id != bob.id && alice.tier == 0 && bob.tier == 0
  {
    var store := new Store([alice, bob]);
    var status, id := store.NewPost(alice, ProjectForm("observatory", bob.id, false, [Widgets, ""]));
    assert status == Ok;
    assert store.projects[0].ownerId == alice.id;
    var s := store.JoinPost(bob, id);
    assert s == Conflict;
    s := store.MemberAddPost(bob, id, bob.id);
    assert s == Unauthorized;
    s := store.MemberAddPost(alice, id, bob.id);
    assert s == Ok;
    s := store.MemberAddPost(alice, id, bob.id);
    assert s == DuplicateRelation;
    s := store.Delete(bob, id);
    assert s == Unauthorized;
    s := store.Delete(alice, id);
    assert s == Ok && store.relations == [];
  }
}
