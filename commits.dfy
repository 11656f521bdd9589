/**
 * `project_commits`: the stored repository list is matched against the GitHub pattern and
 * every matching entry's commits endpoint is fetched, in list order. The HTTP request and
 * the JSON parse of its body are the parameter `fetch`; `None` from it is a failed request
 * or an unparsable body, on which the source panics, so the whole call fails (`Failure`,
 * carrying the endpoint that failed).
 */
module Commits {
  import opened Wrappers
  import opened GitHub

  /** Fetches every endpoint in order; the first failure ends the call. */
  function FetchAll<V>(endpoints: seq<string>, fetch: string -> Option<V>): (r: Result<seq<V>, string>)
    ensures r.Success? <==> forall k :: 0 <= k < |endpoints| ==> fetch(endpoints[k]).Some?
    ensures r.Success? ==>
              && |r.value| == |endpoints|
              && forall k :: 0 <= k < |endpoints| ==> fetch(endpoints[k]) == Some(r.value[k])
    ensures r.Failure? ==>
              exists k :: && 0 <= k < |endpoints|
                          && endpoints[k] == r.error
                          && fetch(endpoints[k]).None?
                          && forall j :: 0 <= j < k ==> fetch(endpoints[j]).Some?
  {
    if endpoints == [] then Success([])
    else
      match fetch(endpoints[0])
      case None => Failure(endpoints[0])
      case Some(body) =>
        match FetchAll(endpoints[1..], fetch)
        case Success(bodies) => Success([body] + bodies)
        case Failure(e) => Failure(e)
  }

  /**
   * `None` when the list is empty or when no entry matches; otherwise one body per
   * matching entry, in list order, unless a fetch fails.
   */
  function ProjectCommits<V>(repos: seq<string>, fetch: string -> Option<V>): (r: Result<Option<seq<V>>, string>)
    ensures r == Success(None) <==> forall u :: u in repos ==> Endpoint(u).None?
    ensures r.Success? && r.value.Some? ==>
              && |r.value.value| == |Endpoints(repos)| > 0
              && forall k :: 0 <= k < |Endpoints(repos)| ==> fetch(Endpoints(repos)[k]) == Some(r.value.value[k])
    ensures r.Failure? ==> r.error in Endpoints(repos) && fetch(r.error).None?
  {
    EndpointsEmpty(repos);
    if repos == [] then Success(None)
    else
      var endpoints := Endpoints(repos);
      if endpoints == [] then Success(None)
      else
        match FetchAll(endpoints, fetch)
        case Success(bodies) => Success(Some(bodies))
        case Failure(e) => Failure(e)
  }

  /** The call succeeds with bodies exactly when every matching entry's fetch succeeds. */
  lemma {:induction false} CommitsFetchedIff<V>(repos: seq<string>, fetch: string -> Option<V>)
    requires exists u :: u in repos && Endpoint(u).Some?
    ensures ProjectCommits(repos, fetch).Success? <==>
              forall u :: u in repos && Endpoint(u).Some? ==> fetch(Endpoint(u).value).Some?
  {
    var endpoints := Endpoints(repos);
    EndpointsMembers(repos);
    EndpointsEmpty(repos);
    assert endpoints != [];
    assert ProjectCommits(repos, fetch).Success? <==> FetchAll(endpoints, fetch).Success?;
    if FetchAll(endpoints, fetch).Success? {
      forall u | u in repos && Endpoint(u).Some?
        ensures fetch(Endpoint(u).value).Some?
      {
        assert Endpoint(u).value in endpoints;
        var k :| 0 <= k < |endpoints| && endpoints[k] == Endpoint(u).value;
      }
    } else {
      var e := FetchAll(endpoints, fetch).error;
      assert e in endpoints;
      var u :| u in repos && Endpoint(u) == Some(e);
    }
  }

}
