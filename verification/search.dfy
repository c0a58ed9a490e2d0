/** Web search over the configured SearxNG instances, tried in order (`browse_web`). No HTTP request
    is made here: what each instance answered is an input. */
module Search {
  import opened Options

  /** One entry of an instance's `results` array; a field the entry lacks is `None`. */
  datatype SearchResult = SearchResult(title: Option<string>, url: Option<string>, snippet: Option<string>)

  /** What querying one instance came to: a request, status or JSON failure, or the parsed
      `results` array (empty when the key is missing). */
  datatype InstanceOutcome = InstanceFailed | Responded(results: seq<SearchResult>)

  /** An instance whose answer ends the search: it responded with at least one result. */
  predicate Answers(o: InstanceOutcome) {
    o.Responded? && |o.results| > 0
  }

  /** Python's `s[:n]`: the first `n` elements, or for a negative `n` all but the last `-n`. */
  function SliceTo<T>(s: seq<T>, n: int): (r: seq<T>)
    ensures |r| == if n >= 0 then (if n < |s| then n else |s|) else (if -n < |s| then |s| + n else 0)
    ensures r == s[..|r|]
  {
    if n >= 0 then (if n < |s| then s[..n] else s)
    else (if -n < |s| then s[..|s| + n] else [])
  }

  /** The results `browse_web` returns, if any, and how many instances it queried. */
  datatype SearchRun = SearchRun(found: Option<seq<SearchResult>>, queried: nat)

  /** `browse_web`: the instances are queried in configuration order until one answers; its first
      `maxResults` results are returned in the order the instance gave them. */
  function BrowseWeb(instances: seq<InstanceOutcome>, maxResults: int): (r: SearchRun)
    ensures r.queried <= |instances|
    ensures r.found.Some? <==> exists k :: 0 <= k < |instances| && Answers(instances[k])
    ensures r.found.Some? ==>
      && r.queried >= 1
      && Answers(instances[r.queried - 1])
      && r.found.value == SliceTo(instances[r.queried - 1].results, maxResults)
    ensures forall k :: 0 <= k < r.queried - 1 ==> !Answers(instances[k])
    ensures r.found.None? ==> r.queried == |instances|
  {
    if instances == [] then SearchRun(None, 0)
    else if Answers(instances[0]) then SearchRun(Some(SliceTo(instances[0].results, maxResults)), 1)
    else
      var rest := BrowseWeb(instances[1..], maxResults);
      assert forall k :: 1 <= k < |instances| ==> instances[k] == instances[1..][k - 1];
      SearchRun(rest.found, rest.queried + 1)
  }

  /** The instances after the one that answered are never queried: appending more instances
      changes nothing once one of the first ones answers. */
  lemma {:induction false} LaterInstancesUnused(first: seq<InstanceOutcome>, later: seq<InstanceOutcome>, maxResults: int)
    requires exists k :: 0 <= k < |first| && Answers(first[k])
    ensures BrowseWeb(first + later, maxResults) == BrowseWeb(first, maxResults)
    decreases |first|
  {
    assert (first + later)[0] == first[0];
    if !Answers(first[0]) {
      assert (first + later)[1..] == first[1..] + later;
      var k :| 0 <= k < |first| && Answers(first[k]);
      assert Answers(first[1..][k - 1]);
      LaterInstancesUnused(first[1..], later, maxResults);
    }
  }

  /** With a positive `max_results` a successful search never returns an empty list, and every
      result it returns is the answering instance's result at the same position. */
  lemma FoundKeepsOrder(instances: seq<InstanceOutcome>, maxResults: int)
    requires maxResults >= 1
    ensures var r := BrowseWeb(instances, maxResults);
      r.found.Some? ==>
        && 1 <= |r.found.value| <= maxResults
        && forall i :: 0 <= i < |r.found.value| ==> r.found.value[i] == instances[r.queried - 1].results[i]
  {
  }

  /** Two failing instances and a third with two results: exactly those two results, after
      querying all three. */
  lemma ThirdInstanceAnswers(a: SearchResult, b: SearchResult)
    ensures BrowseWeb([InstanceFailed, Responded([]), Responded([a, b])], 8) == SearchRun(Some([a, b]), 3)
  {
    var instances := [InstanceFailed, Responded([]), Responded([a, b])];
    assert instances[1..] == [Responded([]), Responded([a, b])];
    assert instances[1..][1..] == [Responded([a, b])];
    assert BrowseWeb(instances[1..][1..], 8) == SearchRun(Some([a, b]), 1);
    assert BrowseWeb(instances[1..], 8) == SearchRun(Some([a, b]), 2);
  }
}
