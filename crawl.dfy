/** The crawl loop of `main`: starting from the seed URL, visit `links[0]`,
    `links[1]`, ... in order, while fewer than `number` pages have been
    visited and the frontier still has an unvisited entry. Each visit
    fetches the page, parses its comments, hands them to the output sink and
    appends the page's links to the frontier.

    Fetching is a parameter: `fetch(url)` is the page's lines, or `None`
    when the request fails, which ends the program (`sys.exit(1)`). The
    output sink is modelled by the list of visits it receives. */
module Crawl {
  import opened Wrappers
  import opened Comments
  import opened Links

  /** What `write_output(comments, args, url)` is given for one page. */
  datatype Visit = Visit(url: string, comments: seq<Record>)

  /** The loop's variables: the frontier `links`, the counter `iterations`,
      the visits written so far, and whether a fetch failure ended the run. */
  datatype CrawlState = CrawlState(links: seq<string>, iterations: nat, visits: seq<Visit>, aborted: bool)

  /** The state before the first iteration: `links = [url]`. */
  function Start(seed: string): (st: CrawlState)
    ensures st.links == [seed] && st.iterations == 0 && st.visits == [] && !st.aborted
  {
    CrawlState([seed], 0, [], false)
  }

  /** The loop condition `iterations < number and iterations < len(links)`,
      together with "the program has not exited". */
  predicate Continues(st: CrawlState, number: nat) {
    !st.aborted && st.iterations < number && st.iterations < |st.links|
  }

  /** One iteration: fetch `links[iterations]`, parse it, record the visit,
      extend the frontier and count the iteration. It aborts exactly when
      the fetch fails, and then changes nothing else; otherwise the new
      visit is that page's, and the frontier grows by exactly the links
      `get_links` finds on it, each admissible for it. */
  function Iterate(fetch: string -> Option<seq<string>>, st: CrawlState): (r: CrawlState)
    requires st.iterations < |st.links|
    ensures r.aborted <==> fetch(st.links[st.iterations]).None?
    ensures r.aborted ==> r.links == st.links && r.visits == st.visits && r.iterations == st.iterations
    ensures !r.aborted ==> r.iterations == st.iterations + 1 && |r.visits| == |st.visits| + 1
    ensures !r.aborted ==>
      r.visits[..|st.visits|] == st.visits &&
      Fetched(fetch, st.links[st.iterations], r.visits[|st.visits|])
    ensures |st.links| <= |r.links| && r.links[..|st.links|] == st.links
    ensures AllAdmissible(r.links[|st.links|..], st.links[st.iterations])
    ensures var url := st.links[st.iterations];
      fetch(url).Some? ==> r.links == st.links + NewLinks(fetch(url).value, |fetch(url).value|, url)
  {
    var url := st.links[st.iterations];
    match fetch(url)
    case None => st.(aborted := true)
    case Some(content) =>
      var added := NewLinks(content, |content|, url);
      var r := CrawlState(st.links + added, st.iterations + 1,
                          st.visits + [Visit(url, Parse(content))], false);
      assert r.links[|st.links|..] == added;
      r
  }
  /** The state in which the loop ends, when started in `st`. */
  function Run(fetch: string -> Option<seq<string>>, number: nat, st: CrawlState): CrawlState
    decreases number - st.iterations
  {
    if !Continues(st, number) then st
    else
      var next := Iterate(fetch, st);
      if next.aborted then next else Run(fetch, number, next)
  }

  /** What holds of the loop's variables before and after every iteration:
      one visit per iteration, visit `k` was for `links[k]`, and its comments
      are those of the page that `fetch` gave for that URL. */
  predicate Coherent(fetch: string -> Option<seq<string>>, st: CrawlState) {
    |st.visits| == st.iterations <= |st.links| &&
    forall k :: 0 <= k < |st.visits| ==> Fetched(fetch, st.links[k], st.visits[k])
  }

  /** `v` is what the sink is given for the page at `url`. */
  predicate Fetched(fetch: string -> Option<seq<string>>, url: string, v: Visit) {
    v.url == url && fetch(url).Some? && v.comments == Parse(fetch(url).value)
  }

  /** The crawl loop of `main`, run from `seed` with bound `number`. */
  method Crawl(seed: string, number: nat, fetch: string -> Option<seq<string>>)
    returns (links: seq<string>, visits: seq<Visit>, aborted: bool)
    ensures CrawlState(links, |visits|, visits, aborted) == Run(fetch, number, Start(seed))
    ensures |visits| <= number && |visits| <= |links|
    ensures links != [] && links[0] == seed
    ensures forall k :: 0 <= k < |visits| ==> Fetched(fetch, links[k], visits[k])
    ensures !aborted ==> |visits| == number || |visits| == |links|
    ensures aborted ==> |visits| < |links| && fetch(links[|visits|]).None?
  {
    var iterations := 0;
    links := [seed];
    visits := [];
    aborted := false;
    while iterations < number && iterations < |links|
      invariant Run(fetch, number, CrawlState(links, iterations, visits, false)) == Run(fetch, number, Start(seed))
      invariant Coherent(fetch, CrawlState(links, iterations, visits, false))
      invariant iterations <= number && links != [] && links[0] == seed
      decreases number - iterations
    {
      ghost var before := CrawlState(links, iterations, visits, false);
      var url := links[iterations];
      // a `None` page stops the run with the visits made so far
      var page := fetch(url);
      if page.None? {
        aborted := true;
        assert Run(fetch, number, before) == CrawlState(links, iterations, visits, true);
        break;
      }
      var content := page.value;
      var comments := ParseComments(content);
      // the sink receives the page's records
      visits := visits + [Visit(url, comments)];
      // the frontier grows by this page's candidate links
      links := GetLinks(content, url, links);
      iterations := iterations + 1;
      IterateCoherent(fetch, before);
    }
  }

  lemma IterateCoherent(fetch: string -> Option<seq<string>>, st: CrawlState)
    requires st.iterations < |st.links| && Coherent(fetch, st)
    ensures Coherent(fetch, Iterate(fetch, st))
  {
    var r := Iterate(fetch, st);
    if !r.aborted {
      assert r.links[..|st.links|] == st.links;
      assert Fetched(fetch, r.links[st.iterations], r.visits[st.iterations]);
      forall k | 0 <= k < |r.visits|
        ensures Fetched(fetch, r.links[k], r.visits[k])
      {
        assert r.links[k] == r.links[..|st.links|][k];
        if k < |st.visits| {
          assert r.visits[k] == r.visits[..|st.visits|][k];
        }
      }
    }
  }

  // -----------------------------------------------------------------------
  // Properties of the whole crawl
  // -----------------------------------------------------------------------

  /** Running the loop only appends to the frontier and to the visits, and
      never takes the counter past the bound. */
  lemma {:induction false} RunGrows(fetch: string -> Option<seq<string>>, number: nat, st: CrawlState)
    decreases number - st.iterations
    ensures var r := Run(fetch, number, st);
      |st.links| <= |r.links| && r.links[..|st.links|] == st.links &&
      |st.visits| <= |r.visits| && r.visits[..|st.visits|] == st.visits &&
      (st.iterations <= number ==> r.iterations <= number)
  {
    if Continues(st, number) {
      var next := Iterate(fetch, st);
      if !next.aborted {
        RunGrows(fetch, number, next);
        var r := Run(fetch, number, next);
        assert r.links[..|st.links|] == r.links[..|next.links|][..|st.links|];
        assert r.visits[..|st.visits|] == r.visits[..|next.visits|][..|st.visits|];
      }
    }
  }

  /** The loop's invariant holds when it ends if it held when it started. */
  lemma {:induction false} RunCoherent(fetch: string -> Option<seq<string>>, number: nat, st: CrawlState)
    requires Coherent(fetch, st)
    decreases number - st.iterations
    ensures Coherent(fetch, Run(fetch, number, st))
  {
    if Continues(st, number) {
      var next := Iterate(fetch, st);
      IterateCoherent(fetch, st);
      if !next.aborted {
        RunCoherent(fetch, number, next);
      }
    }
  }

  /** A run stops for one of three reasons: the bound was reached, every
      link in the frontier has been visited, or the fetch of the next link
      failed. */
  lemma {:induction false} RunStops(fetch: string -> Option<seq<string>>, number: nat, st: CrawlState)
    requires !st.aborted
    decreases number - st.iterations
    ensures var r := Run(fetch, number, st);
      !r.aborted ==> r.iterations >= number || r.iterations >= |r.links|
    ensures var r := Run(fetch, number, st);
      r.aborted ==> r.iterations < |r.links| && fetch(r.links[r.iterations]).None?
  {
    if Continues(st, number) {
      var next := Iterate(fetch, st);
      if !next.aborted {
        RunStops(fetch, number, next);
      }
    }
  }

  /** A run from the seed visits at most `number` pages and no more pages
      than the frontier holds; page `k` is `links[k]`, fetched and parsed;
      the seed stays first; unless a fetch failed, the visits stop at
      exactly `min(number, len(links))`; and if one failed, it was the fetch
      of the first link not visited. */
  lemma CrawlBounds(fetch: string -> Option<seq<string>>, number: nat, seed: string)
    ensures var r := Run(fetch, number, Start(seed));
      |r.visits| == r.iterations &&
      r.iterations <= number && r.iterations <= |r.links| &&
      r.links != [] && r.links[0] == seed &&
      (forall k :: 0 <= k < |r.visits| ==> Fetched(fetch, r.links[k], r.visits[k])) &&
      (!r.aborted ==> r.iterations == number || r.iterations == |r.links|) &&
      (r.aborted ==> r.iterations < |r.links| && fetch(r.links[r.iterations]).None?)
  {
    RunGrows(fetch, number, Start(seed));
    RunCoherent(fetch, number, Start(seed));
    RunStops(fetch, number, Start(seed));
  }

  /** With `number = 1` only the seed is fetched: the run either aborts
      with nothing written, or writes exactly the seed page's comments. */
  lemma SingleIteration(fetch: string -> Option<seq<string>>, seed: string)
    ensures var r := Run(fetch, 1, Start(seed));
      (fetch(seed).None? ==> r.aborted && r.visits == []) &&
      (fetch(seed).Some? ==> !r.aborted && r.visits == [Visit(seed, Parse(fetch(seed).value))])
  {
    var next := Iterate(fetch, Start(seed));
    assert !Continues(next, 1);
  }
}
