/**
 The sequential crawl of `scrape_webpage`: a worklist loop over a frontier set
 and a visited set. Each round pops some frontier URL; a URL already visited is
 dropped, any other is marked visited, fetched, written to its page file unless
 that file already exists, and its accepted links are added to the frontier.
 When the frontier is empty a summary of the visited URLs is written.

 Everything the loop calls into is a parameter (`Env`): the page fetch with the
 region search, `urljoin`, `urlparse(..).netloc`, `urlparse(..).path` and the
 Unicode decomposition. The output directory is a map from path to contents.
 */
module Crawl {
  import Links
  import Output
  import Sanitizer

  type Url = string

  /** What the HTML parser yields for one page: the text of the configured text
      region and the raw `href` values found in the link region (both empty when
      the region is absent). */
  datatype Page = Page(text: string, hrefs: seq<string>)

  /** The foreign calls the crawl depends on, all left uninterpreted. */
  datatype Env = Env(
    fetch: Url -> Page,           // requests.get followed by the region search
    join: (Url, string) -> Url,   // urllib.parse.urljoin
    netloc: Url -> string,        // urlparse(u).netloc
    path: Url -> string,          // urlparse(u).path
    nfkd: string -> string)       // unicodedata.normalize('NFKD', ·)

  /** The loop's variables: `visited_links`, `links_to_visit`, the output
      directory, and the sequence of URLs fetched so far, in order. */
  datatype State = State(
    visited: set<Url>,
    frontier: set<Url>,
    files: map<string, string>,
    fetched: seq<Url>)

  predicate NoDuplicates(xs: seq<Url>)
  {
    forall i, j :: 0 <= i < j < |xs| ==> xs[i] != xs[j]
  }

  /** A link found on page `base` is queued: it does not start with `#` and,
      resolved against `base`, it names the same network location. */
  predicate Accepted(env: Env, base: Url, link: string)
  {
    !Links.IsFragmentOnly(link) && env.netloc(env.join(base, link)) == env.netloc(base)
  }

  /** The URLs the inner `for new_link in new_links` loop adds to the frontier:
      exactly the accepted links, resolved against `base`. */
  function NewLinks(env: Env, base: Url, links: seq<string>): (found: set<Url>)
    ensures forall u :: u in found ==> env.netloc(u) == env.netloc(base)
    ensures forall i :: 0 <= i < |links| && Accepted(env, base, links[i]) ==> env.join(base, links[i]) in found
    ensures forall u :: u in found ==>
              exists i :: 0 <= i < |links| && Accepted(env, base, links[i]) && u == env.join(base, links[i])
    decreases |links|
  {
    if |links| == 0 then {}
    else
      var rest := NewLinks(env, base, links[1..]);
      assert forall i :: 1 <= i < |links| ==> links[1..][i - 1] == links[i];
      if Links.IsFragmentOnly(links[0]) then rest
      else
        var u := env.join(base, links[0]);
        if env.netloc(u) == env.netloc(base) then {u} + rest else rest
  }

  /** The links of page `u` that the crawl queues after visiting it. */
  function Successors(env: Env, u: Url): set<Url>
  {
    NewLinks(env, u, Links.ExtractLinks(env.fetch(u).hrefs))
  }

  /** No page in `s` links to a page outside `s`. */
  ghost predicate Closed(env: Env, s: set<Url>)
  {
    forall u {:trigger Successors(env, u)} :: u in s ==> Successors(env, u) <= s
  }

  /** The file a visited URL is written to. */
  function PageFile(env: Env, outDir: string, u: Url): string
  {
    Output.PagePath(outDir, Links.FileStem(env.path(u)))
  }

  /** The text written for a visited URL. */
  function Content(env: Env, u: Url): string
  {
    Sanitizer.Sanitize(env.nfkd, env.fetch(u).text)
  }

  /** Two visited URLs are written to the same file exactly when their paths give
      the same stem; the second of them then finds the file present and is not
      written. */
  lemma PageFileShared(env: Env, outDir: string, u: Url, v: Url)
    ensures PageFile(env, outDir, u) == PageFile(env, outDir, v) <==>
            Links.FileStem(env.path(u)) == Links.FileStem(env.path(v))
  {
    Output.PagePathInjective(outDir, Links.FileStem(env.path(u)), Links.FileStem(env.path(v)));
  }

  /** Where a visited page is written and what is written there. */
  datatype Writer = Writer(file: Url -> string, text: Url -> string)

  /** The writer of `scrape_webpage`: the page file under `outDir` and the
      sanitized text region. */
  function PageWriter(env: Env, outDir: string): Writer
  {
    Writer(u => PageFile(env, outDir, u), u => Content(env, u))
  }

  /** The page files of the URLs in `fetched`. */
  function FilesOf(w: Writer, fetched: seq<Url>): set<string>
  {
    set u | u in fetched :: w.file(u)
  }

  /** The `i`-th fetched URL is the first to claim a page file that did not exist
      before the crawl. */
  predicate FirstWriter(w: Writer, fs0: map<string, string>, fetched: seq<Url>, i: int)
    requires 0 <= i < |fetched|
  {
    && w.file(fetched[i]) !in fs0
    && w.file(fetched[i]) !in FilesOf(w, fetched[..i])
  }

  /** One round of the `while links_to_visit` loop, popping `link`. */
  function Visit(env: Env, w: Writer, st: State, link: Url): (r: State)
    requires link in st.frontier
    ensures r.visited == st.visited + {link}
    ensures link in st.visited <==> r.fetched == st.fetched
    ensures link !in st.visited ==> r.fetched == st.fetched + [link]
    ensures link in st.visited ==> r.files == st.files
    ensures forall k :: k in st.files ==> k in r.files && r.files[k] == st.files[k]
    ensures r.files.Keys <= st.files.Keys + {w.file(link)}
    ensures link !in st.visited ==> w.file(link) in r.files
    ensures link !in st.visited ==> r.frontier == (st.frontier - {link}) + Successors(env, link)
    ensures link in st.visited ==> r.frontier == st.frontier - {link}
    ensures link !in st.visited && w.file(link) !in st.files ==> r.files[w.file(link)] == w.text(link)
  {
    var frontier := st.frontier - {link};
    if link in st.visited then st.(frontier := frontier)
    else
      var file := w.file(link);
      var files := if file in st.files then st.files else st.files[file := w.text(link)];
      State(st.visited + {link}, frontier + Successors(env, link), files, st.fetched + [link])
  }

  /** What holds of the output directory after every round. */
  ghost predicate FilesInv(w: Writer, fs0: map<string, string>, st: State)
  {
    && (forall k :: k in fs0 ==> k in st.files && st.files[k] == fs0[k])
    && st.files.Keys == fs0.Keys + FilesOf(w, st.fetched)
    && (forall i {:trigger FirstWriter(w, fs0, st.fetched, i)} ::
          0 <= i < |st.fetched| && FirstWriter(w, fs0, st.fetched, i) ==>
          w.file(st.fetched[i]) in st.files && st.files[w.file(st.fetched[i])] == w.text(st.fetched[i]))
  }

  /** Each URL is fetched at most once, and exactly the visited ones are. */
  ghost predicate FetchedOnce(st: State)
  {
    && NoDuplicates(st.fetched)
    && (forall u :: u in st.fetched <==> u in st.visited)
  }

  /** What the crawl has seen so far is on the seed's host, lies inside every
      closed set holding the seed, and includes every successor of a visited page. */
  ghost predicate Reach(env: Env, seed: Url, st: State)
  {
    && seed in st.visited + st.frontier
    && (forall u :: u in st.visited + st.frontier ==> env.netloc(u) == env.netloc(seed))
    && (forall u {:trigger Successors(env, u)} :: u in st.visited ==> Successors(env, u) <= st.visited + st.frontier)
    && (forall s :: seed in s && Closed(env, s) ==> st.visited + st.frontier <= s)
  }

  /** The seed is fetched first: until then the frontier holds nothing but the
      seed and nothing is visited. */
  ghost predicate SeedFirst(seed: Url, st: State)
  {
    && (|st.fetched| == 0 ==> st.frontier <= {seed} && st.visited == {})
    && (|st.fetched| > 0 ==> st.fetched[0] == seed)
  }

  /** `u` was found on one of the first `n` pages of `fetched`. */
  ghost predicate FoundBy(env: Env, fetched: seq<Url>, n: int, u: Url)
  {
    exists j :: 0 <= j < n && j < |fetched| && u in Successors(env, fetched[j])
  }

  /** Every URL fetched after the seed was found on a page fetched before it, and
      once the seed is fetched every queued URL was found on a fetched page. */
  ghost predicate Discovered(env: Env, st: State)
  {
    && (|st.fetched| > 0 ==> forall u :: u in st.frontier ==> FoundBy(env, st.fetched, |st.fetched|, u))
    && (forall i :: 0 < i < |st.fetched| ==> FoundBy(env, st.fetched, i, st.fetched[i]))
  }

  /** The loop invariant of the crawl started at `seed`. */
  ghost predicate Inv(env: Env, w: Writer, seed: Url, fs0: map<string, string>, st: State)
  {
    && FetchedOnce(st) && Reach(env, seed, st) && FilesInv(w, fs0, st)
    && SeedFirst(seed, st) && Discovered(env, st)
  }

  /** The state before the first round satisfies the invariant. */
  lemma InitInv(env: Env, w: Writer, seed: Url, fs0: map<string, string>)
    ensures Inv(env, w, seed, fs0, State({}, {seed}, fs0, []))
  {
    assert FilesOf(w, []) == {};
  }

  /** Every round preserves the invariant. */
  lemma VisitKeepsInv(env: Env, w: Writer, seed: Url, fs0: map<string, string>, st: State, link: Url)
    requires Inv(env, w, seed, fs0, st)
    requires link in st.frontier
    ensures Inv(env, w, seed, fs0, Visit(env, w, st, link))
  {
    VisitKeepsFetchedOnce(env, w, st, link);
    VisitKeepsReach(env, w, seed, st, link);
    VisitKeepsOrder(env, w, seed, st, link);
    if link !in st.visited {
      VisitKeepsFiles(env, w, fs0, st, link);
    }
  }

  /** A round keeps the seed first and fetches only URLs found on pages fetched
      before. */
  lemma VisitKeepsOrder(env: Env, w: Writer, seed: Url, st: State, link: Url)
    requires SeedFirst(seed, st) && Discovered(env, st)
    requires link in st.frontier
    ensures SeedFirst(seed, Visit(env, w, st, link))
    ensures Discovered(env, Visit(env, w, st, link))
  {
    var r := Visit(env, w, st, link);
    if link !in st.visited {
      QueuedFound(env, st.fetched, st.frontier, link);
      FetchedFound(env, st.fetched, link);
      if |st.fetched| == 0 {
        assert link == seed;
      } else {
        assert r.fetched[0] == st.fetched[0];
      }
    }
  }

  /** After fetching `link`, every URL the round leaves queued was found on a
      fetched page. */
  lemma QueuedFound(env: Env, fetched: seq<Url>, frontier: set<Url>, link: Url)
    requires link in frontier
    requires |fetched| > 0 ==> forall u :: u in frontier ==> FoundBy(env, fetched, |fetched|, u)
    requires |fetched| == 0 ==> frontier <= {link}
    ensures forall u :: u in (frontier - {link}) + Successors(env, link) ==>
              FoundBy(env, fetched + [link], |fetched| + 1, u)
  {
    var n := |fetched|;
    forall u | u in (frontier - {link}) + Successors(env, link)
      ensures FoundBy(env, fetched + [link], n + 1, u)
    {
      if u in Successors(env, link) {
        assert (fetched + [link])[n] == link;
      } else {
        FoundByGrows(env, fetched, link, n, u);
      }
    }
  }

  /** Fetching a URL that was queued keeps every fetched URL after the seed found
      on a page fetched before it. */
  lemma FetchedFound(env: Env, fetched: seq<Url>, link: Url)
    requires forall i :: 0 < i < |fetched| ==> FoundBy(env, fetched, i, fetched[i])
    requires |fetched| > 0 ==> FoundBy(env, fetched, |fetched|, link)
    ensures forall i :: 0 < i < |fetched| + 1 ==> FoundBy(env, fetched + [link], i, (fetched + [link])[i])
  {
    var n := |fetched|;
    forall i | 0 < i < n + 1
      ensures FoundBy(env, fetched + [link], i, (fetched + [link])[i])
    {
      if i < n {
        assert (fetched + [link])[i] == fetched[i];
        FoundByGrows(env, fetched, link, i, fetched[i]);
      } else {
        FoundByGrows(env, fetched, link, n, link);
      }
    }
  }

  /** Appending a URL keeps every page found on the first `m` fetched pages. */
  lemma FoundByGrows(env: Env, fetched: seq<Url>, link: Url, m: int, u: Url)
    requires 0 <= m <= |fetched| && FoundBy(env, fetched, m, u)
    ensures FoundBy(env, fetched + [link], m, u)
  {
    var j :| 0 <= j < m && j < |fetched| && u in Successors(env, fetched[j]);
    assert (fetched + [link])[j] == fetched[j];
  }

  /** A round fetches only a URL not fetched before. */
  lemma VisitKeepsFetchedOnce(env: Env, w: Writer, st: State, link: Url)
    requires FetchedOnce(st)
    requires link in st.frontier
    ensures FetchedOnce(Visit(env, w, st, link))
  {
  }

  /** A round keeps the crawl on the seed's host, inside every closed set holding
      the seed, and queues the successors of the page it visits. */
  lemma VisitKeepsReach(env: Env, w: Writer, seed: Url, st: State, link: Url)
    requires Reach(env, seed, st)
    requires link in st.frontier
    ensures Reach(env, seed, Visit(env, w, st, link))
  {
    var r := Visit(env, w, st, link);
    var succ := Successors(env, link);
    if link !in st.visited {
      PopAndQueue(st.visited, st.frontier, link, succ);
      forall s | seed in s && Closed(env, s)
        ensures r.visited + r.frontier <= s
      {
        assert link in s;
      }
    } else {
      PopAndQueue(st.visited, st.frontier, link, {});
    }
  }

  /** Moving `link` from the frontier to the visited set and queueing `succ`
      adds exactly `succ` to what has been seen. */
  lemma PopAndQueue(visited: set<Url>, frontier: set<Url>, link: Url, succ: set<Url>)
    requires link in frontier
    ensures (visited + {link}) + ((frontier - {link}) + succ) == (visited + frontier) + succ
  {
  }

  /** A round that fetches a new URL preserves the file invariant. */
  lemma VisitKeepsFiles(env: Env, w: Writer, fs0: map<string, string>, st: State, link: Url)
    requires FilesInv(w, fs0, st)
    requires link in st.frontier && link !in st.visited && link !in st.fetched
    ensures FilesInv(w, fs0, Visit(env, w, st, link))
  {
    var r := Visit(env, w, st, link);
    FilesOfAppend(w, st.fetched, link);
    VisitAddsFile(env, w, st, link);
    forall i | 0 <= i < |r.fetched| && FirstWriter(w, fs0, r.fetched, i)
      ensures w.file(r.fetched[i]) in r.files
      ensures r.files[w.file(r.fetched[i])] == w.text(r.fetched[i])
    {
      VisitFirstWriter(env, w, fs0, st, link, i);
    }
  }

  /** Fetching one more URL adds its page file to the files of the fetched URLs. */
  lemma FilesOfAppend(w: Writer, fetched: seq<Url>, u: Url)
    ensures FilesOf(w, fetched + [u]) == FilesOf(w, fetched) + {w.file(u)}
  {
    var xs := fetched + [u];
    assert forall v :: v in xs <==> v in fetched || v == u;
  }

  /** A round that fetches a new URL leaves a file for it, and no other new file. */
  lemma VisitAddsFile(env: Env, w: Writer, st: State, link: Url)
    requires link in st.frontier && link !in st.visited
    ensures var r := Visit(env, w, st, link);
            r.fetched == st.fetched + [link] && r.files.Keys == st.files.Keys + {w.file(link)}
  {
  }

  /** After a round that fetches a new URL, the first writer of each new page
      file is still the one whose text the file holds. */
  lemma VisitFirstWriter(env: Env, w: Writer, fs0: map<string, string>, st: State, link: Url, i: int)
    requires FilesInv(w, fs0, st)
    requires link in st.frontier && link !in st.visited
    requires 0 <= i <= |st.fetched|
    requires FirstWriter(w, fs0, st.fetched + [link], i)
    ensures var r := Visit(env, w, st, link);
            w.file(r.fetched[i]) in r.files && r.files[w.file(r.fetched[i])] == w.text(r.fetched[i])
  {
    var r := Visit(env, w, st, link);
    var n := |st.fetched|;
    assert r.fetched == st.fetched + [link];
    assert r.fetched[..i] == st.fetched[..i];
    if i < n {
      assert r.fetched[i] == st.fetched[i];
      assert FirstWriter(w, fs0, st.fetched, i);
    } else {
      assert r.fetched[i] == link;
      assert st.fetched[..i] == st.fetched;
    }
  }

  /** Lists the elements of `s` once each, in an unspecified order, as iterating
      over a Python set does. */
  method Enumerate(s: set<Url>) returns (xs: seq<Url>)
    ensures NoDuplicates(xs)
    ensures forall u :: u in xs <==> u in s
  {
    xs := [];
    var rest := s;
    while rest != {}
      invariant rest <= s
      invariant NoDuplicates(xs)
      invariant forall u :: u in xs <==> u in s && u !in rest
      decreases rest
    {
      var u :| u in rest;
      xs := xs + [u];
      rest := rest - {u};
    }
  }

  /** The `while links_to_visit` loop: rounds of `Visit` until the frontier is
      empty, starting from the frontier `{seed}` and the directory `fs0`.

      The source loops forever on an infinite same-host link graph; the ghost
      `universe`, a finite set of URLs that holds the seed and is closed under
      `Successors`, bounds the crawl. It does not influence the result. */
  method Explore(env: Env, w: Writer, seed: Url, fs0: map<string, string>, ghost universe: set<Url>)
    returns (st: State)
    requires seed in universe && Closed(env, universe)
    ensures st.frontier == {}
    ensures Inv(env, w, seed, fs0, st)
  {
    st := State({}, {seed}, fs0, []);
    InitInv(env, w, seed, fs0);
    while st.frontier != {}
      invariant Inv(env, w, seed, fs0, st)
      invariant st.visited <= universe && st.frontier <= universe
      decreases |universe - st.visited|, |st.frontier|
    {
      var link :| link in st.frontier;
      VisitKeepsInv(env, w, seed, fs0, st, link);
      VisitProgresses(env, w, universe, st, link);
      st := Visit(env, w, st, link);
    }
  }

  /** A round stays inside a closed universe and either visits a new URL of it
      or shrinks the frontier: the measure of `Explore`'s loop. */
  lemma VisitProgresses(env: Env, w: Writer, universe: set<Url>, st: State, link: Url)
    requires Closed(env, universe)
    requires st.visited <= universe && st.frontier <= universe
    requires link in st.frontier
    ensures var r := Visit(env, w, st, link);
            && r.visited <= universe && r.frontier <= universe
            && (link !in st.visited ==> |universe - r.visited| < |universe - st.visited|)
            && (link in st.visited ==> r.visited == st.visited && |r.frontier| < |st.frontier|)
  {
    var r := Visit(env, w, st, link);
    assert Successors(env, link) <= universe;
    if link !in st.visited {
      assert universe - r.visited == (universe - st.visited) - {link};
    } else {
      assert r.frontier == st.frontier - {link};
    }
  }

  /** `scrape_webpage(out_dir, url, ...)` started on directory contents `fs0`:
      the crawl, then the summary. */
  method ScrapeWebpage(env: Env, outDir: string, seed: Url, fs0: map<string, string>, ghost universe: set<Url>)
    returns (visited: set<Url>, fetched: seq<Url>, listing: seq<Url>, fs: map<string, string>)
    requires seed in universe && Closed(env, universe)
    // The crawl reaches exactly the pages reachable from the seed.
    ensures seed in visited
    ensures Closed(env, visited)
    ensures forall s :: seed in s && Closed(env, s) ==> visited <= s
    // Every visited page is on the seed's host.
    ensures forall u :: u in visited ==> env.netloc(u) == env.netloc(seed)
    // Every visited page is fetched exactly once.
    ensures NoDuplicates(fetched)
    ensures forall u :: u in fetched <==> u in visited
    // The seed is fetched first; every later page was found on a page fetched before it.
    ensures |fetched| > 0 && fetched[0] == seed
    ensures forall i :: 0 < i < |fetched| ==>
              exists j :: 0 <= j < i && fetched[i] in Successors(env, fetched[j])
    // Files that existed are kept (bar the summary); the new ones are page files.
    ensures forall k :: k in fs0 && k != Output.SummaryPath(outDir) ==> k in fs && fs[k] == fs0[k]
    ensures fs.Keys == fs0.Keys + FilesOf(PageWriter(env, outDir), fetched) + {Output.SummaryPath(outDir)}
    // A new page file holds the text of the first page fetched under its name.
    ensures forall i ::
              (0 <= i < |fetched| && FirstWriter(PageWriter(env, outDir), fs0, fetched, i) &&
               PageFile(env, outDir, fetched[i]) != Output.SummaryPath(outDir)) ==>
              fs[PageFile(env, outDir, fetched[i])] == Content(env, fetched[i])
    // In particular the seed's page file, when it did not exist, holds the seed's text.
    ensures PageFile(env, outDir, seed) !in fs0 && PageFile(env, outDir, seed) != Output.SummaryPath(outDir) ==>
              fs[PageFile(env, outDir, seed)] == Content(env, seed)
    // The summary lists every visited URL once.
    ensures NoDuplicates(listing)
    ensures forall u :: u in listing <==> u in visited
    ensures fs[Output.SummaryPath(outDir)] == Output.SummaryText(listing)
  {
    var w := PageWriter(env, outDir);
    var st := Explore(env, w, seed, fs0, universe);
    visited := st.visited;
    fetched := st.fetched;
    listing := Enumerate(visited);
    fs := Output.WriteSummary(st.files, outDir, listing);
    ExitFacts(env, outDir, seed, fs0, st);
    if PageFile(env, outDir, seed) !in fs0 {
      assert fetched[..0] == [];
      assert FirstWriter(w, fs0, fetched, 0);
    }
  }

  /** What the invariant says once the frontier is empty, in the terms of
      `ScrapeWebpage`'s contract. */
  lemma ExitFacts(env: Env, outDir: string, seed: Url, fs0: map<string, string>, st: State)
    requires Inv(env, PageWriter(env, outDir), seed, fs0, st)
    requires st.frontier == {}
    ensures seed in st.visited
    ensures Closed(env, st.visited)
    ensures forall s :: seed in s && Closed(env, s) ==> st.visited <= s
    ensures forall u :: u in st.visited ==> env.netloc(u) == env.netloc(seed)
    ensures forall k :: k in fs0 ==> k in st.files && st.files[k] == fs0[k]
    ensures st.files.Keys == fs0.Keys + FilesOf(PageWriter(env, outDir), st.fetched)
    ensures forall i :: 0 <= i < |st.fetched| && FirstWriter(PageWriter(env, outDir), fs0, st.fetched, i) ==>
              st.files[PageFile(env, outDir, st.fetched[i])] == Content(env, st.fetched[i])
  {
    var w := PageWriter(env, outDir);
    assert st.visited + st.frontier == st.visited;
    forall i | 0 <= i < |st.fetched| && FirstWriter(w, fs0, st.fetched, i)
      ensures st.files[PageFile(env, outDir, st.fetched[i])] == Content(env, st.fetched[i])
    {
      assert w.file(st.fetched[i]) == PageFile(env, outDir, st.fetched[i]);
      assert w.text(st.fetched[i]) == Content(env, st.fetched[i]);
    }
  }
}
