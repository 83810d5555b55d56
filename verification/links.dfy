/**
 How the scraper turns raw `href` values into links and URL paths into output
 file names: the fragment cut applied to every `href` when links are extracted,
 the `#` test applied before resolution, and the page-file stem (last path
 segment with `.html` removed).
 */
module Links {
  import opened Strings

  /** `new_link.startswith('#')`: a reference to a fragment of the current page. */
  predicate IsFragmentOnly(link: string)
  {
    StartsWith(link, "#")
  }

  /** `href.split('#')[0]`: the part of an `href` before its first `#`. */
  function StripFragment(href: string): (r: string)
    ensures '#' !in r
    ensures r <= href
    ensures |r| < |href| ==> href[|r|] == '#'
  {
    SplitPieces(href, '#');
    Split(href, '#')[0]
  }

  /** The list `extract_link` returns for the raw `href` values of the link
      region, in document order. */
  function ExtractLinks(hrefs: seq<string>): (links: seq<string>)
    ensures |links| == |hrefs|
    ensures forall i :: 0 <= i < |links| ==> links[i] == StripFragment(hrefs[i])
    ensures forall i :: 0 <= i < |links| ==> '#' !in links[i] && !IsFragmentOnly(links[i])
  {
    seq(|hrefs|, i requires 0 <= i < |hrefs| => StripFragment(hrefs[i]))
  }

  /** A fragment-only `href` such as `#top` is cut down to the empty link. */
  lemma FragmentOnlyBecomesEmpty(href: string)
    requires IsFragmentOnly(href)
    ensures StripFragment(href) == ""
  {
  }

  /** `path.split('/')[-1]`: the text after the last `/`, or all of `path`. */
  function LastSegment(path: string): (r: string)
    ensures '/' !in r
    ensures |r| <= |path| && r == path[|path| - |r|..]
    ensures |r| < |path| ==> path[|path| - |r| - 1] == '/'
  {
    var parts := Split(path, '/');
    SplitLast(path, '/');
    SplitPieces(path, '/');
    parts[|parts| - 1]
  }

  /** The last segment of `dir/name` is `name`, whatever `dir` holds. */
  lemma LastSegmentOf(dir: string, name: string)
    requires '/' !in name
    ensures LastSegment(dir + "/" + name) == name
  {
    var path := dir + "/" + name;
    var r := LastSegment(path);
    assert path[|path| - |name| - 1] == '/';
    assert path[|path| - |name|..] == name;
    assert |r| == |name|;
  }

  /** The page-file stem of a URL path: `path.split('/')[-1].replace('.html', '')`. */
  function FileStem(path: string): (stem: string)
    ensures '/' !in stem
    ensures |stem| <= |LastSegment(path)|
  {
    RemoveAll(LastSegment(path), ".html")
  }

  /** A page `dir/stem.html` whose stem holds no `/` and no `.html` is stored under `stem`. */
  lemma FileStemOfHtmlPage(dir: string, stem: string)
    requires '/' !in stem
    requires forall i :: !OccursAt(stem, ".html", i)
    ensures FileStem(dir + "/" + stem + ".html") == stem
  {
    assert dir + "/" + stem + ".html" == dir + "/" + (stem + ".html");
    assert '/' !in stem + ".html";
    LastSegmentOf(dir, stem + ".html");
    forall i | 0 <= i < |stem|
      ensures !OccursAt(stem + ".html" + "", ".html", i)
    {
      var s := stem + ".html" + "";
      if i + 5 <= |stem| {
        assert s[i..i + 5] == stem[i..i + 5];
        assert !OccursAt(stem, ".html", i);
      } else {
        assert s[|stem|] == '.';
        assert ".html"[|stem| - i] != '.';
      }
    }
    RemoveAllFirst(stem, "", ".html");
    assert stem + ".html" + "" == stem + ".html";
  }

  /** The stem is the last segment with its leftmost `.html` cut out and the
      scan continued on the rest. */
  lemma FileStemDropsHtml(path: string, x: string, y: string)
    requires LastSegment(path) == x + ".html" + y
    requires forall i :: 0 <= i < |x| ==> !OccursAt(x + ".html" + y, ".html", i)
    ensures FileStem(path) == x + RemoveAll(y, ".html")
  {
    RemoveAllFirst(x, y, ".html");
  }

  /** A last segment without `.html` is the stem itself. */
  lemma FileStemNoHtml(path: string)
    requires forall i :: !OccursAt(LastSegment(path), ".html", i)
    ensures FileStem(path) == LastSegment(path)
  {
    RemoveAllAbsent(LastSegment(path), ".html");
  }
}
