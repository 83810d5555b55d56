/**
 The files one crawl produces in its output directory: one `<stem>.txt` per
 page and a `Summary.txt` listing the visited URLs. Paths are built the way the
 scraper builds them, by concatenating the directory, a backslash and the name.
 */
module Output {
  import opened Strings

  /** `out_dir + '\\' + stem + '.txt'`. */
  function PagePath(outDir: string, stem: string): string
  {
    outDir + "\\" + stem + ".txt"
  }

  /** `out_dir + '\\Summary.txt'`. */
  function SummaryPath(outDir: string): string
  {
    outDir + "\\Summary.txt"
  }

  /** First line of the summary file. */
  const SummaryHeader: string := "Urls Scraped Successfully:"

  /** What the summary file holds: the header line, then the listed URLs joined by newlines. */
  function SummaryText(listing: seq<string>): string
  {
    SummaryHeader + "\n" + Join(listing, '\n')
  }

  /** The directory `files` after the summary is written: the summary file is
      created or replaced and every other file is left as it was. */
  function WriteSummary(files: map<string, string>, outDir: string, listing: seq<string>): (r: map<string, string>)
    ensures r.Keys == files.Keys + {SummaryPath(outDir)}
    ensures r[SummaryPath(outDir)] == SummaryText(listing)
    ensures forall k :: k in files && k != SummaryPath(outDir) ==> r[k] == files[k]
  {
    files[SummaryPath(outDir) := SummaryText(listing)]
  }

  /** Two pages of one directory share a file exactly when they share a stem. */
  lemma PagePathInjective(outDir: string, a: string, b: string)
    ensures PagePath(outDir, a) == PagePath(outDir, b) <==> a == b
  {
    if PagePath(outDir, a) == PagePath(outDir, b) {
      var pa := PagePath(outDir, a);
      var pb := PagePath(outDir, b);
      assert |a| == |b|;
      assert a == pa[|outDir| + 1..|pa| - 4];
      assert b == pb[|outDir| + 1..|pb| - 4];
    }
  }

  /** The summary file is the page file of a page whose stem is `Summary`, so
      writing the summary replaces that page's text. */
  lemma SummaryPathIsPagePath(outDir: string)
    ensures SummaryPath(outDir) == PagePath(outDir, "Summary")
  {
  }

  /** Reading the summary back line by line gives the header followed by exactly
      the listed URLs, provided no URL contains a newline. */
  lemma SummaryLines(listing: seq<string>)
    requires |listing| >= 1
    requires forall i :: 0 <= i < |listing| ==> '\n' !in listing[i]
    ensures Split(SummaryText(listing), '\n') == [SummaryHeader] + listing
  {
    var lines := [SummaryHeader] + listing;
    assert lines[1..] == listing;
    assert Join(lines, '\n') == SummaryText(listing);
    SplitJoin(lines, '\n');
  }
}
