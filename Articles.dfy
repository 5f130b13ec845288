/**
 * How both downloader snapshots name and locate an article: the pii
 * sanitiser, the Elsevier article URL, the PDF file name, the landing page
 * of `download_article` and the choice of the URL it finally fetches.
 */
module Articles {
  import opened Outcomes
  import opened Strings
  import opened Http
  import opened Scrapers

  const ElsevierArticle: string := "http://api.elsevier.com/content/article/PII:"
  const FullView: string := "?view=FULL"
  const ScienceDirectLanding: string := "http://www.sciencedirect.com/science/article/pii/"
  const RscLanding: string := "http://pubs.rsc.org/en/content/articlepdf/1/cc/"
  const PdfSuffix: string := ".pdf"

  /** The characters `get_piis_from_file` deletes from each line. */
  const PiiNoise: set<char> := {'-', '(', ')'}
  /** The characters deleted from a pii to name its PDF. */
  const Parens: set<char> := {'(', ')'}

  /** `re.sub('[\-\(\)]', '', line)`. */
  function CleanPii(line: string): string {
    RemoveChars(line, PiiNoise)
  }

  /** The full-text URL of an Elsevier article, for XML and PDF alike. */
  function ArticleUrl(pii: string): string {
    ElsevierArticle + pii + FullView
  }

  /** `re.sub('[\(\)]', '', pii)`. */
  function PdfName(pii: string): string {
    RemoveChars(pii, Parens)
  }

  /** Where `get_pdf_from_pii` writes: the directory, the name, `.pdf`. */
  function PdfPath(directory: string, pii: string): string {
    directory + PdfName(pii) + PdfSuffix
  }

  /**
   * The page `download_article` requests first; None when building it
   * raises inside the `try`: the mode is neither elsevier nor rsc (the URL
   * stays unbound) or the identifier the mode needs is None.
   */
  function LandingUrl(mode: string, pii: Option<string>, doi: Option<string>): Option<string> {
    if mode == "elsevier" then
      if pii.Some? then Some(ScienceDirectLanding + pii.value + "/") else None
    else if mode == "rsc" then
      if doi.Some? then Some(RscLanding + doi.value) else None
    else None
  }

  /** The file name stem: the DOI when there is one, else the pii without parentheses. */
  function ArticleName(pii: Option<string>, doi: Option<string>): string
    requires pii.Some? || doi.Some?
  {
    if doi.None? then PdfName(pii.value) else doi.value
  }

  /** The URL of the second request: the scraped link with `regex`, else the landing page. */
  function DownloadTarget(regex: bool, landing: string, page: seq<StartTag>): Option<string> {
    if regex then Fold(PdfLink, None, page) else Some(landing)
  }

  /** A cleaned line has lost every `-`, `(` and `)` and kept every other character, each as often as before. */
  lemma CleanPiiChars(line: string)
    ensures forall c :: c in PiiNoise ==> c !in CleanPii(line)
    ensures forall c :: c !in PiiNoise ==> multiset(CleanPii(line))[c] == multiset(line)[c]
  {
    RemoveCharsCounts(line, PiiNoise);
  }

  /** A line read from a file keeps its trailing newline through cleaning. */
  lemma CleanPiiKeepsNewline(line: string)
    requires line != [] && line[|line| - 1] == '\n'
    ensures CleanPii(line) != [] && CleanPii(line)[|CleanPii(line)| - 1] == '\n'
  {
    var n := |line| - 1;
    assert line == line[..n] + "\n";
    RemoveCharsAppend(line[..n], "\n", PiiNoise);
    RemoveCharsNone("\n", PiiNoise);
  }

  /** The pii can be read back out of its article URL. */
  lemma ArticleUrlRoundTrip(pii: string)
    ensures ElsevierArticle <= ArticleUrl(pii)
    ensures ArticleUrl(pii)[|ElsevierArticle|..|ArticleUrl(pii)| - |FullView|] == pii
  {
    var u := ArticleUrl(pii);
    assert u[..|ElsevierArticle|] == ElsevierArticle;
  }

  /**
   * A PDF path is the directory, then a name free of parentheses that keeps
   * the pii's other characters, then `.pdf`; a pii without parentheses is
   * its own name.
   */
  lemma PdfPathShape(directory: string, pii: string)
    ensures var p := PdfPath(directory, pii);
            directory <= p && |p| >= |directory| + |PdfSuffix| && p[|p| - |PdfSuffix|..] == PdfSuffix &&
            p[|directory|..|p| - |PdfSuffix|] == PdfName(pii)
    ensures '(' !in PdfName(pii) && ')' !in PdfName(pii)
    ensures forall c :: c !in Parens ==> multiset(PdfName(pii))[c] == multiset(pii)[c]
    ensures '(' !in pii && ')' !in pii ==> PdfName(pii) == pii
  {
    var p := PdfPath(directory, pii);
    assert p[..|directory|] == directory;
    RemoveCharsCounts(pii, Parens);
    if '(' !in pii && ')' !in pii {
      RemoveCharsNone(pii, Parens);
    }
  }

  /**
   * A landing page exists exactly for elsevier mode with a pii and rsc mode
   * with a DOI; without a DOI the mode is then elsevier, so a name can always
   * be formed once the page is located. The name follows the DOI whenever one
   * is given, even in elsevier mode where the page was built from the pii.
   */
  lemma LandingNeedsIdentifier(mode: string, pii: Option<string>, doi: Option<string>)
    ensures LandingUrl(mode, pii, doi).Some? <==> (mode == "elsevier" && pii.Some?) || (mode == "rsc" && doi.Some?)
    ensures LandingUrl(mode, pii, doi).Some? && doi.None? ==> mode == "elsevier" && pii.Some?
    ensures LandingUrl(mode, pii, doi).Some? ==> pii.Some? || doi.Some?
    ensures doi.Some? ==> ArticleName(pii, doi) == doi.value
    ensures pii.Some? && doi.None? ==> ArticleName(pii, doi) == PdfName(pii.value)
  {
  }

  /**
   * With `regex`, the fetched URL is the `href` of an `a` tag marked
   * (`id`, `pdfLink`) on the landing page, the last such tag winning; there
   * is none exactly when no such tag carries an `href`. Without `regex` the
   * landing page itself is fetched.
   */
  lemma DownloadTargetChoice(regex: bool, landing: string, page: seq<StartTag>)
    ensures !regex ==> DownloadTarget(regex, landing, page) == Some(landing)
    ensures regex ==> (DownloadTarget(regex, landing, page).None? <==>
                         forall j :: 0 <= j < |page| ==> TagLink(PdfLink, page[j]).None?)
    ensures regex && DownloadTarget(regex, landing, page).Some? ==>
              exists k :: 0 <= k < |page| && page[k].tag == "a" && ("id", "pdfLink") in page[k].attrs &&
                ("href", DownloadTarget(regex, landing, page).value) in page[k].attrs &&
                forall j :: k < j < |page| ==> TagLink(PdfLink, page[j]).None?
  {
    if regex {
      NoLinkIff(PdfLink, page);
      if Fold(PdfLink, None, page).Some? {
        FoldLastWins(PdfLink, None, page);
        var k := LastSetter(PdfLink, page).value;
        var t := page[k];
        assert Fold(PdfLink, None, page) == TagLink(PdfLink, t);
        ScanLast(PdfLink, t.attrs);
        var i :| 0 <= i < |t.attrs| && AttrLink(PdfLink, t.attrs[i]) == ScanAttrs(PdfLink, None, t.attrs) &&
                 forall j :: i < j < |t.attrs| ==> AttrLink(PdfLink, t.attrs[j]).None?;
        assert t.attrs[i] == ("href", Fold(PdfLink, None, page).value);
      }
    }
  }

  /** How `download_article` ends. */
  datatype Download =
    | NotLocated                                                 // the `try` around the first request failed: returns None
    | LinkUnbound(landing: string)                               // no link scraped: `download_url` is unbound, NameError escapes
    | FetchRaised(landing: string, url: string)                  // the second request raises ConnectionError, which escapes
    | Fetched(landing: string, url: string, saved: Option<Bytes>) // returns None; the file is written on status 200
}
