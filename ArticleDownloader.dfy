/**
 * The packaged downloader (`articledownloader/articledownloader.py`): an
 * object holding an API key, request headers and the lists that searches
 * and file reads fill, with one method per operation. Network replies are
 * parameters of the methods.
 */
module Downloader {
  import opened Outcomes
  import opened Strings
  import opened Http
  import opened Scrapers
  import opened QueryBuilder
  import opened Search
  import opened Articles

  /** Where a search request goes, or how the call ends before any request. */
  datatype Target = Url(url: string) | Rejected(result: Returned)

  /**
   * The URL of lines 30-40: elsevier and rsc need only the query; nature and
   * springer append the API key, and concatenating a missing key raises
   * TypeError; any other mode returns -1.
   */
  function SearchTarget(mode: string, query: string, apiKey: Option<string>): Target {
    if mode == "elsevier" then Url(ElsevierSearch + query)
    else if mode == "rsc" then Url(CrossrefSearch + query)
    else if mode == "nature" || mode == "springer" then
      if apiKey.None? then Rejected(Raised(TypeError))
      else Url((if mode == "nature" then NatureSearch else SpringerSearch) + query + "&api_key=" + apiKey.value)
    else Rejected(Int(-1))
  }

  /** What one call of `get_piis_dois_from_search` requests, returns and leaves in the lists. */
  datatype SearchStep = SearchStep(requested: Option<string>, result: Returned, piis: seq<string>, dois: seq<string>)

  function PackageSearch(mode: string, query: string, apiKey: Option<string>,
                         piis: seq<string>, dois: seq<string>, answer: Answer): SearchStep {
    match SearchTarget(mode, query, apiKey)
    case Rejected(r) => SearchStep(None, r, piis, dois)
    case Url(u) =>
      var r := Respond(mode, piis, dois, answer, true);
      SearchStep(Some(u), r.result, r.piis, r.dois)
  }

  /**
   * A request is sent for the four known modes, nature and springer only
   * with a key. The URL is the mode's endpoint followed by the query, and for
   * nature and springer by `&api_key=` and the key, which it therefore
   * contains.
   */
  lemma SearchRequests(mode: string, query: string, apiKey: Option<string>, piis: seq<string>, dois: seq<string>, answer: Answer)
    ensures var s := PackageSearch(mode, query, apiKey, piis, dois, answer);
            s.requested.Some? <==> mode in {"elsevier", "rsc"} || (mode in {"nature", "springer"} && apiKey.Some?)
    ensures var s := PackageSearch(mode, query, apiKey, piis, dois, answer);
            s.requested.None? ==> s.piis == piis && s.dois == dois &&
                                  s.result == if mode in {"nature", "springer"} then Raised(TypeError) else Int(-1)
    ensures var s := PackageSearch(mode, query, apiKey, piis, dois, answer);
            mode == "elsevier" ==> s.requested == Some(ElsevierSearch + query)
    ensures var s := PackageSearch(mode, query, apiKey, piis, dois, answer);
            mode == "rsc" ==> s.requested == Some(CrossrefSearch + query)
    ensures var s := PackageSearch(mode, query, apiKey, piis, dois, answer);
            mode == "nature" && apiKey.Some? ==> s.requested == Some(NatureSearch + query + "&api_key=" + apiKey.value)
    ensures var s := PackageSearch(mode, query, apiKey, piis, dois, answer);
            mode == "springer" && apiKey.Some? ==> s.requested == Some(SpringerSearch + query + "&api_key=" + apiKey.value)
    ensures var s := PackageSearch(mode, query, apiKey, piis, dois, answer);
            mode in {"nature", "springer"} && apiKey.Some? ==>
              s.requested.Some? && (NatureSearch <= s.requested.value || SpringerSearch <= s.requested.value) &&
              Contains(s.requested.value, "&api_key=" + apiKey.value)
  {
    if mode in {"nature", "springer"} && apiKey.Some? {
      var pre := (if mode == "nature" then NatureSearch else SpringerSearch) + query;
      var u := pre + "&api_key=" + apiKey.value;
      assert u[|pre|..][..|"&api_key=" + apiKey.value|] == "&api_key=" + apiKey.value;
      assert OccursAt(u, "&api_key=" + apiKey.value, |pre|);
      ContainsIff(u, "&api_key=" + apiKey.value);
      if mode == "nature" {
        assert u[..|NatureSearch|] == NatureSearch;
      } else {
        assert u[..|SpringerSearch|] == SpringerSearch;
      }
    }
  }

  /**
   * Nature and springer searches send the request, then return None (or
   * raise ValueError on a body that is not JSON) without touching the lists.
   */
  lemma NatureSpringerIgnored(mode: string, query: string, key: string, piis: seq<string>, dois: seq<string>, answer: Answer)
    requires mode == "nature" || mode == "springer"
    ensures var s := PackageSearch(mode, query, Some(key), piis, dois, answer);
            s.piis == piis && s.dois == dois &&
            s.result == (if answer.Refused? then Int(-1) else if answer.body.Undecodable? then Raised(ValueError) else NoneValue)
  {
  }

  /** The packaged downloader object. */
  class ArticleDownloader {
    var articlePath: string
    var headers: map<string, Option<string>>
    var piis: seq<string>
    var dois: seq<string>
    var xmls: seq<Bytes>
    var queries: seq<string>
    const apiKey: Option<string>

    /** Lists empty; the API key is sent as header `X-ELS-APIKEY` (None when absent). */
    constructor (articlePath: string, apiKey: Option<string>)
      ensures this.articlePath == articlePath && this.apiKey == apiKey
      ensures headers == map["X-ELS-APIKEY" := apiKey]
      ensures piis == [] && dois == [] && xmls == [] && queries == []
    {
      this.articlePath := articlePath;
      headers := map["X-ELS-APIKEY" := apiKey];
      piis, dois, xmls, queries := [], [], [], [];
      this.apiKey := apiKey;
    }

    /**
     * `get_piis_dois_from_search`: `answer` is what the request yields.
     * `requested` is the URL requested (None when the call ends first);
     * `result` is the value returned or the exception that escapes.
     */
    method GetPiisDoisFromSearch(query: string, mode: string, answer: Answer) returns (requested: Option<string>, result: Returned)
      modifies this
      ensures SearchStep(requested, result, piis, dois) == PackageSearch(mode, query, apiKey, old(piis), old(dois), answer)
      ensures articlePath == old(articlePath) && headers == old(headers) && xmls == old(xmls) && queries == old(queries)
    {
      var target := SearchTarget(mode, query, apiKey);
      if target.Rejected? {
        return None, target.result;
      }
      requested := Some(target.url);
      if answer.Refused? {
        return requested, Int(-1);
      }
      var body := answer.body;
      if body.Undecodable? {
        return requested, Raised(ValueError);
      }
      if mode == "elsevier" {
        match body
        case Array(_) =>
          result := Raised(TypeError);
        case Object(Some(records)) =>
          var list, keyError := CollectLoop(piis, records, Key(Pii), Picker(Pii), true);
          piis := list;
          result := if keyError then Int(-1) else Int(|piis|);
        case _ =>
          result := Int(-1);
      } else if mode == "rsc" {
        match body
        case Object(_) =>
          result := Raised(TypeError);
        case Array(records) =>
          var list, keyError := CollectLoop(dois, records, Key(Doi), Picker(Doi), true);
          dois := list;
          result := if keyError then Int(-1) else Int(|dois|);
        case _ =>
          result := Int(|dois|);
      } else {
        result := NoneValue;
      }
    }

    /** `get_piis_from_file`: each line of the file, cleaned, is appended to `piis`. */
    method GetPiisFromFile(lines: seq<string>)
      modifies this
      ensures |piis| == |old(piis)| + |lines| && old(piis) <= piis
      ensures forall k :: 0 <= k < |lines| ==> piis[|old(piis)| + k] == CleanPii(lines[k])
      ensures articlePath == old(articlePath) && headers == old(headers) && dois == old(dois) &&
              xmls == old(xmls) && queries == old(queries)
    {
      for i := 0 to |lines|
        invariant |piis| == |old(piis)| + i && old(piis) <= piis
        invariant forall k :: 0 <= k < i ==> piis[|old(piis)| + k] == CleanPii(lines[k])
        invariant articlePath == old(articlePath) && headers == old(headers) && dois == old(dois) &&
                  xmls == old(xmls) && queries == old(queries)
      {
        piis := piis + [CleanPii(lines[i])];
      }
    }

    /**
     * `get_xml_from_pii`: the response body is appended whatever its status;
     * a refused connection appends nothing.
     */
    method GetXmlFromPii(pii: string, reply: Reply) returns (requested: string)
      modifies this
      ensures requested == ArticleUrl(pii)
      ensures xmls == old(xmls) + (if reply.Reply? then [reply.content] else [])
      ensures articlePath == old(articlePath) && headers == old(headers) && piis == old(piis) &&
              dois == old(dois) && queries == old(queries)
    {
      requested := ArticleUrl(pii);
      if reply.Reply? {
        xmls := xmls + [reply.content];
      }
    }

    /**
     * `get_pdf_from_pii`: the article path and the `Accept` header are set
     * before the request, so they stay set when it is refused; the PDF is
     * written only on status 200.
     */
    method GetPdfFromPii(pii: string, directory: string, reply: Reply) returns (requested: string, saved: Option<Bytes>)
      modifies this
      ensures articlePath == PdfPath(directory, pii)
      ensures headers == old(headers)["Accept" := Some("application/pdf")]
      ensures requested == ArticleUrl(pii)
      ensures saved.Some? <==> reply.Reply? && reply.status == 200
      ensures saved.Some? ==> saved.value == reply.content
      ensures piis == old(piis) && dois == old(dois) && xmls == old(xmls) && queries == old(queries)
    {
      articlePath := directory + PdfName(pii);
      articlePath := articlePath + PdfSuffix;
      requested := ArticleUrl(pii);
      headers := headers["Accept" := Some("application/pdf")];
      saved := SaveIfOk(reply);
    }

    /**
     * `download_article`: `page` holds the start tags of the landing page,
     * None when the first request fails; `reply` answers the second request.
     * `moduleDir` stands for the directory of the module file.
     */
    method DownloadArticle(pii: Option<string>, doi: Option<string>, regex: bool, mode: string,
                           articleDir: string, moduleDir: string,
                           page: Option<seq<StartTag>>, reply: Reply) returns (outcome: Download)
      modifies this
      ensures outcome.NotLocated? <==> LandingUrl(mode, pii, doi).None? || page.None?
      ensures outcome.NotLocated? ==> articlePath == old(articlePath)
      ensures !outcome.NotLocated? ==>
                (pii.Some? || doi.Some?) &&
                outcome.landing == LandingUrl(mode, pii, doi).value &&
                articlePath == moduleDir + articleDir + ArticleName(pii, doi) + PdfSuffix
      ensures !outcome.NotLocated? ==>
                (outcome.LinkUnbound? <==> DownloadTarget(regex, outcome.landing, page.value).None?)
      ensures outcome.FetchRaised? || outcome.Fetched? ==>
                Some(outcome.url) == DownloadTarget(regex, outcome.landing, page.value) &&
                (outcome.FetchRaised? <==> reply.Refused?)
      ensures outcome.Fetched? ==>
                (outcome.saved.Some? <==> reply.Reply? && reply.status == 200) &&
                (outcome.saved.Some? ==> outcome.saved.value == reply.content)
      ensures headers == old(headers) && piis == old(piis) && dois == old(dois) && xmls == old(xmls) && queries == old(queries)
    {
      var landing := LandingUrl(mode, pii, doi);
      if landing.None? || page.None? {
        return NotLocated;
      }
      LandingNeedsIdentifier(mode, pii, doi);
      var name := if doi.None? then PdfName(pii.value) else doi.value;
      articlePath := moduleDir + articleDir + name;
      articlePath := articlePath + PdfSuffix;
      var url: string;
      if regex {
        var parser := new LinkScraper(PdfLink);
        parser.Feed(page.value);
        if parser.downloadLink.None? {
          return LinkUnbound(landing.value);
        }
        url := parser.downloadLink.value;
      } else {
        url := landing.value;
      }
      if reply.Refused? {
        return FetchRaised(landing.value, url);
      }
      var saved := SaveIfOk(reply);
      return Fetched(landing.value, url, saved);
    }

    /**
     * `load_queries_from_csv`: `rows` are the CSV records in file order.
     * Returns None, or IndexError when a selected row is empty; the queries
     * built before that stay appended.
     */
    method LoadQueriesFromCsv(rows: seq<seq<string>>, limit: int, start: int, count: int) returns (result: Returned)
      modifies this
      ensures queries == old(queries) + CsvQueries(rows, limit, start, count)
      ensures result == if CsvTitles(rows, limit, start).indexError then Raised(IndexError) else NoneValue
      ensures articlePath == old(articlePath) && headers == old(headers) && piis == old(piis) &&
              dois == old(dois) && xmls == old(xmls)
    {
      var added, raised := ReadQueries(rows, limit, start, count);
      queries := queries + added;
      result := if raised then Raised(IndexError) else NoneValue;
    }
  }
}
