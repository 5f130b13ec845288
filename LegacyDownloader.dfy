/**
 * The older, unpackaged downloader (`article-downloader/article_downloader.py`).
 * It differs from the packaged one in three ways: the caller hands in the
 * whole header dictionary (or None); a search first empties `piis`, `dois`
 * and `xmls`, knows only the elsevier and rsc modes and keeps repeated
 * entries; and setting the `Accept` header of a None dictionary raises.
 */
module Legacy {
  import opened Outcomes
  import opened Strings
  import opened Http
  import opened Scrapers
  import opened QueryBuilder
  import opened Search
  import opened Articles

  /** What one call of `get_piis_dois_from_search` requests, returns and leaves in the lists. */
  datatype LegacyStep = LegacyStep(requested: Option<string>, result: Returned, piis: seq<string>, dois: seq<string>)

  /**
   * The older search: the lists are emptied before anything else, so only
   * this response counts; any mode but elsevier and rsc returns -1 without a
   * request; repeated entries are kept.
   */
  function LegacySearch(mode: string, query: string, answer: Answer): LegacyStep {
    if mode == "elsevier" || mode == "rsc" then
      var r := Respond(mode, [], [], answer, false);
      LegacyStep(Some((if mode == "elsevier" then ElsevierSearch else CrossrefSearch) + query), r.result, r.piis, r.dois)
    else LegacyStep(None, Int(-1), [], [])
  }

  /**
   * A successful elsevier search lists the pii of every record in response
   * order, repeats included, and returns how many records there were; the
   * DOI list is left empty.
   */
  lemma LegacyElsevierExact(query: string, records: seq<Article>)
    requires forall k :: 0 <= k < |records| ==> "pii" in records[k]
    ensures var s := LegacySearch("elsevier", query, Answer(Object(Some(records))));
            s.result == Int(|records|) && |s.piis| == |records| && s.dois == [] &&
            forall k :: 0 <= k < |records| ==> s.piis[k] == records[k]["pii"]
  {
    ElsevierNoDedup([], [], records);
  }

  /**
   * A successful rsc search lists what the response yields, in response
   * order, repeats included: every RSC DOI, stripped of the resolver prefix.
   * It returns how many there are and leaves the pii list empty.
   */
  lemma {:induction false} LegacyRscExact(query: string, items: seq<Article>)
    requires forall k :: 0 <= k < |items| ==> "doi" in items[k]
    ensures var s := LegacySearch("rsc", query, Answer(Array(items)));
            s.dois == Picked(items, Key(Doi), Picker(Doi)) && s.result == Int(|s.dois|) && s.piis == []
  {
    CollectNoDedup([], items, Key(Doi), Picker(Doi));
  }

  /**
   * Each search starts from empty lists: an elsevier search leaves no DOIs,
   * an rsc search leaves no piis, any other mode leaves both empty and
   * returns -1 without a request, and an int result is -1 or the size of the
   * list its mode fills.
   */
  lemma {:induction false} LegacySearchFresh(mode: string, query: string, answer: Answer)
    ensures var s := LegacySearch(mode, query, answer);
            (mode != "elsevier" ==> s.piis == []) && (mode != "rsc" ==> s.dois == [])
    ensures var s := LegacySearch(mode, query, answer);
            s.result.Int? ==> s.result.value == -1 || s.result.value == |s.piis| + |s.dois|
    ensures var s := LegacySearch(mode, query, answer);
            s.requested.None? <==> mode != "elsevier" && mode != "rsc"
    ensures var s := LegacySearch(mode, query, answer);
            mode != "elsevier" && mode != "rsc" ==> s.result == Int(-1)
  {
    RespondAppends(mode, [], [], answer, false);
  }

  /**
   * The two snapshots part on a response that lists one pii twice: the older
   * search keeps both and returns 2, the packaged one (from empty lists)
   * keeps one and returns 1.
   */
  lemma DedupDiffers(p: string)
    ensures var records := [map["pii" := p], map["pii" := p]];
            var s := LegacySearch("elsevier", "q", Answer(Object(Some(records))));
            s.piis == [p, p] && s.result == Int(2)
    ensures var records := [map["pii" := p], map["pii" := p]];
            var r := Respond("elsevier", [], [], Answer(Object(Some(records))), true);
            r.piis == [p] && r.result == Int(1)
  {
    var records := [map["pii" := p], map["pii" := p]];
    assert records[..1] == [map["pii" := p]];
    assert records[..1][..0] == [];
    assert Collect([], records[..1], Key(Pii), Picker(Pii), true) == Collected([p], false);
    assert Collect([], records[..1], Key(Pii), Picker(Pii), false) == Collected([p], false);
  }

  /** The older downloader object. */
  class ArticleDownloader {
    var articlePath: string
    var headers: Option<map<string, Option<string>>>
    var piis: seq<string>
    var dois: seq<string>
    var xmls: seq<Bytes>
    var queries: seq<string>

    /** Lists empty; `headers` is the caller's dictionary, None by default. */
    constructor (articlePath: string, headers: Option<map<string, Option<string>>>)
      ensures this.articlePath == articlePath && this.headers == headers
      ensures piis == [] && dois == [] && xmls == [] && queries == []
    {
      this.articlePath := articlePath;
      this.headers := headers;
      piis, dois, xmls, queries := [], [], [], [];
    }

    /**
     * `get_piis_dois_from_search`: `xmls` is emptied along with both lists,
     * whatever the mode.
     */
    method GetPiisDoisFromSearch(query: string, mode: string, answer: Answer) returns (requested: Option<string>, result: Returned)
      modifies this
      ensures LegacyStep(requested, result, piis, dois) == LegacySearch(mode, query, answer)
      ensures xmls == []
      ensures articlePath == old(articlePath) && headers == old(headers) && queries == old(queries)
    {
      piis, dois, xmls := [], [], [];
      if mode == "elsevier" {
        requested := Some(ElsevierSearch + query);
      } else if mode == "rsc" {
        requested := Some(CrossrefSearch + query);
      } else {
        return None, Int(-1);
      }
      if answer.Refused? {
        return requested, Int(-1);
      }
      var body := answer.body;
      if body.Undecodable? {
        return requested, Raised(ValueError);
      }
      if mode == "elsevier" {
        match body
        case Array(_) =>
          result := Raised(TypeError);
        case Object(Some(records)) =>
          var list, keyError := CollectLoop(piis, records, Key(Pii), Picker(Pii), false);
          piis := list;
          result := if keyError then Int(-1) else Int(|piis|);
        case _ =>
          result := Int(-1);
      } else {
        match body
        case Object(_) =>
          result := Raised(TypeError);
        case Array(records) =>
          var list, keyError := CollectLoop(dois, records, Key(Doi), Picker(Doi), false);
          dois := list;
          result := if keyError then Int(-1) else Int(|dois|);
        case _ =>
          result := Int(|dois|);
      }
    }

    /** `get_piis_from_file`: each line of the file, cleaned, is appended to `piis`. */
    method GetPiisFromFile(lines: seq<string>)
      modifies this
      ensures |piis| == |old(piis)| + |lines| && old(piis) <= piis
      ensures forall k :: 0 <= k < |lines| ==> piis[|old(piis)| + k] == CleanPii(lines[k])
      ensures articlePath == old(articlePath) && headers == old(headers) && dois == old(dois) &&
              xmls == old(xmls) && queries == old(queries)
    {
      for i := 0 to |lines|
        invariant |piis| == |old(piis)| + i && old(piis) <= piis
        invariant forall k :: 0 <= k < i ==> piis[|old(piis)| + k] == CleanPii(lines[k])
        invariant articlePath == old(articlePath) && headers == old(headers) && dois == old(dois) &&
                  xmls == old(xmls) && queries == old(queries)
      {
        piis := piis + [CleanPii(lines[i])];
      }
    }

    /** `get_xml_from_pii`: the body is appended whatever its status; a refused connection appends nothing. */
    method GetXmlFromPii(pii: string, reply: Reply) returns (requested: string)
      modifies this
      ensures requested == ArticleUrl(pii)
      ensures xmls == old(xmls) + (if reply.Reply? then [reply.content] else [])
      ensures articlePath == old(articlePath) && headers == old(headers) && piis == old(piis) &&
              dois == old(dois) && queries == old(queries)
    {
      requested := ArticleUrl(pii);
      if reply.Reply? {
        xmls := xmls + [reply.content];
      }
    }

    /**
     * `get_pdf_from_pii`: the article path is set first; with no header
     * dictionary, setting `Accept` raises TypeError before any request.
     */
    method GetPdfFromPii(pii: string, directory: string, reply: Reply) returns (requested: Option<string>, saved: Option<Bytes>, result: Returned)
      modifies this
      ensures articlePath == PdfPath(directory, pii)
      ensures old(headers).None? ==> headers.None? && requested.None? && saved.None? && result == Raised(TypeError)
      ensures old(headers).Some? ==>
                headers == Some(old(headers).value["Accept" := Some("application/pdf")]) &&
                requested == Some(ArticleUrl(pii)) && result == NoneValue &&
                (saved.Some? <==> reply.Reply? && reply.status == 200) &&
                (saved.Some? ==> saved.value == reply.content)
      ensures piis == old(piis) && dois == old(dois) && xmls == old(xmls) && queries == old(queries)
    {
      articlePath := directory + PdfName(pii);
      articlePath := articlePath + PdfSuffix;
      if headers.None? {
        return None, None, Raised(TypeError);
      }
      headers := Some(headers.value["Accept" := Some("application/pdf")]);
      requested := Some(ArticleUrl(pii));
      saved := SaveIfOk(reply);
      result := NoneValue;
    }

    /**
     * `download_article`, as in the packaged downloader: `page` holds the
     * start tags of the landing page (None when the first request fails),
     * `reply` answers the second request.
     */
    method DownloadArticle(pii: Option<string>, doi: Option<string>, regex: bool, mode: string,
                           articleDir: string, moduleDir: string,
                           page: Option<seq<StartTag>>, reply: Reply) returns (outcome: Download)
      modifies this
      ensures outcome.NotLocated? <==> LandingUrl(mode, pii, doi).None? || page.None?
      ensures outcome.NotLocated? ==> articlePath == old(articlePath)
      ensures !outcome.NotLocated? ==>
                (pii.Some? || doi.Some?) &&
                outcome.landing == LandingUrl(mode, pii, doi).value &&
                articlePath == moduleDir + articleDir + ArticleName(pii, doi) + PdfSuffix
      ensures !outcome.NotLocated? ==>
                (outcome.LinkUnbound? <==> DownloadTarget(regex, outcome.landing, page.value).None?)
      ensures outcome.FetchRaised? || outcome.Fetched? ==>
                Some(outcome.url) == DownloadTarget(regex, outcome.landing, page.value) &&
                (outcome.FetchRaised? <==> reply.Refused?)
      ensures outcome.Fetched? ==>
                (outcome.saved.Some? <==> reply.Reply? && reply.status == 200) &&
                (outcome.saved.Some? ==> outcome.saved.value == reply.content)
      ensures headers == old(headers) && piis == old(piis) && dois == old(dois) && xmls == old(xmls) && queries == old(queries)
    {
      var landing := LandingUrl(mode, pii, doi);
      if landing.None? || page.None? {
        return NotLocated;
      }
      LandingNeedsIdentifier(mode, pii, doi);
      var name := if doi.None? then PdfName(pii.value) else doi.value;
      articlePath := moduleDir + articleDir + name;
      articlePath := articlePath + PdfSuffix;
      var url: string;
      if regex {
        var parser := new LinkScraper(PdfLink);
        parser.Feed(page.value);
        if parser.downloadLink.None? {
          return LinkUnbound(landing.value);
        }
        url := parser.downloadLink.value;
      } else {
        url := landing.value;
      }
      if reply.Refused? {
        return FetchRaised(landing.value, url);
      }
      var saved := SaveIfOk(reply);
      return Fetched(landing.value, url, saved);
    }

    /**
     * `load_queries_from_csv`, as in the packaged downloader: None, or
     * IndexError on an empty selected row, with earlier queries kept.
     */
    method LoadQueriesFromCsv(rows: seq<seq<string>>, limit: int, start: int, count: int) returns (result: Returned)
      modifies this
      ensures queries == old(queries) + CsvQueries(rows, limit, start, count)
      ensures result == if CsvTitles(rows, limit, start).indexError then Raised(IndexError) else NoneValue
      ensures articlePath == old(articlePath) && headers == old(headers) && piis == old(piis) &&
              dois == old(dois) && xmls == old(xmls)
    {
      var added, raised := ReadQueries(rows, limit, start, count);
      queries := queries + added;
      result := if raised then Raised(IndexError) else NoneValue;
    }
  }
}
