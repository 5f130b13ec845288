# article-downloader, modelled in Dafny

article-downloader is a small Python 2 tool for collecting journal articles in bulk. It has four jobs:

- It turns article titles read from a CSV file into search queries.
- It sends those queries to publisher search APIs (Elsevier ScienceDirect, CrossRef for the Royal Society of Chemistry, Nature, Springer) and collects the returned identifiers: PIIs for Elsevier, DOIs for RSC.
- It reads PII lists from files.
- It downloads each article's full text. XML goes to memory. A PDF is written to disk, either straight from the Elsevier API or via a publisher landing page whose PDF link is scraped from the HTML.

The repository holds two snapshots of the downloader class:

- the packaged `articledownloader/articledownloader.py`, which accumulates results across searches and removes duplicates;
- the older `article-downloader/article_downloader.py`, which empties its lists before every search and keeps duplicates.

It also holds the scrapers in `articledownloader/scrapers.py`, one per publisher. This project models all three files.

The network, the file system and the HTML tokenizer are replaced by their results, which are passed to each operation as parameters:

- `Search.Answer`: either the search request raised ConnectionError, or its body decoded to a JSON array, a JSON object (empty or not) or nothing decodable.
- `Http.Reply`: either a request raised ConnectionError, or a response arrived with a status and a body of bytes.
- A landing page is the sequence of its start tags. Each tag is a name plus its (name, value) attribute pairs.
- A PII file is its sequence of lines, each with its trailing newline.
- A CSV file is its sequence of rows of fields.

Every Python method becomes a method of a Dafny class. The class keeps the same fields: `articlePath`, `headers`, `piis`, `dois`, `xmls`, `queries`. Each method's postcondition gives the complete new state. Where the source loops, the method loops too, and it is proved against a recursive specification function (`Search.Collect`, `QueryBuilder.CsvTitles`, `Scrapers.Fold`). `Search.Collect` takes the key it reads and the function that says what a record's value adds, so one definition serves the pii loop and the DOI loop (`Picker(Pii)`, `Picker(Doi)`). The lemmas state the source's promises about those functions.

How a Python call ends is recorded as `Outcomes.Returned`: a returned int, a returned None, or an exception that escapes. This covers:

- a missing API key in nature/springer mode (TypeError);
- a response body of the wrong shape (TypeError);
- a body that is not JSON (ValueError);
- an empty CSV row (IndexError).

Title cleaning follows what the three regular expressions really compute:

- The first pattern has an escaped `[`, so it deletes only the literal text `[]=,.0-9><:]`.
- The second deletes `(` up to the nearest `)` on the same line.
- The third turns `/` into backslash and `s`, which Python 2 keeps as written.

## Model

| member | source | states |
|---|---|---|
| Strings.Find | articledownloader/articledownloader.py:54 | `str.find`: -1 exactly when the pattern does not occur, otherwise an index where it occurs with no occurrence before it |
| Strings.ReplaceAll | articledownloader/articledownloader.py:55 | `str.replace` / literal `re.sub`: a string without the pattern is returned unchanged; deleting an occurrence shortens the string; a replacement no longer than the pattern never lengthens it |
| Strings.ReplaceAllFirst | articledownloader/articledownloader.py:55 | `str.replace` starts at the first occurrence: for `a + p + b` where `p` does not occur in `a + p` before the copy after `a`, the result is `a`, the replacement, then `b` processed afresh |
| Strings.ReplaceAllAt | articledownloader/articledownloader.py:55 | for any string containing the pattern (an RSC DOI holding the resolver prefix, say), the result is the text before the first occurrence, the replacement, then the rest replaced |
| Strings.RemoveChars | articledownloader/articledownloader.py:73 | a character-class `re.sub` with an empty replacement: no character of the class is left, and the result is no longer than the input |
| Strings.RemoveCharsCounts | articledownloader/articledownloader.py:73 | each character outside the class keeps its number of occurrences; characters of the class occur zero times |
| Strings.RemoveCharsAppend | articledownloader/articledownloader.py:73 | the deletion works character by character: it distributes over concatenation |
| Strings.Words | articledownloader/articledownloader.py:167 | `str.split()`: every word is non-empty and free of whitespace |
| Strings.WordsSplit | articledownloader/articledownloader.py:167 | every whitespace character separates words: the words of `a + c + b` are the words of `a` followed by those of `b`; with `OneWord` this fixes `split()` completely |
| Strings.OneWord | articledownloader/articledownloader.py:167 | a non-empty string without whitespace is a single word |
| Strings.WordsConcat | articledownloader/articledownloader.py:167 | the words, concatenated in order, are exactly the string with its whitespace removed |
| Strings.SplitJoin | articledownloader/articledownloader.py:171 | splitting a `+`-join on `+` gives back the words when no word contains `+` |
| Strings.IntToString | articledownloader/articledownloader.py:176 | `str(n)`: a `-` exactly for negative numbers, then decimal digits, the first of which is `0` only for 0 (no leading zeros) |
| Strings.IntToStringRoundTrip | articledownloader/articledownloader.py:176 | `str(count)` reads back as `count`, negative values included |
| Http.StreamToFile | articledownloader/articledownloader.py:142-144 | the file ends up holding exactly the body, written chunk by chunk in order |
| Http.SaveIfOk | articledownloader/articledownloader.py:96-99 | for a stream that completes, a file is written exactly when a response arrived with status 200, and it holds that response's body |
| QueryBuilder.StripNoiseDeletes | articledownloader/articledownloader.py:164 | where the literal `[]=,.0-9><:]` occurs, the text before its first occurrence is kept, the occurrence is deleted and the rest is processed afresh; with `ReplaceAll`'s "absent: unchanged" clause it deletes exactly the literal |
| QueryBuilder.StripNoiseChars | articledownloader/articledownloader.py:164 | the first substitution introduces no character |
| QueryBuilder.CleanTitlePlain | articledownloader/articledownloader.py:164-166 | a title without the literal `[]=,.0-9><:]`, without `(` and without `/` passes all three substitutions unchanged, so its digits and punctuation stay |
| QueryBuilder.CloseIndex | articledownloader/articledownloader.py:165 | the lazy match ends at the first `)`, and neither a `)` nor a newline comes before it |
| QueryBuilder.StripGroups | articledownloader/articledownloader.py:165 | deleting groups never lengthens the title |
| QueryBuilder.StripGroupsPlain | articledownloader/articledownloader.py:165 | text before the first `(` is kept as it is |
| QueryBuilder.ClosesGroup | articledownloader/articledownloader.py:165 | after a `(`, the lazy match closes at the first `)` of the line |
| QueryBuilder.StripGroupsGroup | articledownloader/articledownloader.py:165 | a group `(` ... `)` with no `)` or newline inside is deleted whole, and scanning resumes after it |
| QueryBuilder.StripGroupsUnmatched | articledownloader/articledownloader.py:165 | a `(` with no `)` after it on its line is kept, and scanning resumes after it |
| QueryBuilder.StripGroupsKeepsUnclosed | articledownloader/articledownloader.py:165 | stripping never brings a `)` in front of the first newline |
| QueryBuilder.StripGroupsSettled | articledownloader/articledownloader.py:165 | no `(` that survives the second substitution has a `)` after it on the same line |
| QueryBuilder.SettledFixed | articledownloader/articledownloader.py:165 | a title with no matched group is left as it is |
| QueryBuilder.StripGroupsIdempotent | articledownloader/articledownloader.py:165 | applying the second substitution twice equals applying it once; a title without `(` passes unchanged |
| QueryBuilder.NoOpenSettled | articledownloader/articledownloader.py:165 | a title without `(` has nothing to strip |
| QueryBuilder.StripGroupsChars | articledownloader/articledownloader.py:165 | every character left after the second substitution comes from the title |
| QueryBuilder.EscapeSlashesChars | articledownloader/articledownloader.py:166 | no `/` survives the third substitution, and it adds only backslash and `s`, never whitespace |
| QueryBuilder.EscapeSlashesAppend | articledownloader/articledownloader.py:166 | the third substitution works character by character, and a `/` becomes the two characters backslash and `s` |
| QueryBuilder.EscapeSlashesNone | articledownloader/articledownloader.py:166 | a title without `/` passes the third substitution unchanged |
| QueryBuilder.SlashJoinsWords | articledownloader/articledownloader.py:166-167 | a word containing `/` stays a single word after the split |
| QueryBuilder.WordsChars | articledownloader/articledownloader.py:167 | every character of a word comes from the split string |
| QueryBuilder.KeepWords | articledownloader/articledownloader.py:170 | every kept word is strictly between 3 and 15 characters long, and a word is kept exactly when it is a word of the title within that window |
| QueryBuilder.KeepWordsAppend | articledownloader/articledownloader.py:170 | the filter keeps the words' order: it distributes over concatenation, and a single word survives exactly when its length is in the window |
| QueryBuilder.NoPlusInWords | articledownloader/articledownloader.py:164-170 | a title without `+` yields no kept word containing `+` |
| QueryBuilder.SearchTermsTokens | articledownloader/articledownloader.py:167-171 | for a title without `+`: with no kept word the terms are empty; otherwise splitting the terms on `+` gives back exactly the kept words in order, each strictly between 3 and 15 characters |
| QueryBuilder.PlusInsideWord | articledownloader/articledownloader.py:164-171 | the token property needs that requirement: the title `ab+cd` keeps the single word `ab+cd`, whose terms split into the 2-character tokens `ab` and `cd` |
| QueryBuilder.CountSuffixFaithful | articledownloader/articledownloader.py:175-176 | the suffix is empty exactly when `count` is 0; otherwise it starts with `&count=` and the rest reads back as `count` |
| QueryBuilder.BuildQueries | articledownloader/articledownloader.py:178 | one query per selected title |
| QueryBuilder.BuildQueriesAt | articledownloader/articledownloader.py:164-178 | the k-th query is built from the k-th selected title |
| QueryBuilder.CsvTitlesStops | articledownloader/articledownloader.py:155-157 | once the loop has passed `limit` or raised IndexError, later rows change nothing |
| QueryBuilder.CsvTitlesCount | articledownloader/articledownloader.py:155-164 | without IndexError, the number of titles is the number of rows of `start..limit` that the file has; IndexError is raised exactly when the row after the titles lies within the window and is empty |
| QueryBuilder.CsvTitlesElems | articledownloader/articledownloader.py:155-164 | the k-th title is the first field of row `max(start, 0) + k`, which lies within the window and is not empty |
| QueryBuilder.ReadQueries | articledownloader/articledownloader.py:155-178 | the row loop appends exactly the queries of the selected titles, in order, and reports IndexError exactly when the selection meets an empty row |
| QueryBuilder.CsvQueriesWindow | articledownloader/articledownloader.py:155-178 | the k-th query appended is built from the first field of row `max(start, 0) + k`, which lies within the window and is not empty |
| Scrapers.DropLast | articledownloader/scrapers.py:34 | `href[:-5]` is a prefix of `href` |
| Scrapers.ScanKeeps | articledownloader/scrapers.py:15-17 | within one tag, the link found before the tag survives exactly when no attribute of the tag bears a link |
| Scrapers.ScanNoneIff | articledownloader/scrapers.py:15-17 | a tag yields no link if and only if none of its attributes bears one |
| Scrapers.ScanLast | articledownloader/scrapers.py:15-17 | a tag's link is the one borne by some attribute after which no attribute bears one |
| Scrapers.LastSetter | articledownloader/scrapers.py:15-17 | locates the last start tag that sets a link: none exactly when no tag does |
| Scrapers.FoldLastWins | articledownloader/scrapers.py:8-17 | after a document, `download_link` is unchanged when no tag sets it, and is otherwise what the last setting tag sets |
| Scrapers.NoLinkIff | articledownloader/scrapers.py:8 | starting from None, the link stays None if and only if no start tag sets one |
| Scrapers.FoldOrigin | articledownloader/scrapers.py:11-51 | a found link comes from an attribute of a start tag that passed the scraper's tag test |
| Scrapers.RscLinkIsContent | articledownloader/scrapers.py:15-17 | an RSC link is the whole value of some `content` attribute, and it contains `http://pubs.rsc.org/en/content/articlepdf/` |
| Scrapers.EcsLinkShape | articledownloader/scrapers.py:31-34 | an ECS link starts with `http://jes.ecsdl.org` and comes from an `a` tag carrying exactly (`rel`, `view-full-text.pdf`) |
| Scrapers.EcsHrefTrim | articledownloader/scrapers.py:34 | an `href` of at most 5 characters contributes nothing after the host; a longer one contributes all but its last 5 characters |
| Scrapers.NatureLinkShape | articledownloader/scrapers.py:48-51 | a Nature link starts with `http://www.nature.com` and comes from an `a` tag carrying exactly (`class`, `download-pdf`) or (`id`, `download-pdf`) |
| Scrapers.NatureExactClass | articledownloader/scrapers.py:48 | a multi-valued class such as `btn download-pdf` does not match; the exact class does and yields host + href |
| Scrapers.PdfLinkShape | articledownloader/articledownloader.py:12-16 | a `MyHTMLParser` link is the `href` of an `a` tag carrying exactly (`id`, `pdfLink`) |
| Scrapers.LinkScraper.constructor | articledownloader/scrapers.py:8 | a new scraper starts with `download_link` None |
| Scrapers.LinkScraper.HandleStartTag | articledownloader/scrapers.py:11-51 | one `handle_starttag` call updates `download_link` as the per-rule step function says, attribute by attribute |
| Scrapers.LinkScraper.Feed | articledownloader/articledownloader.py:133 | feeding a document applies the handler to its start tags in order |
| Search.IsRscDoiIff | articledownloader/articledownloader.py:54 | a DOI passes the RSC filter exactly when `10.1039` occurs in it and the DOI does not start with `10.1039` |
| Search.ResolverUrlStrips | articledownloader/articledownloader.py:54-55 | a resolver URL `http://dx.doi.org/10.1039/<suffix>` passes the filter and strips to its suffix |
| Search.CollectExtends | articledownloader/articledownloader.py:46-57 | the loop only appends: the old list is a prefix of the new one, and every added entry was picked from some record |
| Search.CollectDistinct | articledownloader/articledownloader.py:47-48 | with dedup, a list without repeats stays without repeats |
| Search.CollectComplete | articledownloader/articledownloader.py:46-48 | without a KeyError, every record has the key and every value it yields is in the list afterwards |
| Search.CollectKeyError | articledownloader/articledownloader.py:65-67 | the first record without the key raises KeyError; the list keeps exactly what the records before it added |
| Search.NoKeyErrorBefore | articledownloader/articledownloader.py:46-48 | records that all carry the key raise no KeyError |
| Search.CollectStops | articledownloader/articledownloader.py:65-67 | after a KeyError, later records change nothing |
| Search.CollectAbsorbed | articledownloader/articledownloader.py:47-48 | with dedup, records whose values are all listed already leave the list as it is |
| Search.PickedOne | article-downloader/article_downloader.py:44-51 | one record yields what `pick` gives for its value: with `Picker(Pii)` its pii, with `Picker(Doi)` its stripped RSC DOI or nothing |
| Search.PickedConcat | article-downloader/article_downloader.py:43-44 | the yields of consecutive runs of records concatenate: record order is kept and nothing is merged |
| Search.CollectNoDedup | article-downloader/article_downloader.py:43-52 | without dedup and with every record carrying the key, the loop appends exactly what the records yield, in order, repeats kept, and raises no KeyError |
| Search.PickedPiis | article-downloader/article_downloader.py:43-44 | every record yields its pii: one entry per record, the k-th being the k-th record's pii |
| Search.KeyErrorIff | articledownloader/articledownloader.py:46-67 | the loop raises KeyError exactly when some record lacks the key |
| Search.CollectLoop | articledownloader/articledownloader.py:46-57 | the `for article in ...` loop computes the collection function, stopping at the first KeyError |
| Search.RespondAppends | articledownloader/articledownloader.py:41-58 | a search only appends, and only to the list of its own mode; an int result is -1 or the new length of that list, so it counts across calls |
| Search.RespondResult | articledownloader/articledownloader.py:45-67 | a search over a list of records returns -1 exactly when some record lacks the mode's key, and otherwise the new length of the mode's list |
| Search.RespondDistinct | articledownloader/articledownloader.py:45-58 | with dedup, `piis` and `dois` without repeats stay without repeats |
| Search.RespondComplete | articledownloader/articledownloader.py:45-58 | after a successful elsevier search every record's pii is listed; after a successful rsc search every RSC DOI of the response is listed, stripped |
| Search.RespondRepeat | articledownloader/articledownloader.py:45-58 | with dedup, repeating a successful search that gets the same response changes neither the lists nor the count |
| Search.ElsevierNoDedup | article-downloader/article_downloader.py:42-45 | without dedup, a successful elsevier search appends every pii in response order and returns the old length plus the number of records |
| Articles.CleanPiiChars | articledownloader/articledownloader.py:72-73 | a cleaned PII line has no `-`, `(` or `)` and keeps every other character as often as before |
| Articles.CleanPiiKeepsNewline | articledownloader/articledownloader.py:72-73 | a line that ends in a newline still ends in one after cleaning, so the stored pii keeps it |
| Articles.ArticleUrlRoundTrip | articledownloader/articledownloader.py:92 | the pii can be read back out of the article URL |
| Articles.PdfPathShape | articledownloader/articledownloader.py:88-90 | the PDF path is the directory, then the pii without parentheses (hyphens kept), then `.pdf`; a pii without parentheses is its own name |
| Articles.LandingNeedsIdentifier | articledownloader/articledownloader.py:107-116 | the landing page exists exactly in elsevier mode with a pii or rsc mode with a DOI, so a file name can always be formed once it is located; the name is the DOI whenever one is given, even in elsevier mode, where the landing page comes from the pii |
| Articles.DownloadTargetChoice | articledownloader/articledownloader.py:130-138 | with `regex`, the fetched URL is the `href` of the last `a` tag carrying (`id`, `pdfLink`), and none exists exactly when no such tag has one; without `regex`, it is the landing URL |
| Downloader.SearchRequests | articledownloader/articledownloader.py:30-42 | a request is sent exactly for elsevier and rsc, and for nature and springer when a key is set; without a request, the lists are unchanged and the call returns -1, or raises TypeError for a missing key; the URL is the mode's endpoint plus the query (elsevier `ElsevierSearch`, rsc `CrossrefSearch`, nature `NatureSearch`, springer `SpringerSearch`), followed for nature and springer by `&api_key=` and the key, which the URL therefore contains |
| Downloader.NatureSpringerIgnored | articledownloader/articledownloader.py:34-58 | nature and springer searches leave the lists unchanged and return None (-1 on ConnectionError, ValueError on a body that is not JSON) |
| Downloader.ArticleDownloader.constructor | articledownloader/articledownloader.py:20-27 | empty lists; the API key becomes header `X-ELS-APIKEY` |
| Downloader.ArticleDownloader.GetPiisDoisFromSearch | articledownloader/articledownloader.py:29-67 | the request, result and new lists are those of the search function; every other field is unchanged |
| Downloader.ArticleDownloader.GetPiisFromFile | articledownloader/articledownloader.py:70-74 | each line, cleaned, is appended to `piis` in file order, without dedup |
| Downloader.ArticleDownloader.GetXmlFromPii | articledownloader/articledownloader.py:76-84 | requests the article URL; the body is appended to `xmls` whatever the status; a refused connection appends nothing |
| Downloader.ArticleDownloader.GetPdfFromPii | articledownloader/articledownloader.py:86-104 | the article path and the `Accept: application/pdf` header are set; the file is written exactly on status 200 and holds the body |
| Downloader.ArticleDownloader.DownloadArticle | articledownloader/articledownloader.py:106-145 | without a landing page, nothing changes; otherwise the path is set from the name; a missing scraped link ends with NameError; the chosen URL is fetched and written on status 200 |
| Downloader.ArticleDownloader.LoadQueriesFromCsv | articledownloader/articledownloader.py:152-178 | appends one query per selected row, in row order, to `queries` without clearing it; an empty selected row raises IndexError after the earlier queries |
| Legacy.LegacyElsevierExact | article-downloader/article_downloader.py:42-45 | a successful elsevier search lists every pii in response order, repeats included, returns the number of records and leaves no DOIs |
| Legacy.LegacyRscExact | article-downloader/article_downloader.py:46-52 | a successful rsc search lists the stripped RSC DOIs of the response in order, repeats kept, returns how many there are and leaves no piis |
| Legacy.LegacySearchFresh | article-downloader/article_downloader.py:27-52 | only this response counts: the lists of the other modes stay empty; an int result is -1 or the size of the filled list; a request is sent only for elsevier and rsc, and any other mode returns -1 |
| Legacy.DedupDiffers | article-downloader/article_downloader.py:44 | a response that lists one pii twice gives `[p, p]` and 2 in the older snapshot, and `[p]` and 1 in the packaged one |
| Legacy.ArticleDownloader.constructor | article-downloader/article_downloader.py:19-25 | empty lists; the caller's header dictionary, None by default |
| Legacy.ArticleDownloader.GetPiisDoisFromSearch | article-downloader/article_downloader.py:27-61 | `piis`, `dois` and `xmls` are emptied first, whatever the mode; the request, result and lists are those of the older search function |
| Legacy.ArticleDownloader.GetPiisFromFile | article-downloader/article_downloader.py:64-68 | each line, cleaned, is appended to `piis` in file order |
| Legacy.ArticleDownloader.GetXmlFromPii | article-downloader/article_downloader.py:70-78 | the body is appended to `xmls` whatever the status; a refused connection appends nothing |
| Legacy.ArticleDownloader.GetPdfFromPii | article-downloader/article_downloader.py:80-98 | the path is set first; without a header dictionary, TypeError is raised before any request; otherwise `Accept` is set and the file is written exactly on status 200 |
| Legacy.ArticleDownloader.DownloadArticle | article-downloader/article_downloader.py:100-139 | behaves as in the packaged snapshot: name and link choice, NameError without a link, write on status 200 |
| Legacy.ArticleDownloader.LoadQueriesFromCsv | article-downloader/article_downloader.py:146-173 | one query per selected row, in row order, appended; IndexError on an empty selected row |

## Left out

- HTTP, file and CSV I/O are replaced by their results, passed as parameters. `requests.get`, `open`, `csv.reader` and the writes are not modelled. A missing file (IOError) and a malformed CSV are not modelled.
- `time.sleep(1000)` after a ConnectionError and every `print` have no counterpart: the model keeps only the value returned.
- The HTML tokenizer (`HTMLParser.feed`) is not part of this model. A page is given as its start tags. Attributes without a value (None in Python) are not represented, and parse errors are not modelled.
- Which exception classes `requests` raises, beyond ConnectionError, is not modelled. A refused request stands for ConnectionError. In `download_article`, the bare `except` around the first request also catches any other failure, which the model represents as the page being absent.
- JSON records are maps from strings to strings. A pii or DOI that is not a string, and an `entry` value that is not a list of objects, are not represented.
- A `search-results` value that is not an object (a list, a string, a number or null) is not represented by `Search.Body.Object`. In the source, indexing it with `'entry'` raises TypeError, which nothing catches.
- The source's default argument values are not modelled as defaults: `mode='elsevier'`, `limit=3`, `start=0`, `count=1`, `regex=True`, `article_dir='/articles/'`, `article_path='/default_path'`, and `api_key=None` or `headers=None`. Every parameter is required in the model, and a caller that wants the source's default passes that value.
- Bodies are byte sequences, and titles, PIIs and DOIs are character sequences. The distinction between Python 2 byte strings and unicode is not modelled.
- `save_xml_data` only writes a given string to a given path, so it is not modelled.
- The module directory used for default paths (`os.path.dirname(__file__)`) is a parameter.
- The `__main__` driver of the older snapshot, `after_script.py`, `setup.py` and the test scripts are not part of this model.
- QueryBuilder.SearchTermsTokens: proved only for titles without `+`. A kept word may itself contain `+`, and `PlusInsideWord` shows the token bound failing then. The split-back clause also needs at least one kept word: a title such as `A of the` gives empty terms, which `split('+')` reads as one empty token.
- Http.StreamToFile: the body is cut into slices of 2048 bytes, the last one shorter. `iter_content(2048)` may yield shorter chunks under chunked transfer or content decoding; that changes only the write calls, not the file.
- Http.SaveIfOk, Http.StreamToFile, Downloader.ArticleDownloader.GetPdfFromPii, Downloader.ArticleDownloader.DownloadArticle, Legacy.ArticleDownloader.GetPdfFromPii and Legacy.ArticleDownloader.DownloadArticle: a failure while a status-200 body is streaming is not represented. `Http.Reply` carries a whole body. In the source, `iter_content` can fail part-way and leave a truncated file: a read timeout raises ConnectionError, which `get_pdf_from_pii` catches, returning None; a ChunkedEncodingError escapes both methods. The model promises the full body only for a stream that completes.
- A search response whose JSON is `null`, a number, a string or a boolean is not represented by `Search.Body`. In the source, such a body raises TypeError in both modes, except that an empty string in rsc mode loops over nothing and returns `len(self.dois)`.
- The packaged `download_article` has no nature, springer or ECS branch, and neither downloader snapshot nor the test scripts call the three scrapers of `scrapers.py`. They are modelled as objects of their own, not wired into a download.
