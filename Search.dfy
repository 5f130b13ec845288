/**
 * Search-result processing shared by both downloader snapshots: the decoded
 * search response, and the loops of `get_piis_dois_from_search` that walk
 * it and grow the `piis` or `dois` list.
 */
module Search {
  import opened Outcomes
  import opened Strings

  /** One record of a decoded search response: its keys and their string values. */
  type Article = map<string, string>

  /** What `json.loads(response)` yields, as far as the search loops look at it. */
  datatype Body =
    | Undecodable                          // json.loads raises ValueError
    | EmptyObject                          // the JSON object {}
    | Object(entry: Option<seq<Article>>)  // a non-empty JSON object; `entry` is ['search-results']['entry'] when both keys exist
    | Array(items: seq<Article>)           // a JSON array of records

  /** The search request: it raises ConnectionError, or a body arrives. */
  datatype Answer = Refused | Answer(body: Body)

  const ElsevierSearch: string := "http://api.elsevier.com/content/search/scidir?query="
  const CrossrefSearch: string := "http://search.crossref.org/dois?q="
  const NatureSearch: string := "http://api.nature.com/content/opensearch/request?query="
  const SpringerSearch: string := "http://api.springer.com/metadata/pam?q="

  /** The DOI prefix of the Royal Society of Chemistry. */
  const RscDoiCode: string := "10.1039"
  /** The resolver prefix stripped from RSC DOIs. */
  const RscResolverPrefix: string := "http://dx.doi.org/10.1039/"

  /** `doi.find('10.1039') > 0`: the code occurs, and its first occurrence is not at index 0. */
  predicate IsRscDoi(doi: string) {
    Find(doi, RscDoiCode) > 0
  }

  /** `doi.replace('http://dx.doi.org/10.1039/', '')`. */
  function StripResolver(doi: string): string {
    ReplaceAll(doi, RscResolverPrefix, "")
  }

  /**
   * The RSC filter keeps a DOI exactly when `10.1039` occurs in it and the
   * DOI does not start with `10.1039`: a bare RSC DOI is rejected.
   */
  lemma IsRscDoiIff(doi: string)
    ensures IsRscDoi(doi) <==> Contains(doi, RscDoiCode) && !(RscDoiCode <= doi)
  {
    var r := Find(doi, RscDoiCode);
    if r == 0 {
      assert doi[0..|RscDoiCode|] == RscDoiCode;
    }
    if RscDoiCode <= doi {
      assert OccursAt(doi, RscDoiCode, 0);
    }
  }

  /** A resolver URL ending in a plain suffix passes the filter and strips to that suffix. */
  lemma ResolverUrlStrips(suffix: string)
    requires !Contains(suffix, RscResolverPrefix)
    ensures IsRscDoi(RscResolverPrefix + suffix)
    ensures StripResolver(RscResolverPrefix + suffix) == suffix
  {
    var u := RscResolverPrefix + suffix;
    assert u[|RscResolverPrefix|..] == suffix;
    assert OccursAt(u, RscDoiCode, 18) by {
      assert u[18..25] == RscResolverPrefix[18..25];
    }
    ContainsIff(u, RscDoiCode);
    IsRscDoiIff(u);
    assert !(RscDoiCode <= u) by {
      assert u[0] == 'h';
    }
  }

  /** Which list a search fills. */
  datatype Field = Pii | Doi

  function Key(field: Field): string {
    match field
    case Pii => "pii"
    case Doi => "doi"
  }

  /** The value a record adds, if any: its pii as is; its DOI only if it is an RSC DOI, stripped. */
  function Pick(field: Field, value: string): Option<string> {
    match field
    case Pii => Some(value)
    case Doi => if IsRscDoi(value) then Some(StripResolver(value)) else None
  }

  /** `Pick` for one field, as the function the loop applies to each record's value. */
  function Picker(field: Field): string -> Option<string> {
    v => Pick(field, v)
  }

  /** Appends `x`, unless `dedup` is set and `x` is already listed. */
  function Add(list: seq<string>, x: string, dedup: bool): seq<string> {
    if dedup && x in list then list else list + [x]
  }

  /** The list after the loop, and whether `article[key]` raised KeyError. */
  datatype Collected = Collected(list: seq<string>, keyError: bool)

  /**
   * The `for article in ...` loop over the records read so far, starting
   * from list `acc`: `article[key]` on a record without the key raises
   * KeyError and ends the loop, keeping what was appended before; otherwise
   * `pick` says what the record's value adds (`Picker(Pii)` or `Picker(Doi)`).
   */
  function Collect(acc: seq<string>, records: seq<Article>, key: string, pick: string -> Option<string>, dedup: bool): Collected
    decreases |records|
  {
    if records == [] then Collected(acc, false)
    else
      var n := |records| - 1;
      var prev := Collect(acc, records[..n], key, pick, dedup);
      if prev.keyError then prev
      else if key !in records[n] then Collected(prev.list, true)
      else match pick(records[n][key])
        case None => prev
        case Some(v) => Collected(Add(prev.list, v, dedup), false)
  }

  /** One step of the loop: the last record, when it has the key, adds what it yields. */
  lemma CollectLast(acc: seq<string>, records: seq<Article>, key: string, pick: string -> Option<string>, dedup: bool)
    requires records != []
    requires !Collect(acc, records[..|records| - 1], key, pick, dedup).keyError
    requires key in records[|records| - 1]
    ensures var prev := Collect(acc, records[..|records| - 1], key, pick, dedup).list;
            var y := pick(records[|records| - 1][key]);
            Collect(acc, records, key, pick, dedup) == Collected(if y.Some? then Add(prev, y.value, dedup) else prev, false)
  {
  }

  /** One step of the loop over a prefix: record `m` has the key and adds what it yields. */
  lemma CollectLastAt(acc: seq<string>, records: seq<Article>, key: string, pick: string -> Option<string>, dedup: bool, m: nat)
    requires m < |records|
    requires !Collect(acc, records[..m + 1], key, pick, dedup).keyError
    ensures !Collect(acc, records[..m], key, pick, dedup).keyError && key in records[m]
    ensures var prev := Collect(acc, records[..m], key, pick, dedup).list;
            var y := pick(records[m][key]);
            Collect(acc, records[..m + 1], key, pick, dedup) == Collected(if y.Some? then Add(prev, y.value, dedup) else prev, false)
  {
    assert records[..m + 1][..m] == records[..m];
  }

  /** Adding keeps every entry and lists the added one. */
  lemma AddKeeps(list: seq<string>, x: string, dedup: bool)
    ensures x in Add(list, x, dedup)
    ensures forall y :: y in list ==> y in Add(list, x, dedup)
  {
  }

  /** No entry occurs twice. */
  predicate Distinct(list: seq<string>) {
    forall i, j :: 0 <= i < j < |list| ==> list[i] != list[j]
  }

  /**
   * The loop only appends: the old list is a prefix of the new one, and every
   * added entry was picked from some record.
   */
  lemma {:induction false} CollectExtends(acc: seq<string>, records: seq<Article>, key: string, pick: string -> Option<string>, dedup: bool)
    ensures acc <= Collect(acc, records, key, pick, dedup).list
    ensures forall x :: x in Collect(acc, records, key, pick, dedup).list ==>
              x in acc || exists k :: 0 <= k < |records| && key in records[k] && pick(records[k][key]) == Some(x)
    decreases |records|
  {
    if records != [] {
      var n := |records| - 1;
      CollectExtends(acc, records[..n], key, pick, dedup);
      assert forall k :: 0 <= k < n ==> records[..n][k] == records[k];
    }
  }

  /** With dedup, a list without repeats stays without repeats. */
  lemma {:induction false} CollectDistinct(acc: seq<string>, records: seq<Article>, key: string, pick: string -> Option<string>)
    requires Distinct(acc)
    ensures Distinct(Collect(acc, records, key, pick, true).list)
    decreases |records|
  {
    if records != [] {
      CollectDistinct(acc, records[..|records| - 1], key, pick);
    }
  }

  /**
   * When no KeyError occurs, every value a record yields is in the list
   * afterwards (with or without dedup).
   */
  lemma {:induction false} CollectComplete(acc: seq<string>, records: seq<Article>, key: string, pick: string -> Option<string>, dedup: bool)
    requires !Collect(acc, records, key, pick, dedup).keyError
    ensures forall k :: 0 <= k < |records| ==> key in records[k]
    ensures forall k :: 0 <= k < |records| && pick(records[k][key]).Some? ==>
              pick(records[k][key]).value in Collect(acc, records, key, pick, dedup).list
  {
    assert records[..|records|] == records;
    CollectCompletePrefix(acc, records, key, pick, dedup, |records|);
  }

  /** `CollectComplete` for the first `n` records, by induction on `n`. */
  lemma {:induction false} CollectCompletePrefix(acc: seq<string>, records: seq<Article>, key: string, pick: string -> Option<string>, dedup: bool, n: nat)
    requires n <= |records|
    requires !Collect(acc, records[..n], key, pick, dedup).keyError
    ensures forall k :: 0 <= k < n ==> key in records[k]
    ensures forall k :: 0 <= k < n && pick(records[k][key]).Some? ==>
              pick(records[k][key]).value in Collect(acc, records[..n], key, pick, dedup).list
    decreases n
  {
    if n > 0 {
      var m := n - 1;
      CollectLastAt(acc, records, key, pick, dedup, m);
      CollectCompletePrefix(acc, records, key, pick, dedup, m);
      var prev := Collect(acc, records[..m], key, pick, dedup).list;
      var y := pick(records[m][key]);
      var list := if y.Some? then Add(prev, y.value, dedup) else prev;
      if y.Some? {
        AddKeeps(prev, y.value, dedup);
      }
      assert forall x :: x in prev ==> x in list;
      forall k | 0 <= k < n && pick(records[k][key]).Some?
        ensures pick(records[k][key]).value in list
      {
        if k < m {
          assert pick(records[k][key]).value in prev;
        }
      }
    }
  }


  /**
   * KeyError happens exactly when some record lacks the key; the first such
   * record ends the loop, and the list is what the records before it gave.
   */
  lemma {:induction false} CollectKeyError(acc: seq<string>, records: seq<Article>, key: string, pick: string -> Option<string>, dedup: bool, first: nat)
    requires first < |records| && key !in records[first]
    requires forall k :: 0 <= k < first ==> key in records[k]
    ensures Collect(acc, records, key, pick, dedup) == Collected(Collect(acc, records[..first], key, pick, dedup).list, true)
    decreases |records|
  {
    var n := |records| - 1;
    if first < n {
      assert records[..n][..first] == records[..first];
      CollectKeyError(acc, records[..n], key, pick, dedup, first);
    } else {
      assert records[..n] == records[..first];
      NoKeyErrorBefore(acc, records[..first], key, pick, dedup);
    }
  }

  /** Records that all carry the key raise no KeyError. */
  lemma {:induction false} NoKeyErrorBefore(acc: seq<string>, records: seq<Article>, key: string, pick: string -> Option<string>, dedup: bool)
    requires forall k :: 0 <= k < |records| ==> key in records[k]
    ensures !Collect(acc, records, key, pick, dedup).keyError
    decreases |records|
  {
    if records != [] {
      NoKeyErrorBefore(acc, records[..|records| - 1], key, pick, dedup);
    }
  }

  /**
   * What the records yield, in record order, one entry per picked value and
   * repeats kept: the reference for a loop without dedup.
   */
  function Picked(records: seq<Article>, key: string, pick: string -> Option<string>): seq<string>
    requires forall k :: 0 <= k < |records| ==> key in records[k]
    decreases |records|
  {
    if records == [] then []
    else
      var n := |records| - 1;
      assert forall k :: 0 <= k < n ==> records[..n][k] == records[k];
      var y := pick(records[n][key]);
      Picked(records[..n], key, pick) + (if y.Some? then [y.value] else [])
  }

  /** What one record yields: the value `pick` gives for its key, if any. */
  function Yield(r: Article, key: string, pick: string -> Option<string>): seq<string>
    requires key in r
  {
    var y := pick(r[key]);
    if y.Some? then [y.value] else []
  }

  /** A single record yields what `pick` gives for its value. */
  lemma PickedOne(r: Article, key: string, pick: string -> Option<string>)
    requires key in r
    ensures Picked([r], key, pick) == if pick(r[key]).Some? then [pick(r[key]).value] else []
  {
    assert [r][..0] == [];
  }

  /** The last record's yield comes last. */
  lemma PickedLast(records: seq<Article>, n: nat, key: string, pick: string -> Option<string>)
    requires n + 1 == |records| && forall k :: 0 <= k < |records| ==> key in records[k]
    ensures forall k :: 0 <= k < n ==> key in records[..n][k]
    ensures Picked(records, key, pick) == Picked(records[..n], key, pick) + Yield(records[n], key, pick)
  {
  }

  /** The yields of a concatenation are the yields of its parts, concatenated. */
  lemma {:induction false} PickedConcat(a: seq<Article>, b: seq<Article>, key: string, pick: string -> Option<string>)
    requires forall k :: 0 <= k < |a| ==> key in a[k]
    requires forall k :: 0 <= k < |b| ==> key in b[k]
    ensures forall k :: 0 <= k < |a + b| ==> key in (a + b)[k]
    ensures Picked(a + b, key, pick) == Picked(a, key, pick) + Picked(b, key, pick)
    decreases |b|
  {
    if b == [] {
      assert a + b == a;
    } else {
      var n := |b| - 1;
      var ab := a + b;
      assert ab[..|ab| - 1] == a + b[..n];
      assert ab[|ab| - 1] == b[n];
      PickedConcat(a, b[..n], key, pick);
      PickedLast(ab, |ab| - 1, key, pick);
      PickedLast(b, n, key, pick);
      AppendAssoc(Picked(a, key, pick), Picked(b[..n], key, pick), Yield(b[n], key, pick));
    }
  }

  /** Concatenation is associative. */
  lemma AppendAssoc<T>(x: seq<T>, y: seq<T>, z: seq<T>)
    ensures x + y + z == x + (y + z)
  {
  }

  /**
   * Without dedup and with every record carrying the key, the loop appends
   * exactly what the records yield, in order, repeats kept.
   */
  lemma {:induction false} CollectNoDedup(acc: seq<string>, records: seq<Article>, key: string, pick: string -> Option<string>)
    requires forall k :: 0 <= k < |records| ==> key in records[k]
    ensures Collect(acc, records, key, pick, false) == Collected(acc + Picked(records, key, pick), false)
    decreases |records|
  {
    if records == [] {
      assert acc + [] == acc;
    } else {
      var n := |records| - 1;
      assert forall k :: 0 <= k < n ==> records[..n][k] == records[k];
      CollectNoDedup(acc, records[..n], key, pick);
      CollectLast(acc, records, key, pick, false);
      var y := pick(records[n][key]);
      var tail := if y.Some? then [y.value] else [];
      assert acc + (Picked(records[..n], key, pick) + tail) == acc + Picked(records[..n], key, pick) + tail;
    }
  }

  /** Every record yields its pii: the piis listed are the records' piis, one each, in order. */
  lemma {:induction false} PickedPiis(records: seq<Article>)
    requires forall k :: 0 <= k < |records| ==> "pii" in records[k]
    ensures |Picked(records, Key(Pii), Picker(Pii))| == |records|
    ensures forall k :: 0 <= k < |records| ==> Picked(records, Key(Pii), Picker(Pii))[k] == records[k]["pii"]
    decreases |records|
  {
    if records != [] {
      var n := |records| - 1;
      assert forall k :: 0 <= k < n ==> records[..n][k] == records[k];
      PickedPiis(records[..n]);
    }
  }


  /** Once a KeyError has ended the loop, later records change nothing. */
  lemma {:induction false} CollectStops(acc: seq<string>, records: seq<Article>, key: string, pick: string -> Option<string>, dedup: bool, i: nat)
    requires i <= |records|
    requires Collect(acc, records[..i], key, pick, dedup).keyError
    ensures Collect(acc, records, key, pick, dedup) == Collect(acc, records[..i], key, pick, dedup)
    decreases |records|
  {
    if i < |records| {
      var n := |records| - 1;
      assert records[..n][..i] == records[..i];
      CollectStops(acc, records[..n], key, pick, dedup, i);
    } else {
      assert records[..i] == records;
    }
  }

  /**
   * With dedup, records whose values are all listed already (and which all
   * carry the key) leave the list as it is.
   */
  lemma {:induction false} CollectAbsorbed(acc: seq<string>, records: seq<Article>, key: string, pick: string -> Option<string>)
    requires forall k :: 0 <= k < |records| ==> key in records[k]
    requires forall k :: 0 <= k < |records| && pick(records[k][key]).Some? ==>
               pick(records[k][key]).value in acc
    ensures Collect(acc, records, key, pick, true) == Collected(acc, false)
    decreases |records|
  {
    if records != [] {
      var n := |records| - 1;
      assert forall k :: 0 <= k < n ==> records[..n][k] == records[k];
      CollectAbsorbed(acc, records[..n], key, pick);
      CollectLast(acc, records, key, pick, true);
    }
  }

  /**
   * The `for article in ...` loop itself: one record at a time, stopping at
   * the first record without the key.
   */
  method CollectLoop(acc: seq<string>, records: seq<Article>, key: string, pick: string -> Option<string>, dedup: bool) returns (list: seq<string>, keyError: bool)
    ensures Collected(list, keyError) == Collect(acc, records, key, pick, dedup)
  {
    list, keyError := acc, false;
    var i := 0;
    while i < |records| && !keyError
      invariant 0 <= i <= |records|
      invariant Collected(list, keyError) == Collect(acc, records[..i], key, pick, dedup)
    {
      assert records[..i + 1][..i] == records[..i];
      var article := records[i];
      if key !in article {
        keyError := true;
      } else {
        match pick(article[key])
        case None =>
        case Some(v) =>
          if !dedup || v !in list {
            list := list + [v];
          }
      }
      i := i + 1;
    }
    if keyError {
      CollectStops(acc, records, key, pick, dedup, i);
    } else {
      assert records[..i] == records;
    }
  }

  /** The lists and the value a search call ends with, once its request was sent. */
  datatype Response = Response(result: Returned, piis: seq<string>, dois: seq<string>)

  /**
   * Everything after `requests.get(url, ...)` in `get_piis_dois_from_search`:
   * a refused connection or a KeyError returns -1; an undecodable body
   * raises ValueError; a body of the wrong shape raises TypeError; otherwise
   * elsevier mode grows `piis` and returns its length, rsc mode grows `dois`
   * and returns its length, and any other mode falls off the end (None).
   */
  function Respond(mode: string, piis: seq<string>, dois: seq<string>, answer: Answer, dedup: bool): Response {
    match answer
    case Refused => Response(Int(-1), piis, dois)
    case Answer(body) =>
      if body.Undecodable? then Response(Raised(ValueError), piis, dois)
      else if mode == "elsevier" then
        match body
        case Array(_) => Response(Raised(TypeError), piis, dois)
        case Object(Some(records)) =>
          var c := Collect(piis, records, Key(Pii), Picker(Pii), dedup);
          Response(if c.keyError then Int(-1) else Int(|c.list|), c.list, dois)
        case _ => Response(Int(-1), piis, dois)
      else if mode == "rsc" then
        match body
        case Object(_) => Response(Raised(TypeError), piis, dois)
        case Array(records) =>
          var c := Collect(dois, records, Key(Doi), Picker(Doi), dedup);
          Response(if c.keyError then Int(-1) else Int(|c.list|), piis, c.list)
        case _ => Response(Int(|dois|), piis, dois)
      else Response(NoneValue, piis, dois)
  }

  /**
   * A search only appends, and only to the list of its mode; an int result is
   * -1 or the new length of that list.
   */
  lemma RespondAppends(mode: string, piis: seq<string>, dois: seq<string>, answer: Answer, dedup: bool)
    ensures piis <= Respond(mode, piis, dois, answer, dedup).piis
    ensures dois <= Respond(mode, piis, dois, answer, dedup).dois
    ensures mode != "elsevier" ==> Respond(mode, piis, dois, answer, dedup).piis == piis
    ensures mode != "rsc" ==> Respond(mode, piis, dois, answer, dedup).dois == dois
    ensures var r := Respond(mode, piis, dois, answer, dedup);
            r.result.Int? ==> r.result.value == -1 ||
                              (mode == "elsevier" && r.result.value == |r.piis|) ||
                              (mode == "rsc" && r.result.value == |r.dois|)
  {
    if answer.Answer? {
      match answer.body
      case Object(Some(records)) => CollectExtends(piis, records, Key(Pii), Picker(Pii), dedup);
      case Array(records) => CollectExtends(dois, records, Key(Doi), Picker(Doi), dedup);
      case _ =>
    }
  }

  /**
   * Which int a search over a list of records returns: -1 exactly when some
   * record lacks the mode's key (the KeyError), and otherwise the new length
   * of the mode's list.
   */
  lemma RespondResult(piis: seq<string>, dois: seq<string>, records: seq<Article>, dedup: bool)
    ensures var r := Respond("elsevier", piis, dois, Answer(Object(Some(records))), dedup);
            r.result == if forall k :: 0 <= k < |records| ==> "pii" in records[k] then Int(|r.piis|) else Int(-1)
    ensures var r := Respond("rsc", piis, dois, Answer(Array(records)), dedup);
            r.result == if forall k :: 0 <= k < |records| ==> "doi" in records[k] then Int(|r.dois|) else Int(-1)
  {
    KeyErrorIff(piis, records, Key(Pii), Picker(Pii), dedup);
    KeyErrorIff(dois, records, Key(Doi), Picker(Doi), dedup);
  }

  /** The loop raises KeyError exactly when some record lacks the key. */
  lemma {:induction false} KeyErrorIff(acc: seq<string>, records: seq<Article>, key: string, pick: string -> Option<string>, dedup: bool)
    ensures Collect(acc, records, key, pick, dedup).keyError <==> exists k :: 0 <= k < |records| && key !in records[k]
  {
    if Collect(acc, records, key, pick, dedup).keyError {
      if forall k :: 0 <= k < |records| ==> key in records[k] {
        NoKeyErrorBefore(acc, records, key, pick, dedup);
      }
    } else {
      CollectComplete(acc, records, key, pick, dedup);
    }
  }

  /** With dedup, lists without repeats stay without repeats. */
  lemma RespondDistinct(mode: string, piis: seq<string>, dois: seq<string>, answer: Answer)
    requires Distinct(piis) && Distinct(dois)
    ensures Distinct(Respond(mode, piis, dois, answer, true).piis)
    ensures Distinct(Respond(mode, piis, dois, answer, true).dois)
  {
    if answer.Answer? {
      match answer.body
      case Object(Some(records)) => CollectDistinct(piis, records, Key(Pii), Picker(Pii));
      case Array(records) => CollectDistinct(dois, records, Key(Doi), Picker(Doi));
      case _ =>
    }
  }

  /**
   * A successful elsevier search lists the pii of every record; a successful
   * rsc search lists every RSC DOI of the response, with the resolver prefix
   * stripped.
   */
  lemma RespondComplete(mode: string, piis: seq<string>, dois: seq<string>, records: seq<Article>, dedup: bool)
    ensures var r := Respond(mode, piis, dois, Answer(Object(Some(records))), dedup);
            mode == "elsevier" && r.result != Int(-1) ==>
              forall k :: 0 <= k < |records| ==> "pii" in records[k] && records[k]["pii"] in r.piis
    ensures var r := Respond(mode, piis, dois, Answer(Array(records)), dedup);
            mode == "rsc" && r.result != Int(-1) ==>
              forall k :: 0 <= k < |records| ==>
                "doi" in records[k] && (IsRscDoi(records[k]["doi"]) ==> StripResolver(records[k]["doi"]) in r.dois)
  {
    if mode == "elsevier" && !Collect(piis, records, Key(Pii), Picker(Pii), dedup).keyError {
      CollectComplete(piis, records, Key(Pii), Picker(Pii), dedup);
    }
    if mode == "rsc" && !Collect(dois, records, Key(Doi), Picker(Doi), dedup).keyError {
      CollectComplete(dois, records, Key(Doi), Picker(Doi), dedup);
    }
  }

  /**
   * With dedup, asking again and getting the same response changes nothing:
   * the lists and the count stay as the first call left them.
   */
  lemma RespondRepeat(mode: string, piis: seq<string>, dois: seq<string>, answer: Answer)
    requires Respond(mode, piis, dois, answer, true).result.Int?
    requires Respond(mode, piis, dois, answer, true).result.value >= 0
    ensures var r := Respond(mode, piis, dois, answer, true);
            Respond(mode, r.piis, r.dois, answer, true) == r
  {
    var r := Respond(mode, piis, dois, answer, true);
    match answer.body
    case Object(Some(records)) =>
      if mode == "elsevier" {
        CollectComplete(piis, records, Key(Pii), Picker(Pii), true);
        CollectAbsorbed(r.piis, records, Key(Pii), Picker(Pii));
      }
    case Array(records) =>
      if mode == "rsc" {
        CollectComplete(dois, records, Key(Doi), Picker(Doi), true);
        CollectAbsorbed(r.dois, records, Key(Doi), Picker(Doi));
      }
    case _ =>
  }

  /**
   * Without dedup, a successful elsevier search appends the pii of every
   * record in response order, repeats included, and counts them all.
   */
  lemma ElsevierNoDedup(piis: seq<string>, dois: seq<string>, records: seq<Article>)
    requires forall k :: 0 <= k < |records| ==> "pii" in records[k]
    ensures var r := Respond("elsevier", piis, dois, Answer(Object(Some(records))), false);
            r.result == Int(|piis| + |records|) && |r.piis| == |piis| + |records| && piis <= r.piis &&
            forall k :: 0 <= k < |records| ==> r.piis[|piis| + k] == records[k]["pii"]
  {
    CollectNoDedup(piis, records, Key(Pii), Picker(Pii));
    PickedPiis(records);
  }
}
