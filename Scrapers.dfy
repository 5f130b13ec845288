/**
 * The HTML link scrapers. Each scraper is an `HTMLParser` whose
 * `handle_starttag(tag, attrs)` may overwrite one field, `download_link`;
 * `feed` calls it once per start tag, in document order. The tokenizer is
 * not modelled: a document is given as its sequence of start tags.
 */
module Scrapers {
  import opened Outcomes
  import opened Strings

  /** An attribute as `HTMLParser` reports it: a (name, value) pair. */
  type Attr = (string, string)

  /** One `handle_starttag` call. */
  datatype StartTag = StartTag(tag: string, attrs: seq<Attr>)

  /**
   * The matching rule of each scraper class: `RSC`, `ECS` and `Nature` of
   * articledownloader/scrapers.py, and `MyHTMLParser` (identical in both
   * downloader snapshots), here called `PdfLink`.
   */
  datatype Rule = Rsc | Ecs | Nature | PdfLink

  const RscPdfMarker: string := "http://pubs.rsc.org/en/content/articlepdf/"
  const EcsHost: string := "http://jes.ecsdl.org"
  const NatureHost: string := "http://www.nature.com"

  /** Python `s[:-n]` for `n > 0`: all but the last `n` characters, or nothing. */
  function DropLast(s: string, n: nat): (t: string)
    ensures t <= s
  {
    if |s| <= n then [] else s[..|s| - n]
  }

  /** Whether a start tag passes the rule's tag test (before its attributes are scanned). */
  predicate TagMatches(rule: Rule, tag: string, attrs: seq<Attr>) {
    match rule
    case Rsc => true
    case Ecs => tag == "a" && ("rel", "view-full-text.pdf") in attrs
    case Nature => tag == "a" && (("class", "download-pdf") in attrs || ("id", "download-pdf") in attrs)
    case PdfLink => tag == "a" && ("id", "pdfLink") in attrs
  }

  /** What one attribute of a matching tag sets `download_link` to, if anything. */
  function AttrLink(rule: Rule, attr: Attr): Option<string> {
    match rule
    case Rsc => if attr.0 == "content" && Contains(attr.1, RscPdfMarker) then Some(attr.1) else None
    case Ecs => if attr.0 == "href" then Some(EcsHost + DropLast(attr.1, 5)) else None
    case Nature => if attr.0 == "href" then Some(NatureHost + attr.1) else None
    case PdfLink => if attr.0 == "href" then Some(attr.1) else None
  }

  /** The `for attr in attrs` loop: each link-bearing attribute overwrites the link. */
  function ScanAttrs(rule: Rule, link: Option<string>, attrs: seq<Attr>): Option<string>
    decreases |attrs|
  {
    if attrs == [] then link
    else
      var prev := ScanAttrs(rule, link, attrs[..|attrs| - 1]);
      match AttrLink(rule, attrs[|attrs| - 1])
      case Some(v) => Some(v)
      case None => prev
  }

  /** One `handle_starttag` call, on the link it finds. */
  function Step(rule: Rule, link: Option<string>, t: StartTag): Option<string> {
    if TagMatches(rule, t.tag, t.attrs) then ScanAttrs(rule, link, t.attrs) else link
  }

  /** `feed`: `handle_starttag` for each start tag, in document order. */
  function Fold(rule: Rule, link: Option<string>, tags: seq<StartTag>): Option<string>
    decreases |tags|
  {
    if tags == [] then link else Step(rule, Fold(rule, link, tags[..|tags| - 1]), tags[|tags| - 1])
  }

  /** The link a start tag sets on its own, whatever the link was before. */
  function TagLink(rule: Rule, t: StartTag): Option<string> {
    Step(rule, None, t)
  }

  /** The scan ends on the old link when no attribute bears one, and otherwise forgets it. */
  lemma {:induction false} ScanKeeps(rule: Rule, link: Option<string>, attrs: seq<Attr>)
    ensures ScanAttrs(rule, link, attrs) == if ScanAttrs(rule, None, attrs).Some? then ScanAttrs(rule, None, attrs) else link
    decreases |attrs|
  {
    if attrs != [] {
      ScanKeeps(rule, link, attrs[..|attrs| - 1]);
    }
  }

  /** A start tag replaces the link when it sets one of its own, and otherwise keeps it. */
  lemma StepKeeps(rule: Rule, link: Option<string>, t: StartTag)
    ensures Step(rule, link, t) == if TagLink(rule, t).Some? then TagLink(rule, t) else link
  {
    ScanKeeps(rule, link, t.attrs);
  }

  /** Starting from None, the scan finds nothing exactly when no attribute bears a link. */
  lemma {:induction false} ScanNoneIff(rule: Rule, attrs: seq<Attr>)
    ensures ScanAttrs(rule, None, attrs).None? <==> forall i :: 0 <= i < |attrs| ==> AttrLink(rule, attrs[i]).None?
    decreases |attrs|
  {
    if attrs != [] {
      var n := |attrs| - 1;
      ScanNoneIff(rule, attrs[..n]);
      assert forall i :: 0 <= i < n ==> attrs[..n][i] == attrs[i];
    }
  }

  /** A found link is the value of the last attribute that bears one. */
  lemma {:induction false} ScanLast(rule: Rule, attrs: seq<Attr>)
    requires ScanAttrs(rule, None, attrs).Some?
    ensures exists i :: 0 <= i < |attrs| && AttrLink(rule, attrs[i]) == ScanAttrs(rule, None, attrs) &&
                        forall j :: i < j < |attrs| ==> AttrLink(rule, attrs[j]).None?
    decreases |attrs|
  {
    var n := |attrs| - 1;
    if AttrLink(rule, attrs[n]).Some? {
      assert AttrLink(rule, attrs[n]) == ScanAttrs(rule, None, attrs);
    } else {
      assert ScanAttrs(rule, None, attrs) == ScanAttrs(rule, None, attrs[..n]);
      ScanLast(rule, attrs[..n]);
      var i :| 0 <= i < n && AttrLink(rule, attrs[..n][i]) == ScanAttrs(rule, None, attrs[..n]) &&
               forall j :: i < j < n ==> AttrLink(rule, attrs[..n][j]).None?;
      assert attrs[..n][i] == attrs[i];
      forall j | i < j < |attrs| ensures AttrLink(rule, attrs[j]).None? {
        if j < n {
          assert attrs[..n][j] == attrs[j];
        }
      }
    }
  }

  /** The index of the last start tag that sets a link, if any. */
  function LastSetter(rule: Rule, tags: seq<StartTag>): (k: Option<nat>)
    ensures k.None? <==> forall j :: 0 <= j < |tags| ==> TagLink(rule, tags[j]).None?
    ensures k.Some? ==> k.value < |tags| && TagLink(rule, tags[k.value]).Some?
    ensures k.Some? ==> forall j :: k.value < j < |tags| ==> TagLink(rule, tags[j]).None?
    decreases |tags|
  {
    if tags == [] then None
    else
      var n := |tags| - 1;
      if TagLink(rule, tags[n]).Some? then Some(n)
      else
        var k := LastSetter(rule, tags[..n]);
        assert forall j :: 0 <= j < n ==> tags[..n][j] == tags[j];
        k
  }

  /**
   * `download_link` after a whole document: unchanged when no start tag
   * sets a link; otherwise the link the last such tag sets.
   */
  lemma {:induction false} FoldLastWins(rule: Rule, link: Option<string>, tags: seq<StartTag>)
    ensures Fold(rule, link, tags) == match LastSetter(rule, tags)
                                      case None => link
                                      case Some(k) => TagLink(rule, tags[k])
    decreases |tags|
  {
    if tags != [] {
      var n := |tags| - 1;
      FoldLastWins(rule, link, tags[..n]);
      StepKeeps(rule, Fold(rule, link, tags[..n]), tags[n]);
      if TagLink(rule, tags[n]).None? {
        assert LastSetter(rule, tags) == LastSetter(rule, tags[..n]);
        match LastSetter(rule, tags[..n])
        case None =>
        case Some(k) => assert tags[..n][k] == tags[k];
      }
    }
  }

  /**
   * A fresh scraper fed a document ends with no link exactly when no start
   * tag matches the rule with a link-bearing attribute.
   */
  lemma {:induction false} NoLinkIff(rule: Rule, tags: seq<StartTag>)
    ensures Fold(rule, None, tags).None? <==> forall j :: 0 <= j < |tags| ==> TagLink(rule, tags[j]).None?
  {
    FoldLastWins(rule, None, tags);
  }

  /**
   * The link a fresh scraper ends with is the value some attribute of some
   * matching start tag produced.
   */
  lemma {:induction false} FoldOrigin(rule: Rule, tags: seq<StartTag>)
    requires Fold(rule, None, tags).Some?
    ensures exists k, i :: 0 <= k < |tags| && 0 <= i < |tags[k].attrs| &&
              TagMatches(rule, tags[k].tag, tags[k].attrs) &&
              AttrLink(rule, tags[k].attrs[i]) == Fold(rule, None, tags)
  {
    FoldLastWins(rule, None, tags);
    var k := LastSetter(rule, tags).value;
    ScanLast(rule, tags[k].attrs);
  }

  /**
   * RSC: whatever the tag, a `content` attribute whose value contains the
   * article-PDF address becomes the link, whole; so a found link always
   * contains that address.
   */
  lemma {:induction false} RscLinkIsContent(tags: seq<StartTag>)
    requires Fold(Rsc, None, tags).Some?
    ensures Contains(Fold(Rsc, None, tags).value, RscPdfMarker)
    ensures exists k :: 0 <= k < |tags| && ("content", Fold(Rsc, None, tags).value) in tags[k].attrs
  {
    FoldOrigin(Rsc, tags);
    var k, i :| 0 <= k < |tags| && 0 <= i < |tags[k].attrs| &&
                AttrLink(Rsc, tags[k].attrs[i]) == Fold(Rsc, None, tags);
    assert tags[k].attrs[i] == ("content", Fold(Rsc, None, tags).value);
  }

  /**
   * ECS: a found link always starts with the journal host, and came from an
   * `a` tag carrying the exact pair (`rel`, `view-full-text.pdf`).
   */
  lemma {:induction false} EcsLinkShape(tags: seq<StartTag>)
    requires Fold(Ecs, None, tags).Some?
    ensures EcsHost <= Fold(Ecs, None, tags).value
    ensures exists k :: 0 <= k < |tags| && tags[k].tag == "a" && ("rel", "view-full-text.pdf") in tags[k].attrs
  {
    FoldOrigin(Ecs, tags);
  }

  /** ECS: the last five characters of the href are cut off; a shorter href adds nothing to the host. */
  lemma EcsHrefTrim(href: string)
    ensures |href| <= 5 ==> AttrLink(Ecs, ("href", href)) == Some(EcsHost)
    ensures |href| > 5 ==> AttrLink(Ecs, ("href", href)) == Some(EcsHost + href[..|href| - 5])
  {
    if |href| <= 5 {
      assert EcsHost + [] == EcsHost;
    }
  }

  /**
   * Nature: a found link starts with the site host and came from an `a` tag
   * carrying (`class`, `download-pdf`) or (`id`, `download-pdf`) exactly.
   */
  lemma {:induction false} NatureLinkShape(tags: seq<StartTag>)
    requires Fold(Nature, None, tags).Some?
    ensures NatureHost <= Fold(Nature, None, tags).value
    ensures exists k :: 0 <= k < |tags| && tags[k].tag == "a" &&
              (("class", "download-pdf") in tags[k].attrs || ("id", "download-pdf") in tags[k].attrs)
  {
    FoldOrigin(Nature, tags);
  }

  /** Nature: the pair must match exactly; a multi-valued class does not. */
  lemma NatureExactClass()
    ensures !TagMatches(Nature, "a", [("class", "btn download-pdf"), ("href", "/x.pdf")])
    ensures TagLink(Nature, StartTag("a", [("class", "download-pdf"), ("href", "/x.pdf")])) == Some(NatureHost + "/x.pdf")
  {
    var good := [("class", "download-pdf"), ("href", "/x.pdf")];
    assert good[..1] == [("class", "download-pdf")];
    assert ("class", "download-pdf") in good;
  }

  /**
   * `MyHTMLParser`: a found link is the `href` of an `a` tag carrying the
   * exact pair (`id`, `pdfLink`).
   */
  lemma {:induction false} PdfLinkShape(tags: seq<StartTag>)
    requires Fold(PdfLink, None, tags).Some?
    ensures exists k :: 0 <= k < |tags| && tags[k].tag == "a" && ("id", "pdfLink") in tags[k].attrs &&
              ("href", Fold(PdfLink, None, tags).value) in tags[k].attrs
  {
    FoldOrigin(PdfLink, tags);
    var k, i :| 0 <= k < |tags| && 0 <= i < |tags[k].attrs| && TagMatches(PdfLink, tags[k].tag, tags[k].attrs) &&
                AttrLink(PdfLink, tags[k].attrs[i]) == Fold(PdfLink, None, tags);
    assert tags[k].attrs[i] == ("href", Fold(PdfLink, None, tags).value);
  }

  /**
   * A scraper object: its rule and the one field its callbacks update. Each
   * instance has its own `download_link`, initially None.
   */
  class LinkScraper {
    const rule: Rule
    var downloadLink: Option<string>

    constructor (rule: Rule)
      ensures this.rule == rule && downloadLink == None
    {
      this.rule := rule;
      downloadLink := None;
    }

    /** `handle_starttag`: on a matching tag, each link-bearing attribute overwrites the link. */
    method HandleStartTag(tag: string, attrs: seq<Attr>)
      modifies this
      ensures downloadLink == Step(rule, old(downloadLink), StartTag(tag, attrs))
    {
      if TagMatches(rule, tag, attrs) {
        for i := 0 to |attrs|
          invariant downloadLink == ScanAttrs(rule, old(downloadLink), attrs[..i])
        {
          assert attrs[..i + 1][..i] == attrs[..i];
          var (name, value) := attrs[i];
          match rule
          case Rsc =>
            if name == "content" && Contains(value, RscPdfMarker) { downloadLink := Some(value); }
          case Ecs =>
            if name == "href" { downloadLink := Some(EcsHost + DropLast(value, 5)); }
          case Nature =>
            if name == "href" { downloadLink := Some(NatureHost + value); }
          case PdfLink =>
            if name == "href" { downloadLink := Some(value); }
        }
        assert attrs[..|attrs|] == attrs;
      }
    }

    /** `feed`: one `handle_starttag` call per start tag of the document, in order. */
    method Feed(tags: seq<StartTag>)
      modifies this
      ensures downloadLink == Fold(rule, old(downloadLink), tags)
    {
      for i := 0 to |tags|
        invariant downloadLink == Fold(rule, old(downloadLink), tags[..i])
      {
        assert tags[..i + 1][..i] == tags[..i];
        HandleStartTag(tags[i].tag, tags[i].attrs);
      }
      assert tags[..|tags|] == tags;
    }
  }
}
