/**
 * The link selection of `scrape_pdf_links` (content_sourcing_updated.py:104-144).
 * Fetching and parsing the page, `urljoin` and the HEAD request behind
 * `is_valid_pdf` are parameters: `page` gives the hrefs of the page's anchors
 * (None when the request fails), `join` is `urljoin`, `isValidPdf` the check.
 */
module PdfLinks {
  import opened Wrappers
  import opened PyStr
  import opened UrlValidation

  /** At most this many links are returned (line 141). */
  const MaxLinks: nat := 10

  /** Links containing this host are dropped (line 133). */
  const ArchiveHost: string := "web.archive.org"

  /** Line 119: the hrefs that end in ".pdf" (case-sensitive), in page order. */
  function PdfHrefs(hrefs: seq<string>): (r: seq<string>)
    ensures forall h :: h in r <==> h in hrefs && EndsWith(h, ".pdf")
    ensures Subsequence(r, hrefs)
    ensures forall h :: multiset(r)[h] == if EndsWith(h, ".pdf") then multiset(hrefs)[h] else 0
  {
    if hrefs == [] then []
    else
      assert hrefs == [hrefs[0]] + hrefs[1..];
      if EndsWith(hrefs[0], ".pdf") then
        var r := [hrefs[0]] + PdfHrefs(hrefs[1..]);
        assert r[1..] == PdfHrefs(hrefs[1..]);
        r
      else PdfHrefs(hrefs[1..])
  }

  /** Line 125: the link mentions the subject or "math", ignoring ASCII case. */
  predicate OnSubject(link: string, subject: string)
    ensures subject == "" ==> OnSubject(link, subject)
  {
    Contains(Lower(link), Lower(subject)) || Contains(Lower(link), "math")
  }

  function SubjectLinks(links: seq<string>, subject: string): (r: seq<string>)
    ensures forall h :: h in r <==> h in links && OnSubject(h, subject)
    ensures Subsequence(r, links)
    ensures forall h :: multiset(r)[h] == if OnSubject(h, subject) then multiset(links)[h] else 0
  {
    if links == [] then []
    else
      assert links == [links[0]] + links[1..];
      if OnSubject(links[0], subject) then
        var r := [links[0]] + SubjectLinks(links[1..], subject);
        assert r[1..] == SubjectLinks(links[1..], subject);
        r
      else SubjectLinks(links[1..], subject)
  }

  /**
   * Lines 119-127: the candidate links. Only ".pdf" hrefs are considered; when
   * some of them are on the subject only those are kept, otherwise all of them.
   */
  function Candidates(hrefs: seq<string>, subject: string): (r: seq<string>)
    ensures forall c :: c in r ==> c in hrefs && EndsWith(c, ".pdf")
    ensures (exists h :: h in hrefs && EndsWith(h, ".pdf") && OnSubject(h, subject)) ==>
      forall c :: c in r <==> c in hrefs && EndsWith(c, ".pdf") && OnSubject(c, subject)
    ensures (forall h :: h in hrefs && EndsWith(h, ".pdf") ==> !OnSubject(h, subject)) ==>
      forall c :: c in r <==> c in hrefs && EndsWith(c, ".pdf")
  {
    var pdfs := PdfHrefs(hrefs);
    var matching := SubjectLinks(pdfs, subject);
    if matching == [] then pdfs
    else
      assert matching[0] in matching;
      matching
  }

  /** Line 133: an absolute link is kept when it is a valid PDF and not an archive.org copy. */
  predicate Keep(absolute: string, isValidPdf: string -> bool) {
    isValidPdf(absolute) && !Contains(absolute, ArchiveHost)
  }

  /** Whether a link is on the subject does not depend on the case of its letters. */
  lemma OnSubjectCaseBlind(link: string, subject: string)
    ensures OnSubject(Lower(link), subject) == OnSubject(link, subject)
  {
    LowerTwice(link);
  }

  /** A link holding the archive.org host anywhere is dropped, whatever `is_valid_pdf` answers. */
  lemma ArchiveCopyDropped(absolute: string, i: nat, isValidPdf: string -> bool)
    requires i <= |absolute| && StartsWith(absolute[i..], ArchiveHost)
    ensures !Keep(absolute, isValidPdf)
  {
    ContainsInSuffix(absolute, i, ArchiveHost);
  }

  /**
   * Lines 131-134: `valid_links`, the kept absolute forms of the candidates,
   * in candidate order.
   */
  function Absolutes(base: string, candidates: seq<string>, join: (string, string) -> string, isValidPdf: string -> bool)
    : (r: seq<string>)
    ensures forall a :: a in r ==> Keep(a, isValidPdf) && exists c :: c in candidates && a == join(base, c)
    ensures forall c :: c in candidates && Keep(join(base, c), isValidPdf) ==> join(base, c) in r
    decreases |candidates|
  {
    if candidates == [] then []
    else
      var init := candidates[..|candidates| - 1];
      var last := candidates[|candidates| - 1];
      assert forall c :: c in candidates ==> c in init || c == last;
      var a := join(base, last);
      Absolutes(base, init, join, isValidPdf) + (if Keep(a, isValidPdf) then [a] else [])
  }

  /**
   * `valid_links` at line 136 for `url`: empty when `validate_url` rejects
   * the URL or the page cannot be fetched.
   */
  function ValidLinks(url: string, subject: string, page: string -> Option<seq<string>>,
                      join: (string, string) -> string, isValidPdf: string -> bool): seq<string>
  {
    var base := ValidateUrl(url);
    if base == "" then []
    else
      match page(base)
      case None => []
      case Some(hrefs) => Absolutes(base, Candidates(hrefs, subject), join, isValidPdf)
  }

  /**
   * `scrape_pdf_links` validates the URL it is given once more (line 107),
   * so a source that line 218 accepted as "https://a]b" yields no link at all.
   */
  lemma RevalidatedSourceYieldsNothing(subject: string, page: string -> Option<seq<string>>,
                                       join: (string, string) -> string, isValidPdf: string -> bool)
    ensures ValidateUrl("a]b") != ""
    ensures ValidLinks(ValidateUrl("a]b"), subject, page, join, isValidPdf) == []
  {
    RevalidationRejects();
  }

  /**
   * Every valid link comes from a URL `validate_url` accepts and whose page
   * was fetched, passes the checks of line 133, and is the join of that URL
   * with a ".pdf" href of the page.
   */
  lemma ValidLinksOrigin(url: string, subject: string, page: string -> Option<seq<string>>,
                         join: (string, string) -> string, isValidPdf: string -> bool)
    ensures var base := ValidateUrl(url);
      forall a :: a in ValidLinks(url, subject, page, join, isValidPdf) ==>
        && base != "" && page(base).Some? && Keep(a, isValidPdf)
        && exists c :: c in page(base).value && EndsWith(c, ".pdf") && a == join(base, c)
  {
  }

  /**
   * Line 141, `list(set(xs))[:cap]`: distinct elements of `xs`, in an order
   * the model leaves open, as many as there are distinct ones up to `cap`;
   * all of them when there are no more than `cap`.
   */
  method TakeDistinct(xs: seq<string>, cap: nat) returns (r: seq<string>)
    ensures Distinct(r)
    ensures forall x :: x in r ==> x in xs
    ensures |r| == Min(cap, |Elems(xs)|)
    ensures |Elems(xs)| <= cap ==> forall x :: x in xs ==> x in r
  {
    var pool := Elems(xs);
    r := [];
    while pool != {} && |r| < cap
      invariant Distinct(r)
      invariant |r| <= cap
      invariant forall x :: x in r ==> x in xs
      invariant forall x :: x in pool <==> x in xs && x !in r
      invariant |r| + |pool| == |Elems(xs)|
      decreases |pool|
    {
      var x :| x in pool;
      r := r + [x];
      pool := pool - {x};
    }
  }

  /** The loop of lines 131-134. */
  method CollectValid(base: string, candidates: seq<string>, join: (string, string) -> string, isValidPdf: string -> bool)
    returns (valid: seq<string>)
    ensures valid == Absolutes(base, candidates, join, isValidPdf)
  {
    valid := [];
    for i := 0 to |candidates|
      invariant valid == Absolutes(base, candidates[..i], join, isValidPdf)
    {
      var absolute := join(base, candidates[i]);
      assert candidates[..i + 1][..i] == candidates[..i];
      if isValidPdf(absolute) && !Contains(absolute, ArchiveHost) {
        valid := valid + [absolute];
      }
    }
    assert candidates[..|candidates|] == candidates;
  }

  /**
   * What `scrape_pdf_links(url, subject)` may return: distinct valid links,
   * as many as there are distinct valid links up to ten, and all of them
   * when there are no more than ten.
   */
  predicate Scraped(links: seq<string>, url: string, subject: string, page: string -> Option<seq<string>>,
                    join: (string, string) -> string, isValidPdf: string -> bool)
  {
    var valid := ValidLinks(url, subject, page, join, isValidPdf);
    && Distinct(links)
    && (forall l :: l in links ==> l in valid)
    && |links| == Min(MaxLinks, |Elems(valid)|)
    && (|Elems(valid)| <= MaxLinks ==> forall l :: l in valid ==> l in links)
  }

  /** No link is scraped exactly when there is no valid link. */
  lemma ScrapedNone(links: seq<string>, url: string, subject: string, page: string -> Option<seq<string>>,
                    join: (string, string) -> string, isValidPdf: string -> bool)
    requires Scraped(links, url, subject, page, join, isValidPdf)
    ensures links == [] <==> ValidLinks(url, subject, page, join, isValidPdf) == []
  {
    var valid := ValidLinks(url, subject, page, join, isValidPdf);
    if valid != [] {
      assert valid[0] in Elems(valid);
    }
  }

  /** Scraped links passed `is_valid_pdf`, and there are at most ten of them. */
  lemma ScrapedLinks(links: seq<string>, url: string, subject: string, page: string -> Option<seq<string>>,
                     join: (string, string) -> string, isValidPdf: string -> bool)
    requires Scraped(links, url, subject, page, join, isValidPdf)
    ensures forall l :: l in links ==> isValidPdf(l)
    ensures |links| <= MaxLinks
    ensures links == [] <==> ValidLinks(url, subject, page, join, isValidPdf) == []
  {
    ValidLinksOrigin(url, subject, page, join, isValidPdf);
    ScrapedNone(links, url, subject, page, join, isValidPdf);
  }

  /**
   * `scrape_pdf_links`: the distinct valid links, at most ten of them, and
   * all of them when there are no more than ten. The order is not modelled
   * (it is that of a Python set).
   */
  method ScrapePdfLinks(url: string, subject: string, page: string -> Option<seq<string>>,
                        join: (string, string) -> string, isValidPdf: string -> bool)
    returns (links: seq<string>)
    ensures Distinct(links)
    ensures forall l :: l in links ==> l in ValidLinks(url, subject, page, join, isValidPdf)
    ensures |links| == Min(MaxLinks, |Elems(ValidLinks(url, subject, page, join, isValidPdf))|)
    ensures |Elems(ValidLinks(url, subject, page, join, isValidPdf))| <= MaxLinks ==>
      forall l :: l in ValidLinks(url, subject, page, join, isValidPdf) ==> l in links
    ensures Scraped(links, url, subject, page, join, isValidPdf)
  {
    // Each early `return []` of the source is the empty `valid` below.
    var valid: seq<string> := [];
    var base := ValidateUrl(url);
    if base != "" {
      var fetched := page(base);
      if fetched.Some? {
        valid := CollectValid(base, Candidates(fetched.value, subject), join, isValidPdf);
      }
    }
    assert valid == ValidLinks(url, subject, page, join, isValidPdf);
    links := TakeDistinct(valid, MaxLinks);
  }
}
