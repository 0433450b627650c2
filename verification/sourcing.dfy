/**
 * `source_pdf_content` (content_sourcing_updated.py:211-327): for each source
 * URL, decide how to source it, gather PDF links, have them formatted as
 * JSON, and download every acceptable PDF, numbering an audit entry for each
 * fragment collected. The network, the LLM, the console and the files are
 * parameters (`Env`); uuid fragment ids and timestamps are left out.
 */
module Sourcing {
  import opened Wrappers
  import opened PyStr
  import opened UrlValidation
  import opened JsonText
  import opened LinkFormatting
  import opened PdfLinks

  /** What `download_pdf` followed by `extract_pdf_text` gives for a URL. */
  datatype Download = Download(localPath: string, filename: string, text: string)

  /** The world outside the loop, one parameter per collaborator. */
  datatype Env = Env(
    page: string -> Option<seq<string>>,    // anchor hrefs of a fetched page; None when the GET fails
    join: (string, string) -> string,       // urljoin
    isValidPdf: string -> bool,             // is_valid_pdf (HEAD request)
    wikiText: string -> string,             // scrape_wikipedia_text, "" on failure
    llm: nat -> LlmReply,                   // the reply to the n-th LLM call of the run
    parse: string -> Option<Json>,          // json.loads; None for JSONDecodeError
    fetchPdf: string -> Option<Download>,   // download and extraction; None when either raises
    operator: nat -> string)                // what the operator types at the CK-12 prompt for source k

  /** One element of the returned list: Wikipedia text or a downloaded PDF. */
  datatype Fragment =
    | WikiFragment(wikiUrl: string, wikiText: string)
    | PdfFragment(pdfUrl: string, pdfText: string, localPath: string)

  /** One audit-log record written by the loop. */
  datatype AuditEntry = AuditEntry(
    id: nat, action: string, curriculumId: int, subject: string,
    sourceUrl: string, localFilename: Option<string>)

  /** A PDF link before formatting: a {"url": u} dict or a plain string. */
  datatype LinkItem = UrlDict(url: string) | Plain(link: string)

  /** The three ways a validated source URL is handled (lines 223, 249, 255). */
  datatype UrlKind = Wiki | DirectPdf | Page

  const WikiMarker: string := "wikipedia.org/wiki"

  /**
   * Lines 223-256: a URL containing "wikipedia.org/wiki" is a Wikipedia page,
   * even when it ends in ".pdf"; any other URL ending in ".pdf" is a direct
   * PDF; everything else is a page to scrape for links.
   */
  function Classify(url: string): (k: UrlKind)
    ensures k == Wiki <==> Contains(url, WikiMarker)
    ensures k == DirectPdf <==> !Contains(url, WikiMarker) && EndsWith(url, ".pdf")
    ensures k == Page <==> !Contains(url, WikiMarker) && !EndsWith(url, ".pdf")
  {
    if Contains(url, WikiMarker) then Wiki
    else if EndsWith(url, ".pdf") then DirectPdf
    else Page
  }

  /** Line 276: the URL of a link item, whether it is a dict or a string. */
  function LinkUrl(item: LinkItem): string {
    match item
    case UrlDict(u) => u
    case Plain(l) => l
  }

  /** Line 276, the list passed to `format_pdf_links`: one URL per item, in order. */
  function LinkUrls(items: seq<LinkItem>): (r: seq<string>)
    ensures |r| == |items|
    ensures forall i :: 0 <= i < |items| ==> r[i] == LinkUrl(items[i])
  {
    if items == [] then [] else [LinkUrl(items[0])] + LinkUrls(items[1..])
  }

  function Plains(links: seq<string>): (r: seq<LinkItem>)
    ensures LinkUrls(r) == links
    ensures forall it :: it in r ==> it.Plain? && it.link in links
  {
    if links == [] then []
    else
      var r := [Plain(links[0])] + Plains(links[1..]);
      assert r[1..] == Plains(links[1..]);
      r
  }

  /** Lines 283-284: a parsed value that is not a list is treated as a one-element list. */
  function ListItems(v: Json): (r: seq<Json>)
    ensures !v.JArray? ==> r == [v]
  {
    if v.JArray? then v.items else [v]
  }

  /**
   * Lines 287-288: the PDF URL of a parsed item. The item is a string, or an
   * object whose "url" entry is one; it is accepted only when that string is
   * non-empty and ends in ".pdf".
   */
  function ItemUrl(item: Json): (r: Option<string>)
    ensures r.Some? ==> r.value != "" && EndsWith(r.value, ".pdf")
    ensures r.Some? <==>
      || (item.JString? && EndsWith(item.str, ".pdf"))
      || (item.JObject? && "url" in item.fields && item.fields["url"].JString? && EndsWith(item.fields["url"].str, ".pdf"))
    ensures r.Some? && item.JString? ==> r.value == item.str
    ensures r.Some? && item.JObject? ==> r.value == item.fields["url"].str
  {
    var candidate: Option<Json> := if item.JObject? then (if "url" in item.fields then Some(item.fields["url"]) else None) else Some(item);
    match candidate
    case Some(JString(s)) => if s != "" && EndsWith(s, ".pdf") then Some(s) else None
    case _ => None
  }

  /**
   * The audit entry `e` is the one written, with number `id`, for fragment
   * `f`; a PDF entry records the file name the download of its URL gave.
   */
  predicate Logs(e: AuditEntry, f: Fragment, id: nat, curriculumId: int, subject: string,
                 fetchPdf: string -> Option<Download>) {
    && e.id == id && e.curriculumId == curriculumId && e.subject == subject
    && (f.WikiFragment? ==> e.action == "wiki_sourced" && e.sourceUrl == f.wikiUrl && e.localFilename.None?)
    && (f.PdfFragment? ==>
          && e.action == "pdf_sourced" && e.sourceUrl == f.pdfUrl
          && fetchPdf(f.pdfUrl).Some? && e.localFilename == Some(fetchPdf(f.pdfUrl).value.filename))
  }

  /** One audit entry per fragment, numbered 1, 2, ... in fragment order. */
  predicate Journal(fragments: seq<Fragment>, audit: seq<AuditEntry>, curriculumId: int, subject: string,
                   fetchPdf: string -> Option<Download>) {
    |audit| == |fragments| &&
    forall i :: 0 <= i < |audit| ==> Logs(audit[i], fragments[i], i + 1, curriculumId, subject, fetchPdf)
  }

  /** The audit ids of a journal increase strictly, so no two entries share an id. */
  lemma JournalIdsIncrease(fragments: seq<Fragment>, audit: seq<AuditEntry>, curriculumId: int, subject: string,
                           fetchPdf: string -> Option<Download>)
    requires Journal(fragments, audit, curriculumId, subject, fetchPdf)
    ensures forall i, j :: 0 <= i < j < |audit| ==> audit[i].id < audit[j].id
  {
    forall i, j | 0 <= i < j < |audit|
      ensures audit[i].id < audit[j].id
    {
      assert Logs(audit[i], fragments[i], i + 1, curriculumId, subject, fetchPdf);
      assert Logs(audit[j], fragments[j], j + 1, curriculumId, subject, fetchPdf);
    }
  }

  /** Line 218: the source URLs as `validate_url` returns them, in order. */
  function Validated(sourceUrls: seq<string>): seq<string> {
    seq(|sourceUrls|, k requires 0 <= k < |sourceUrls| => ValidateUrl(sourceUrls[k]))
  }

  /** What every collected fragment satisfies, given the validated source URLs. */
  predicate Sound(f: Fragment, validated: seq<string>, env: Env) {
    match f
    case WikiFragment(u, text) =>
      text != "" && Contains(u, WikiMarker) && env.wikiText(u) == text && u in validated
    case PdfFragment(u, text, path) =>
      && u != "" && EndsWith(u, ".pdf")
      && env.fetchPdf(u).Some? && env.fetchPdf(u).value.text == text && env.fetchPdf(u).value.localPath == path
  }

  /** The fragments the inner loop (lines 286-320) collects from the parsed items, in order. */
  function PdfFragments(items: seq<Json>, fetchPdf: string -> Option<Download>): (r: seq<Fragment>)
    ensures forall f :: f in r ==>
      && f.PdfFragment? && f.pdfUrl != "" && EndsWith(f.pdfUrl, ".pdf")
      && fetchPdf(f.pdfUrl).Some? && fetchPdf(f.pdfUrl).value.text == f.pdfText
      && fetchPdf(f.pdfUrl).value.localPath == f.localPath
    ensures |r| <= |items|
    decreases |items|
  {
    if items == [] then []
    else
      var init := items[..|items| - 1];
      var url := ItemUrl(items[|items| - 1]);
      var rest := PdfFragments(init, fetchPdf);
      if url.None? || fetchPdf(url.value).None? then rest
      else
        var d := fetchPdf(url.value).value;
        rest + [PdfFragment(url.value, d.text, d.localPath)]
  }

  /** The value `{"url": u}`, as each object of the fallback JSON reads back. */
  function UrlItem(u: string): (item: Json)
    ensures ItemUrl(item).Some? <==> EndsWith(u, ".pdf")
  {
    JObject(map["url" := JString(u)])
  }

  /**
   * Lines 283-320 applied to the objects of the fallback text (line 173):
   * when every link ends in ".pdf" and downloads, each one gives a fragment,
   * in the order of the links.
   */
  lemma {:induction false} UrlItemsAllFetched(links: seq<string>, items: seq<Json>, fetchPdf: string -> Option<Download>)
    requires |items| == |links|
    requires forall i :: 0 <= i < |links| ==>
      items[i] == UrlItem(links[i]) && EndsWith(links[i], ".pdf") && fetchPdf(links[i]).Some?
    ensures var fs := PdfFragments(items, fetchPdf);
      |fs| == |links| && forall i :: 0 <= i < |links| ==> fs[i].pdfUrl == links[i]
    decreases |links|
  {
    if links != [] {
      var n := |links| - 1;
      UrlItemsAllFetched(links[..n], items[..n], fetchPdf);
      assert ItemUrl(items[n]) == Some(links[n]);
      var d := fetchPdf(links[n]).value;
      assert PdfFragments(items, fetchPdf) == PdfFragments(items[..n], fetchPdf) + [PdfFragment(links[n], d.text, d.localPath)];
    }
  }

  lemma JournalAppend(fragments: seq<Fragment>, audit: seq<AuditEntry>, f: Fragment, e: AuditEntry,
                      curriculumId: int, subject: string, fetchPdf: string -> Option<Download>)
    requires Journal(fragments, audit, curriculumId, subject, fetchPdf)
    requires Logs(e, f, |fragments| + 1, curriculumId, subject, fetchPdf)
    ensures Journal(fragments + [f], audit + [e], curriculumId, subject, fetchPdf)
  {
  }

  /** Lines 286-320: download each acceptable item, writing its audit entry just before the fragment. */
  method AddPdfFragments(items: seq<Json>, curriculumId: int, subject: string, fetchPdf: string -> Option<Download>,
                         fragments0: seq<Fragment>, audit0: seq<AuditEntry>)
    returns (fragments: seq<Fragment>, audit: seq<AuditEntry>)
    requires Journal(fragments0, audit0, curriculumId, subject, fetchPdf)
    ensures Journal(fragments, audit, curriculumId, subject, fetchPdf)
    ensures fragments == fragments0 + PdfFragments(items, fetchPdf)
  {
    fragments, audit := fragments0, audit0;
    for i := 0 to |items|
      invariant Journal(fragments, audit, curriculumId, subject, fetchPdf)
      invariant fragments == fragments0 + PdfFragments(items[..i], fetchPdf)
    {
      assert items[..i + 1][..i] == items[..i];
      var pdfUrl := ItemUrl(items[i]);
      if pdfUrl.Some? {
        var download := fetchPdf(pdfUrl.value);
        if download.Some? {
          var d := download.value;
          var entry := AuditEntry(|fragments| + 1, "pdf_sourced", curriculumId, subject, pdfUrl.value, Some(d.filename));
          var fragment := PdfFragment(pdfUrl.value, d.text, d.localPath);
          JournalAppend(fragments, audit, fragment, entry, curriculumId, subject, fetchPdf);
          audit := audit + [entry];
          fragments := fragments + [fragment];
        }
      }
    }
    assert items[..|items|] == items;
  }

  /**
   * Lines 257-270: a page on ck12.org that gave no links asks the operator
   * for a direct PDF URL. None means the source is skipped.
   */
  function ManualLinks(answer: string, isValidPdf: string -> bool): (r: Option<seq<LinkItem>>)
    ensures r.Some? <==>
      Strip(answer) != "" && EndsWith(Strip(answer), ".pdf") && isValidPdf(ValidateUrl(Strip(answer)))
    ensures r.Some? ==> r.value == [UrlDict(ValidateUrl(Strip(answer)))] && isValidPdf(r.value[0].url)
  {
    var manual := Strip(answer);
    if manual != "" && EndsWith(manual, ".pdf") then
      var validated := ValidateUrl(manual);
      if isValidPdf(validated) then Some([UrlDict(validated)]) else None
    else None
  }

  /** Lines 259-270: the items the operator's answer gives; none when the source is skipped. */
  function ManualItems(answer: string, isValidPdf: string -> bool): seq<LinkItem> {
    var manual := ManualLinks(answer, isValidPdf);
    if manual.Some? then manual.value else []
  }

  /**
   * Lines 223-270: `items` is a list of links the loop can have gathered for
   * the validated source URL `url`. A direct PDF gives itself when it is
   * valid. A CK-12 page without valid links gives what the operator's
   * answer yields. Any other URL, a Wikipedia page included, gives what
   * `scrape_pdf_links` may return, as plain strings.
   */
  predicate Gathered(url: string, subject: string, answer: string, env: Env, items: seq<LinkItem>) {
    var kind := Classify(url);
    if kind == DirectPdf then
      items == (if env.isValidPdf(url) then [UrlDict(url)] else [])
    else if kind == Page && Contains(url, "ck12.org") && ValidLinks(url, subject, env.page, env.join, env.isValidPdf) == [] then
      items == ManualItems(answer, env.isValidPdf)
    else
      items == Plains(LinkUrls(items)) && Scraped(LinkUrls(items), url, subject, env.page, env.join, env.isValidPdf)
  }

  /** Lines 223-246: the Wikipedia fragment a validated source URL gives, if any. */
  function WikiPart(url: string, env: Env): (r: seq<Fragment>)
    ensures r != [] <==> Contains(url, WikiMarker) && env.wikiText(url) != ""
    ensures r != [] ==> r == [WikiFragment(url, env.wikiText(url))]
  {
    if Classify(url) == Wiki && env.wikiText(url) != "" then [WikiFragment(url, env.wikiText(url))] else []
  }

  /**
   * Lines 272-320: the fragments the gathered `items` give, with the LLM
   * calls numbered from `firstCall`, and the number of LLM calls made. No
   * items means no call and no fragment (line 272); a formatted text that
   * does not parse gives no fragment (lines 279-281).
   */
  function PdfPart(items: seq<LinkItem>, firstCall: nat, env: Env): (r: (seq<Fragment>, nat))
    ensures r.1 <= MaxRetries
    ensures r.1 == 0 <==> items == []
    ensures items == [] ==> r.0 == []
  {
    if items == [] then ([], 0)
    else
      var formatted := Formatted(LinkUrls(items), env.llm, env.parse, firstCall);
      var parsed := env.parse(formatted.0);
      (if parsed.None? then [] else PdfFragments(ListItems(parsed.value), env.fetchPdf), formatted.1)
  }

  /** The objects of the fallback text for `links`, as `json.loads` reads them. */
  function UrlItems(links: seq<string>): (r: seq<Json>)
    ensures |r| == |links|
    ensures forall i :: 0 <= i < |links| ==> r[i] == UrlItem(links[i])
  {
    if links == [] then [] else [UrlItem(links[0])] + UrlItems(links[1..])
  }

  /**
   * `parse` reads text of the fallback's shape as `json.loads` does: a list
   * of {"url": u} objects, one per url read back by `ReadFallback`.
   */
  ghost predicate ReadsFallback(parse: string -> Option<Json>) {
    forall s :: ReadFallback(s).Some? ==> parse(s) == Some(JArray(UrlItems(ReadFallback(s).value)))
  }

  /** A `json.loads` that reads the fallback's shape parses the fallback text for `links` to their objects. */
  lemma ParsesFallback(links: seq<string>, parse: string -> Option<Json>)
    requires ReadsFallback(parse)
    ensures parse(FallbackJson(links)) == Some(JArray(UrlItems(links)))
  {
    FallbackRoundTrip(links);
  }

  /**
   * Lines 272-320 when all three LLM attempts fail (line 173): if every
   * link ends in ".pdf" and downloads, every link gives a fragment, in
   * order, after three LLM calls.
   */
  lemma FallbackSourcesEveryLink(items: seq<LinkItem>, firstCall: nat, env: Env)
    requires items != []
    requires forall k: nat :: k < MaxRetries ==> AttemptResult(env.llm, env.parse, firstCall, k).None?
    requires ReadsFallback(env.parse)
    requires forall it :: it in items ==> EndsWith(LinkUrl(it), ".pdf") && env.fetchPdf(LinkUrl(it)).Some?
    ensures var r := PdfPart(items, firstCall, env);
      && r.1 == MaxRetries && |r.0| == |items|
      && forall i :: 0 <= i < |items| ==> r.0[i].pdfUrl == LinkUrl(items[i])
  {
    var links := LinkUrls(items);
    FormattedCases(links, env.llm, env.parse, firstCall);
    assert AttemptResult(env.llm, env.parse, firstCall, 0).None?;
    assert AttemptResult(env.llm, env.parse, firstCall, 1).None?;
    assert AttemptResult(env.llm, env.parse, firstCall, 2).None?;
    assert Formatted(links, env.llm, env.parse, firstCall) == (FallbackJson(links), MaxRetries);
    forall i | 0 <= i < |links|
      ensures EndsWith(links[i], ".pdf") && env.fetchPdf(links[i]).Some?
    {
      assert items[i] in items;
    }
    ParsesFallback(links, env.parse);
    UrlItemsAllFetched(links, UrlItems(links), env.fetchPdf);
  }

  /**
   * Lines 223-270: the links gathered for one validated source URL. Empty
   * means the source yields no PDF (the loop moves on at line 272 or skips
   * the CK-12 source at lines 267 and 270). Every link passed the
   * `is_valid_pdf` check, and there are never more than ten.
   */
  method GatherLinks(url: string, subject: string, answer: string, env: Env) returns (items: seq<LinkItem>)
    ensures forall it :: it in items ==> env.isValidPdf(LinkUrl(it))
    ensures |items| <= MaxLinks
    ensures Classify(url) == DirectPdf ==> items == (if env.isValidPdf(url) then [UrlDict(url)] else [])
    ensures Gathered(url, subject, answer, env, items)
  {
    var kind := Classify(url);
    if kind == DirectPdf {
      items := if env.isValidPdf(url) then [UrlDict(url)] else [];
      return;
    }
    var found := ScrapePdfLinks(url, subject, env.page, env.join, env.isValidPdf);
    ScrapedLinks(found, url, subject, env.page, env.join, env.isValidPdf);
    items := Plains(found);
    if found == [] && kind == Page && Contains(url, "ck12.org") {
      items := ManualItems(answer, env.isValidPdf);
    }
  }

  /** Lines 223-246: the Wikipedia fragment and its audit entry, when the page gave text. */
  method AddWikiFragment(url: string, curriculumId: int, subject: string, env: Env,
                         fragments0: seq<Fragment>, audit0: seq<AuditEntry>)
    returns (fragments: seq<Fragment>, audit: seq<AuditEntry>)
    requires Journal(fragments0, audit0, curriculumId, subject, env.fetchPdf)
    ensures Journal(fragments, audit, curriculumId, subject, env.fetchPdf)
    ensures fragments == fragments0 + (if env.wikiText(url) != "" then [WikiFragment(url, env.wikiText(url))] else [])
  {
    fragments, audit := fragments0, audit0;
    var text := env.wikiText(url);
    if text != "" {
      var entry := AuditEntry(|fragments| + 1, "wiki_sourced", curriculumId, subject, url, None);
      var fragment := WikiFragment(url, text);
      JournalAppend(fragments, audit, fragment, entry, curriculumId, subject, env.fetchPdf);
      audit := audit + [entry];
      fragments := fragments + [fragment];
    }
  }

  lemma SoundAppend(fragments: seq<Fragment>, f: Fragment, validated: seq<string>, env: Env)
    requires forall g :: g in fragments ==> Sound(g, validated, env)
    requires Sound(f, validated, env)
    ensures forall g :: g in fragments + [f] ==> Sound(g, validated, env)
  {
  }

  /** Lines 223-246 for a validated source URL classified as Wikipedia. */
  method SourceWiki(url: string, ghost validated: seq<string>, curriculumId: int, subject: string, env: Env,
                    fragments0: seq<Fragment>, audit0: seq<AuditEntry>)
    returns (fragments: seq<Fragment>, audit: seq<AuditEntry>)
    requires url in validated && Contains(url, WikiMarker)
    requires Journal(fragments0, audit0, curriculumId, subject, env.fetchPdf)
    requires forall f :: f in fragments0 ==> Sound(f, validated, env)
    ensures Journal(fragments, audit, curriculumId, subject, env.fetchPdf)
    ensures forall f :: f in fragments ==> Sound(f, validated, env)
    ensures fragments == fragments0 + WikiPart(url, env)
  {
    var text := env.wikiText(url);
    fragments, audit := AddWikiFragment(url, curriculumId, subject, env, fragments0, audit0);
    if text != "" {
      var fragment := WikiFragment(url, text);
      assert fragments == fragments0 + [fragment];
      SoundAppend(fragments0, fragment, validated, env);
    } else {
      assert fragments == fragments0;
    }
  }

  /**
   * Lines 247-320 for a validated source URL: gather its PDF links, have
   * them formatted (LLM calls numbered from `calls0`), parse the result and
   * download every acceptable item.
   */
  method SourcePdfs(url: string, answer: string, ghost validated: seq<string>, curriculumId: int, subject: string,
                    env: Env, calls0: nat, fragments0: seq<Fragment>, audit0: seq<AuditEntry>)
    returns (fragments: seq<Fragment>, audit: seq<AuditEntry>, calls: nat, ghost items: seq<LinkItem>)
    requires Journal(fragments0, audit0, curriculumId, subject, env.fetchPdf)
    requires forall f :: f in fragments0 ==> Sound(f, validated, env)
    ensures Journal(fragments, audit, curriculumId, subject, env.fetchPdf)
    ensures forall f :: f in fragments ==> Sound(f, validated, env)
    ensures Gathered(url, subject, answer, env, items)
    ensures fragments == fragments0 + PdfPart(items, calls0, env).0
    ensures calls == calls0 + PdfPart(items, calls0, env).1
  {
    fragments, audit, calls := fragments0, audit0, calls0;
    var gathered := GatherLinks(url, subject, answer, env);
    items := gathered;
    if gathered == [] {
      assert PdfPart(items, calls0, env).0 == [];
      AppendEmpty(fragments0);
      return;
    }
    var text, attempts := FormatPdfLinks(LinkUrls(gathered), env.llm, env.parse, calls);
    calls := calls + attempts;
    var parsed := env.parse(text);
    if parsed.None? {
      assert PdfPart(items, calls0, env) == ([], attempts);
      AppendEmpty(fragments0);
      return;
    }
    ghost var found := PdfFragments(ListItems(parsed.value), env.fetchPdf);
    assert PdfPart(items, calls0, env) == (found, attempts);
    fragments, audit := AddPdfFragments(ListItems(parsed.value), curriculumId, subject, env.fetchPdf, fragments, audit);
    assert forall f :: f in fragments ==> f in fragments0 || f in found;
  }

  lemma AppendEmpty(a: seq<Fragment>)
    ensures a + [] == a
  {
  }

  /**
   * Lines 223-320, one pass of the loop for a URL `validate_url` accepted;
   * `answer` is what the operator types if the CK-12 prompt comes up.
   * Fragments and audit entries are only appended, and `calls` counts the
   * LLM calls made so far.
   */
  method SourceOne(url: string, answer: string, ghost validated: seq<string>, curriculumId: int, subject: string,
                   env: Env, calls0: nat, fragments0: seq<Fragment>, audit0: seq<AuditEntry>)
    returns (fragments: seq<Fragment>, audit: seq<AuditEntry>, calls: nat, ghost items: seq<LinkItem>)
    requires url in validated
    requires Journal(fragments0, audit0, curriculumId, subject, env.fetchPdf)
    requires forall f :: f in fragments0 ==> Sound(f, validated, env)
    ensures Journal(fragments, audit, curriculumId, subject, env.fetchPdf)
    ensures forall f :: f in fragments ==> Sound(f, validated, env)
    ensures Gathered(url, subject, answer, env, items)
    ensures fragments == fragments0 + WikiPart(url, env) + PdfPart(items, calls0, env).0
    ensures calls == calls0 + PdfPart(items, calls0, env).1
  {
    fragments, audit := fragments0, audit0;
    if Classify(url) == Wiki {
      fragments, audit := SourceWiki(url, validated, curriculumId, subject, env, fragments, audit);
    }
    assert fragments == fragments0 + WikiPart(url, env);
    fragments, audit, calls, items := SourcePdfs(url, answer, validated, curriculumId, subject, env, calls0, fragments, audit);
  }

  /** The fragments of the sources, one list per source, in source order. */
  function Concat(parts: seq<seq<Fragment>>): seq<Fragment> {
    if parts == [] then [] else Concat(parts[..|parts| - 1]) + parts[|parts| - 1]
  }

  lemma ConcatAppend(parts: seq<seq<Fragment>>, part: seq<Fragment>)
    ensures Concat(parts + [part]) == Concat(parts) + part
  {
    assert (parts + [part])[..|parts|] == parts;
  }

  /**
   * One pass of the loop of lines 217-320 for the source whose validated URL
   * is `url`: a URL `validate_url` rejected is skipped (lines 218-221);
   * otherwise `items` were gathered for it, `part` holds its Wikipedia
   * fragment and then its PDF fragments, and the LLM calls numbered from
   * `firstCall` up to `nextCall` were made for it.
   */
  predicate Pass(url: string, subject: string, answer: string, env: Env, items: seq<LinkItem>,
                 firstCall: nat, part: seq<Fragment>, nextCall: nat)
  {
    if url == "" then part == [] && nextCall == firstCall
    else
      && Gathered(url, subject, answer, env, items)
      && part == WikiPart(url, env) + PdfPart(items, firstCall, env).0
      && nextCall == firstCall + PdfPart(items, firstCall, env).1
  }

  /**
   * Lines 218-320, one pass of the loop for the validated URL `url`: skipped
   * when `validate_url` rejected the source, otherwise sourced as `SourceOne`
   * describes; `part` is what the pass appends.
   */
  method SourceStep(url: string, answer: string, ghost validated: seq<string>, curriculumId: int, subject: string,
                    env: Env, calls0: nat, fragments0: seq<Fragment>, audit0: seq<AuditEntry>)
    returns (fragments: seq<Fragment>, audit: seq<AuditEntry>, calls: nat,
             ghost items: seq<LinkItem>, ghost part: seq<Fragment>)
    requires url == "" || url in validated
    requires Journal(fragments0, audit0, curriculumId, subject, env.fetchPdf)
    requires forall f :: f in fragments0 ==> Sound(f, validated, env)
    ensures Journal(fragments, audit, curriculumId, subject, env.fetchPdf)
    ensures forall f :: f in fragments ==> Sound(f, validated, env)
    ensures Pass(url, subject, answer, env, items, calls0, part, calls)
    ensures fragments == fragments0 + part
  {
    if url == "" {
      fragments, audit, calls, items, part := fragments0, audit0, calls0, [], [];
      assert fragments0 + [] == fragments0;
      return;
    }
    fragments, audit, calls, items := SourceOne(url, answer, validated, curriculumId, subject, env, calls0, fragments0, audit0);
    var wiki, pdfs := WikiPart(url, env), PdfPart(items, calls0, env).0;
    part := wiki + pdfs;
    AppendAssoc(fragments0, wiki, pdfs);
  }

  lemma AppendAssoc(a: seq<Fragment>, b: seq<Fragment>, c: seq<Fragment>)
    ensures a + b + c == a + (b + c)
  {
  }

  /** The first `n` passes of the loop went as `Pass` describes. */
  predicate Passes(validated: seq<string>, subject: string, env: Env, gathered: seq<seq<LinkItem>>,
                   firstCalls: seq<nat>, parts: seq<seq<Fragment>>, n: nat)
    requires n <= |validated| && n <= |gathered| && n <= |parts| && n < |firstCalls|
  {
    forall j :: 0 <= j < n ==>
      Pass(validated[j], subject, env.operator(j), env, gathered[j], firstCalls[j], parts[j], firstCalls[j + 1])
  }

  lemma PassesAppend(validated: seq<string>, subject: string, env: Env, gathered: seq<seq<LinkItem>>,
                     firstCalls: seq<nat>, parts: seq<seq<Fragment>>, k: nat,
                     items: seq<LinkItem>, part: seq<Fragment>, next: nat)
    requires k < |validated| && |gathered| == |parts| == k && |firstCalls| == k + 1
    requires Passes(validated, subject, env, gathered, firstCalls, parts, k)
    requires Pass(validated[k], subject, env.operator(k), env, items, firstCalls[k], part, next)
    ensures Passes(validated, subject, env, gathered + [items], firstCalls + [next], parts + [part], k + 1)
  {
    var g, c, p := gathered + [items], firstCalls + [next], parts + [part];
    forall j | 0 <= j < k + 1
      ensures Pass(validated[j], subject, env.operator(j), env, g[j], c[j], p[j], c[j + 1])
    {
      if j < k {
        assert g[j] == gathered[j] && c[j] == firstCalls[j] && p[j] == parts[j] && c[j + 1] == firstCalls[j + 1];
      }
    }
  }

  /**
   * `source_pdf_content`. The fragments are those of the sources in source
   * order (`parts[k]` for source k, with the links `gathered[k]` and its LLM
   * calls numbered from `firstCalls[k]`). The audit entries are numbered
   * 1..n in the order of the n fragments returned, each written for its
   * fragment; every Wikipedia fragment holds the non-empty text scraped
   * from a validated source URL; every PDF fragment has a non-empty URL
   * ending in ".pdf" and the text and path its download gave.
   */
  method SourcePdfContent(curriculumId: int, subject: string, sourceUrls: seq<string>, env: Env)
    returns (fragments: seq<Fragment>, audit: seq<AuditEntry>,
             ghost parts: seq<seq<Fragment>>, ghost gathered: seq<seq<LinkItem>>, ghost firstCalls: seq<nat>)
    ensures Journal(fragments, audit, curriculumId, subject, env.fetchPdf)
    ensures forall f :: f in fragments ==> Sound(f, Validated(sourceUrls), env)
    ensures |parts| == |gathered| == |sourceUrls| && |firstCalls| == |sourceUrls| + 1 && firstCalls[0] == 0
    ensures fragments == Concat(parts)
    ensures forall k :: 0 <= k < |sourceUrls| ==>
      Pass(Validated(sourceUrls)[k], subject, env.operator(k), env, gathered[k], firstCalls[k], parts[k], firstCalls[k + 1])
  {
    fragments, audit := [], [];
    parts, gathered, firstCalls := [], [], [0];
    var calls: nat := 0;
    ghost var validated := Validated(sourceUrls);
    for k := 0 to |sourceUrls|
      invariant Journal(fragments, audit, curriculumId, subject, env.fetchPdf)
      invariant forall f :: f in fragments ==> Sound(f, validated, env)
      invariant |parts| == |gathered| == k && |firstCalls| == k + 1 && firstCalls[0] == 0 && firstCalls[k] == calls
      invariant fragments == Concat(parts)
      invariant Passes(validated, subject, env, gathered, firstCalls, parts, k)
    {
      var url := ValidateUrl(sourceUrls[k]);
      assert validated[k] == url;
      ghost var items, part;
      fragments, audit, calls, items, part :=
        SourceStep(url, env.operator(k), validated, curriculumId, subject, env, calls, fragments, audit);
      ConcatAppend(parts, part);
      PassesAppend(validated, subject, env, gathered, firstCalls, parts, k, items, part, calls);
      parts, gathered, firstCalls := parts + [part], gathered + [items], firstCalls + [calls];
    }
  }
}
