# Content sourcing agent: a verified model of its sequential core

The content sourcing agent gathers teaching material for a curriculum. It is
given a list of source URLs, normalises each one, classifies it as a Wikipedia
article, a direct PDF or a page to scrape for PDF links, and has an LLM
format the links it finds as JSON, falling back to a fixed serialisation when
the LLM fails. It then downloads every acceptable PDF and writes a numbered
audit entry for each fragment it collects. Two dashboards sit around it. The
first turns a comma-separated text box into the source list. The second
checks an uploaded assessment CSV before the feedback agent runs.

This project models those pieces in Dafny and proves what they promise:

- `PyStr`: the Python string operations the code relies on. It covers
  `str.isspace`, `strip`, `split` on one character, `join`, `find`, `lower`,
  `endswith`, `in` and decimal formatting.
- `UrlValidation`: `validate_url`, together with the part of `urlparse` it
  depends on. That part is whether a scheme is found and when the parse
  raises `ValueError`.
- `PdfLinks`: the link selection of `scrape_pdf_links`.
- `JsonText`: the fallback JSON text that `json.dumps` writes, and a reader
  that recovers the links from it.
- `LinkFormatting`: the bounded retry loop of `format_pdf_links`.
- `Sourcing`: the loop of `source_pdf_content`, with its fragments and audit
  entries.
- `CsvValidation`: `validate_csv_format`.
- `SourceList`: the dashboard's source-list parsing.

Network access, the LLM, the operator's console answer, PDF downloads and
text extraction are parameters of the model (see `Sourcing.Env`). Each of
them is a function: it gives the same answer whenever it is asked about the
same URL. The LLM's reply depends on the call's number within the run, and
the operator's console answer on the position of the source in the list
(`operator(k)` for source k). The model states what the
code does for every choice of those functions; what this leaves out is listed
under "Left out".

## Model

| member | source | states |
|---|---|---|
| PyStr.SkipSpace | content_sourcing_updated.py:70 | from a position, the first position at or after it that is not whitespace, every character skipped being whitespace |
| PyStr.TrimEnd | content_sourcing_updated.py:70 | the end of a range once the whitespace at its end is dropped, every character dropped being whitespace |
| PyStr.Strip | content_sourcing_updated.py:70 | the result has no whitespace at either end and is no longer than the input |
| PyStr.StripInfix | content_sourcing_updated.py:70 | the result is the stretch of the input left once the leading and the trailing whitespace are removed, and only whitespace is removed |
| PyStr.StripChars | streamlit_ui.py:27 | a stripped string holds only characters of the input |
| PyStr.StripTrimmed | streamlit_ui.py:27 | a string with no whitespace at either end strips to itself |
| PyStr.StripEmpty | streamlit_ui.py:27 | a string strips to "" exactly when it is whitespace only |
| PyStr.Split | streamlit_ui.py:27 | splitting on a character gives one piece more than there are separators, no piece holds the separator, and joining the pieces with it gives the input back |
| PyStr.SplitJoin | streamlit_ui.py:26-27 | splitting the join of one or more separator-free pieces gives those pieces back |
| PyStr.NatToString | Streamlit_Feedback_agent_ui.py:60 | a count is written as one or more decimal digits, with no leading zero unless the count is 0 |
| PyStr.DecimalRoundTrip | Streamlit_Feedback_agent_ui.py:60 | the digits written for a count read back as that count |
| PyStr.LowerTwice | content_sourcing_updated.py:125 | lower-casing an already lower-cased string changes nothing |
| PyStr.ContainsInSuffix | content_sourcing_updated.py:133 | `sub in s` holds whenever `sub` occurs in some suffix of `s` |
| PyStr.Lower | content_sourcing_updated.py:125 | `str.lower` on ASCII letters: the result has the input's length, each upper-case ASCII letter replaced by its lower-case form |
| UrlValidation.SplitScheme | content_sourcing_updated.py:74-75 | a scheme is found exactly when the text before the first ':' is non-empty, starts with an ASCII letter and holds only letters, digits, '+', '-' and '.'; with no scheme the text is left whole |
| UrlValidation.Prepared | content_sourcing_updated.py:74 | the text `urlsplit` scans holds no tab, carriage return or line feed, and only characters of the URL |
| UrlValidation.NetlocEnd | content_sourcing_updated.py:74 | the network location runs up to the first '/', '?' or '#', or to the end of the text, and holds none of them |
| UrlValidation.Netloc | content_sourcing_updated.py:74 | `urlsplit` finds a network location exactly when the text after the scheme starts with "//"; it then holds no '/', '?' or '#' |
| UrlValidation.HasScheme | content_sourcing_updated.py:74-76 | a URL in which `urlsplit` finds a scheme contains ':' |
| UrlValidation.SplitFails | content_sourcing_updated.py:73-80 | the modelled `urlparse` failure, an unbalanced bracket in the network location, occurs only on a URL that contains '[' or ']' |
| UrlValidation.Clean | content_sourcing_updated.py:70-72 | the input is stripped, then exactly one trailing ')' is removed if present; an input ending in "))" keeps one ')' |
| UrlValidation.PreparedHttps | content_sourcing_updated.py:76 | the text `urlsplit` scans for a URL behind "https://" still starts with "https://" |
| UrlValidation.HttpsHasScheme | content_sourcing_updated.py:76 | every URL built by prepending "https://" has a scheme |
| UrlValidation.ValidateUrl | content_sourcing_updated.py:68-80 | the result is "" exactly when the modelled `urlparse` failure (an unbalanced bracket in the network location) occurs on the cleaned text; otherwise it has a scheme (as `urlsplit` reads it before its network-location check), and it is the cleaned text when that had a scheme and "https://" plus the cleaned text when it had none; a blank input gives "https://" |
| UrlValidation.BracketAccepted | content_sourcing_updated.py:68-80 | "a]b" has no scheme and no network location, so it is returned as "https://a]b" |
| UrlValidation.BracketRejected | content_sourcing_updated.py:68-80 | "https://a]b" has an unbalanced ']' in its network location, so it is rejected with "" |
| UrlValidation.RevalidationRejects | content_sourcing_updated.py:68-80 | `validate_url` is not idempotent: validating its own result for "a]b" again gives "" |
| PdfLinks.PdfHrefs | content_sourcing_updated.py:119 | exactly the hrefs ending in ".pdf" (case-sensitive) are kept, in page order, each as often as on the page |
| PdfLinks.OnSubject | content_sourcing_updated.py:125 | a link is on the subject when its ASCII-lower-cased text contains the lower-cased subject or "math"; with an empty subject every link is |
| PdfLinks.OnSubjectCaseBlind | content_sourcing_updated.py:125 | whether a link is on the subject does not depend on the case of its letters |
| PdfLinks.SubjectLinks | content_sourcing_updated.py:125 | exactly the links on the subject are kept, in order, each as often as in the input |
| PdfLinks.Candidates | content_sourcing_updated.py:119-127 | candidates are ".pdf" hrefs of the page; when some of them are on the subject the candidates are exactly those, otherwise they are all the ".pdf" hrefs |
| PdfLinks.Keep | content_sourcing_updated.py:133 | an absolute link is kept when `is_valid_pdf` accepts it and it does not contain "web.archive.org" |
| PdfLinks.ArchiveCopyDropped | content_sourcing_updated.py:133 | a link holding "web.archive.org" at any position is dropped, whatever `is_valid_pdf` answers |
| PdfLinks.Absolutes | content_sourcing_updated.py:131-134 | a joined link is kept exactly when it passes `is_valid_pdf` and does not contain "web.archive.org"; every kept link is the join of the base with a candidate |
| PdfLinks.ValidLinks | content_sourcing_updated.py:104-134 | the links `valid_links` collects for a source: none when `validate_url` rejects the URL or its page cannot be fetched, otherwise the kept joins of the validated URL with the candidate hrefs |
| PdfLinks.ValidLinksOrigin | content_sourcing_updated.py:104-136 | every valid link comes from a URL that `validate_url` accepts and whose page was fetched, passes the checks of line 133, and is the join of that URL with a ".pdf" href of the page |
| PdfLinks.RevalidatedSourceYieldsNothing | content_sourcing_updated.py:107-109 | because `scrape_pdf_links` validates its URL again, the source "a]b", which line 218 accepts as "https://a]b", yields no link |
| PdfLinks.TakeDistinct | content_sourcing_updated.py:141 | the result has no duplicates, holds only input elements, and its length is the number of distinct inputs capped at the limit (10 at line 141); it holds all of them when there are no more than the limit |
| PdfLinks.CollectValid | content_sourcing_updated.py:130-134 | the loop builds exactly the kept joined links, in candidate order |
| PdfLinks.ScrapePdfLinks | content_sourcing_updated.py:104-144 | the returned links are distinct valid links; there are as many as there are distinct valid links, capped at 10, and all of them when there are at most 10 (`Scraped`) |
| PdfLinks.Scraped | content_sourcing_updated.py:136-141 | what `list(set(valid_links))[:10]` may be: distinct valid links, as many as there are distinct valid links up to 10, all of them when there are at most 10 |
| PdfLinks.ScrapedNone | content_sourcing_updated.py:136-141 | a scrape returns no link exactly when the page gives no valid link |
| PdfLinks.ScrapedLinks | content_sourcing_updated.py:130-141 | every scraped link passed `is_valid_pdf`, there are at most 10, and none exactly when there is no valid link |
| JsonText.HexDigitRoundTrip | content_sourcing_updated.py:173 | each hexadecimal digit written reads back as its value |
| JsonText.EscapeChar | content_sourcing_updated.py:173 | a character is written as itself exactly when it is printable ASCII other than '"' and '\\'; every other character is written as an escape starting with '\\'; the written text is printable ASCII only |
| JsonText.UrlObjects | content_sourcing_updated.py:173 | the objects for the links are empty exactly when there are no links, and otherwise start with '{' |
| JsonText.FallbackJson | content_sourcing_updated.py:173 | the fallback text is a bracketed list, and it is "[]" exactly when there are no links |
| JsonText.UnitRoundTrip | content_sourcing_updated.py:173 | a `\uXXXX` escape reads back as the UTF-16 code unit it encodes |
| JsonText.ReadUnitChar | content_sourcing_updated.py:173 | a character of the Basic Multilingual Plane written as one `\uXXXX` escape reads back as that character |
| JsonText.ReadPairChar | content_sourcing_updated.py:173 | a character above U+FFFF written as a surrogate pair of escapes reads back as that character |
| JsonText.ReadShortEscape | content_sourcing_updated.py:173 | a two-character escape such as `\n` or `\"` reads back as the character it stands for |
| JsonText.ReadEscapedChar | content_sourcing_updated.py:173 | the escape `json.dumps` writes for any character, including surrogate pairs above U+FFFF, reads back as that character |
| JsonText.ReadQuotedBody | content_sourcing_updated.py:173 | an escaped string followed by its closing quote reads back as the original string, leaving the rest of the text |
| JsonText.ReadNextObject | content_sourcing_updated.py:173 | when the objects after the first read back as their links, the whole list of objects reads back as all the links |
| JsonText.ReadObjectsRoundTrip | content_sourcing_updated.py:173 | the objects `{"url": u}` written for a non-empty list of links read back as that list |
| JsonText.FallbackRoundTrip | content_sourcing_updated.py:173 | the fallback text for any list of links, the empty list included, reads back as exactly those links in their order |
| LinkFormatting.Accepted | content_sourcing_updated.py:161-167 | an attempt succeeds exactly when the LLM replied and its stripped content parses as JSON, and then that stripped content is returned |
| LinkFormatting.AttemptResult | content_sourcing_updated.py:153-168 | what attempt k of a run returns: the accepted reply to the LLM call numbered from the run's first call plus k, or nothing |
| LinkFormatting.FormattedFrom | content_sourcing_updated.py:149-173 | from attempt k on, the run ends after more attempts, at most 3 in all, or at once when 3 were made; the result is the fallback or text that parses |
| LinkFormatting.Formatted | content_sourcing_updated.py:146-173 | between 1 and 3 LLM calls are made, and the result is the fallback or text that parses |
| LinkFormatting.FormattedCases | content_sourcing_updated.py:149-173 | the first accepted attempt decides the result and the call count (1, 2 or 3); with none accepted the fallback is returned after 3 calls |
| LinkFormatting.FormattedAttempts | content_sourcing_updated.py:149-173 | every attempt before the last failed; a successful last attempt's text is returned; otherwise all three failed and the fallback for the links is returned |
| LinkFormatting.FormatPdfLinks | content_sourcing_updated.py:146-173 | the loop returns exactly the text and the number of calls of `Formatted` |
| Sourcing.Classify | content_sourcing_updated.py:223-256 | a URL containing "wikipedia.org/wiki" is a Wikipedia page even when it ends in ".pdf"; any other URL ending in ".pdf" is a direct PDF; everything else is a page |
| Sourcing.LinkUrls | content_sourcing_updated.py:276 | one URL per link item, in order, whether the item is a dict or a plain string |
| Sourcing.Plains | content_sourcing_updated.py:276 | plain-string links pass through line 276 unchanged |
| Sourcing.ListItems | content_sourcing_updated.py:283-284 | a parsed value that is not a list is treated as the one-element list of that value |
| Sourcing.ItemUrl | content_sourcing_updated.py:287-288 | an item is accepted exactly when it is a string, or a dict whose "url" is a string, ending in ".pdf"; the accepted URL is never empty |
| Sourcing.Logs | content_sourcing_updated.py:228-320 | an audit entry is the one written for a fragment: it carries the fragment's number, the curriculum and subject, "wiki_sourced" with the wiki URL and no file, or "pdf_sourced" with the PDF URL and the file name that the download of that URL gave |
| Sourcing.Journal | content_sourcing_updated.py:228-320 | one audit entry per fragment, the k-th written for the k-th fragment with id k |
| Sourcing.JournalIdsIncrease | content_sourcing_updated.py:228-320 | the audit ids of a journal increase strictly, so no two entries share one |
| Sourcing.Validated | content_sourcing_updated.py:218 | the source URLs as `validate_url` returns them, one per source, in order, "" for a rejected one |
| Sourcing.Sound | content_sourcing_updated.py:223-320 | a Wikipedia fragment holds the non-empty text scraped from a validated source URL containing "wikipedia.org/wiki"; a PDF fragment has a non-empty ".pdf" URL and the text and path that the download of that URL gave |
| Sourcing.UrlItem | content_sourcing_updated.py:287-288 | a `{"url": u}` object from the fallback text is accepted exactly when u ends in ".pdf" |
| Sourcing.PdfFragments | content_sourcing_updated.py:286-320 | each collected fragment has a non-empty ".pdf" URL, and the text and local path its download gave; there are no more fragments than items |
| Sourcing.UrlItemsAllFetched | content_sourcing_updated.py:283-320 | when every fallback link ends in ".pdf" and downloads, every link gives a fragment, in link order |
| Sourcing.JournalAppend | content_sourcing_updated.py:300-320 | writing the entry numbered `len(scraped_data) + 1` just before appending the fragment keeps the audit ids 1..n in step with the fragments |
| Sourcing.AddPdfFragments | content_sourcing_updated.py:286-320 | the inner loop appends exactly the fragments of the acceptable, downloadable items, each with its audit entry |
| Sourcing.ManualLinks | content_sourcing_updated.py:259-270 | the operator's answer yields a link exactly when it strips to a non-empty ".pdf" URL whose `validate_url` form passes `is_valid_pdf`, and then the one link is that validated URL |
| Sourcing.ManualItems | content_sourcing_updated.py:259-270 | the link items the operator's answer gives: the one validated URL when `ManualLinks` accepts it, none when the source is skipped |
| Sourcing.GatherLinks | content_sourcing_updated.py:223-270 | a direct PDF yields itself exactly when it is valid; a CK-12 page without valid links yields what the operator's answer gives; any other URL yields the scraped links as plain strings; every gathered link passed `is_valid_pdf` and at most 10 are gathered |
| Sourcing.Gathered | content_sourcing_updated.py:247-270 | the links one source can give: a direct PDF gives itself when valid, a CK-12 page without valid links gives what the operator's answer yields, and any other URL, a Wikipedia page included, gives what `scrape_pdf_links` may return |
| Sourcing.WikiPart | content_sourcing_updated.py:223-246 | a source gives a Wikipedia fragment exactly when its URL contains "wikipedia.org/wiki" and the scraped text is non-empty, and then that one fragment with that URL and text |
| Sourcing.PdfPart | content_sourcing_updated.py:272-320 | no gathered link means no LLM call and no fragment; otherwise 1 to 3 calls are made |
| Sourcing.UrlItems | content_sourcing_updated.py:276-278 | one `{"url": u}` object per link, in link order |
| Sourcing.ReadsFallback | content_sourcing_updated.py:173-278 | `json.loads` reads text of the fallback's shape as the list of `{"url": u}` objects for the urls `ReadFallback` recovers from it |
| Sourcing.ParsesFallback | content_sourcing_updated.py:173-278 | such a `json.loads` parses the fallback text `json.dumps` wrote for the links to exactly their objects, in order (by the proved round trip of the fallback text) |
| Sourcing.FallbackSourcesEveryLink | content_sourcing_updated.py:272-320 | when all three LLM attempts fail, `json.loads` reads the fallback's shape, and every link ends in ".pdf" and downloads, every link gives a fragment, in link order, after 3 calls |
| Sourcing.AddWikiFragment | content_sourcing_updated.py:225-246 | a Wikipedia fragment and its audit entry are added exactly when the scraped text is non-empty |
| Sourcing.SourceWiki | content_sourcing_updated.py:223-246 | the Wikipedia step appends exactly the source's Wikipedia fragment, if any, and keeps audit numbering and fragment soundness |
| Sourcing.SourcePdfs | content_sourcing_updated.py:247-320 | the PDF step gathers links as `GatherLinks` does, appends exactly the fragments of those links, counts the LLM calls made for them, and keeps audit numbering and fragment soundness |
| Sourcing.SourceOne | content_sourcing_updated.py:223-320 | one pass for an accepted URL appends its Wikipedia fragment and then its PDF fragments, and counts its LLM calls |
| Sourcing.Pass | content_sourcing_updated.py:217-320 | one pass of the loop: a rejected URL appends nothing and makes no call; an accepted one appends its Wikipedia fragment, then the fragments of the links it gathered, and makes that many LLM calls |
| Sourcing.SourceStep | content_sourcing_updated.py:217-320 | a source `validate_url` rejected is skipped with nothing appended and no call made; any other is sourced as `SourceOne` says |
| Sourcing.PassesAppend | content_sourcing_updated.py:217-320 | a further pass that went as described extends the record of the passes so far |
| Sourcing.SourcePdfContent | content_sourcing_updated.py:211-327 | the fragments are those of the sources in source order, each source skipped when `validate_url` rejected it and otherwise sourced as `SourceOne` says, with the LLM calls numbered on across sources; the audit ids are 1..n for the n fragments, each entry written for its fragment; every Wikipedia fragment has non-empty text scraped from a validated source URL; every PDF fragment has a non-empty ".pdf" URL and the text and path of its download |
| CsvValidation.MissingFrom | Streamlit_Feedback_agent_ui.py:50 | exactly the wanted labels absent from the columns, in the wanted order |
| CsvValidation.MissingColumns | Streamlit_Feedback_agent_ui.py:43-52 | exactly the required columns absent from the frame, in the fixed order student_id, teacher_id, objective, question, answer; none exactly when all are present |
| CsvValidation.IsEmpty | Streamlit_Feedback_agent_ui.py:46 | `df.empty`: the frame has no rows or no columns |
| CsvValidation.AllMissing | Streamlit_Feedback_agent_ui.py:55 | the row `dropna(how='all')` drops: every cell of the frame's columns is missing |
| CsvValidation.Incomplete | Streamlit_Feedback_agent_ui.py:58 | the row `isnull().any(axis=1)` flags among the required columns: some required column's cell is missing |
| CsvValidation.CountKept | Streamlit_Feedback_agent_ui.py:55 | the rows kept by `dropna(how='all')` are no more than the rows |
| CsvValidation.CountIncomplete | Streamlit_Feedback_agent_ui.py:58 | rows counted as lacking a required value are among the kept rows |
| CsvValidation.CountIncompleteZero | Streamlit_Feedback_agent_ui.py:58-59 | the count is zero exactly when no kept row lacks a required value |
| CsvValidation.ExtraColumns | Streamlit_Feedback_agent_ui.py:63 | exactly the columns that are neither required nor start with "Unnamed", in column order, each as often as among the columns |
| CsvValidation.MissingMessage | Streamlit_Feedback_agent_ui.py:52 | the message naming the missing columns, joined by ", " |
| CsvValidation.IncompleteMessage | Streamlit_Feedback_agent_ui.py:60 | the message giving the number of kept rows that lack a required value |
| CsvValidation.ValidMessage | Streamlit_Feedback_agent_ui.py:67 | the message giving the number of kept rows |
| CsvValidation.ValidateCsvFormat | Streamlit_Feedback_agent_ui.py:41-67 | an empty frame fails first with "CSV file is empty"; then missing columns fail with their joined list; the verdict is True exactly when the frame is non-empty, has all required columns and no kept row lacks a required value; a value failure reports the exact positive count; success reports the number of kept rows |
| CsvValidation.BlankRow | Streamlit_Feedback_agent_ui.py:55 | a row of missing cells counts as all-missing for any columns |
| CsvValidation.CountsAppend | Streamlit_Feedback_agent_ui.py:55-58 | the kept and incomplete counts of two blocks of rows add up |
| CsvValidation.BlankCounts | Streamlit_Feedback_agent_ui.py:55-58 | a row with every value missing is neither kept nor counted as lacking a value |
| CsvValidation.SameCountsSameVerdict | Streamlit_Feedback_agent_ui.py:45-67 | two frames alike in emptiness, missing columns and both row counts get the same verdict and message |
| CsvValidation.BlankRowIgnored | Streamlit_Feedback_agent_ui.py:55-60 | inserting a row with every value missing anywhere into a frame that has rows changes neither the verdict nor the message |
| CsvValidation.ExtendedRow | Streamlit_Feedback_agent_ui.py:55-58 | a further non-required cell makes a row all-missing only if it is missing too, and never changes whether the row lacks a required value |
| CsvValidation.ExtendedCounts | Streamlit_Feedback_agent_ui.py:55-58 | a further non-required column that is missing on all-missing rows leaves both counts unchanged |
| CsvValidation.MissingAppend | Streamlit_Feedback_agent_ui.py:50 | a column that is not wanted does not change which wanted columns are missing |
| CsvValidation.ExtraColumnKeepsVerdict | Streamlit_Feedback_agent_ui.py:62-67 | a further non-required column leaves verdict and message unchanged, provided it gives no value to a row that was missing every value |
| CsvValidation.SampleFrame | Streamlit_Feedback_agent_ui.py:41-67 | a frame with the required columns, one complete row and one blank row is valid |
| CsvValidation.ExtraColumnCanChangeVerdict | Streamlit_Feedback_agent_ui.py:55-65 | without that proviso an extra column can turn a valid frame into an invalid one |
| SourceList.NonEmpty | streamlit_ui.py:27 | exactly the non-empty strings are kept, in their order, each as often as in the input; none is kept exactly when all are empty |
| SourceList.ParseSources | streamlit_ui.py:27 | a string is a parsed source exactly when it is a non-empty stripped piece, and it occurs as often as among the pieces; the sources keep the order of the pieces; each is trimmed and comma-free, and there are at most one more than there are commas |
| SourceList.NonEmptyKeepsAll | streamlit_ui.py:27 | when no string is empty, all are kept unchanged |
| SourceList.BlankInputHasNoSources | streamlit_ui.py:27 | an input of whitespace and commas only gives no source |
| SourceList.KeepTrimmed | streamlit_ui.py:27 | non-empty trimmed pieces are all kept unchanged |
| SourceList.ParseJoinedSources | streamlit_ui.py:26-27 | non-empty, trimmed, comma-free sources joined by "," parse back to the same list |

## Left out

- HTTP requests, HTML parsing, PDF download and text extraction are not modelled. They appear as parameters: `page`, `join` (`urljoin`), `isValidPdf`, `wikiText` and `fetchPdf`.
- `page`, `wikiText`, `isValidPdf` and `fetchPdf` are functions of the URL, so the model assumes the network answers the same whenever the same URL is asked about within one run. A site whose answer changes between two requests (for example, a PDF that `is_valid_pdf` accepts but whose download then fails) is covered only as far as a fixed answer per URL can describe it.
- `download_pdf` stores each download under a fresh `uuid4()` file name (lines 184-186), so two downloads of the same URL get different local paths. `fetchPdf` gives one `Download` per URL, so the model does not capture that difference.
- Dafny strings cannot hold a lone UTF-16 surrogate, which a Python `str` can hold and `json.dumps` writes as a single `\uXXXX` escape. `JsonText.EscapeChar` and the fallback round trip cover every other character.
- The LLM client is not modelled. Its reply to the n-th call of a run is a parameter, and so is `json.loads` in general (`parse`). The fallback text is modelled exactly, and a reader proves it round-trips. `parse` is tied to that reader only where `Sourcing.ReadsFallback` is required (`FallbackSourcesEveryLink`); `SourcePdfContent` holds for any `parse`, including ones that `json.loads` could not be.
- `urljoin` raising inside `scrape_pdf_links` is not modelled. That exception is caught at lines 142-144 and yields no links.
- UrlValidation.ValidateUrl: `urlparse` is modelled as CPython 3.11 `urlsplit`. The only failure modelled is the "Invalid IPv6 URL" error on an unbalanced '[' or ']' in the network location. Validating a bracketed host as an IP address and the NFKC check on the network location are left out, so a URL such as "https://[abc]", which newer CPython releases reject, is accepted by the model.
- PyStr.Lower: folds ASCII letters only, not the full Unicode case mapping of `str.lower`.
- PdfLinks.ScrapePdfLinks: does not fix the order of the returned links, since it is the iteration order of a Python set.
- The uuid fragment ids and the UTC timestamps are not modelled; they are non-deterministic. The audit fields the model does not read (`user_id`) are left out too.
- Audit-log file I/O (`init_audit_log_file`, `append_audit_log`) and the re-raise at lines 325-327 are not modelled. Audit entries are returned as a list instead of being written to a file.
- Sourcing.ManualLinks: the CK-12 prompt is a parameter standing for the operator's answer for that source; the printed suggestion is console output and is left out.
- Logging and Streamlit rendering are left out, including the `st.warning` listing extra columns at line 65.
- pandas CSV parsing is not modelled: the frame arrives already parsed, and a missing cell is None whichever token pandas read as NaN.
- CsvValidation.ExtraColumnKeepsVerdict: holds only when the extra column is missing on every row that is otherwise blank. `dropna(how='all')` at line 55 looks at every column, so an extra column can keep such a row, and the row then fails (`ExtraColumnCanChangeVerdict`).
- The feedback aggregator (averages, trends, mastery, gaps, misunderstood concepts) is not part of this model. Its code is not among the files modelled, and it is floating-point statistics.
- `main()` of the sourcing agent and the dashboards' widgets, session state and display functions are left out; they are UI driven.
