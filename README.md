# Link classification pipeline, modelled in Dafny

`app.py` fetches an HTML page and looks at every anchor inside the
`paginas-internas` divs. It keeps the links to `.pdf`, `.png`, `.jpeg` and
`.jpg` files and prefixes `base_url` (empty in app.py:9) to every href that
does not start with `http`. It probes each link with an HTTP HEAD request and labels it
`OK`, `Erro 404` or `Status inesperado: <code>`. Last, it counts the labels.
This project models those three steps and proves what they guarantee.

- `Wrappers.dfy`: `Option`, the model of Python's `None`.
- `PyStrings.dfy`: the Python string operations the pipeline uses:
  `str.lower`, `startswith`, `endswith` with a tuple of suffixes, and `str(int)`.
  It also proves that printing an integer is injective.
- `App.dfy`: the pipeline.
  - `CheckUrlStatus` maps the outcome of the HEAD request to an optional code.
    `Outcome` stands for the network: the request either raised or returned a final status code.
  - `ProcessLinks` and `ScanDiv` are the nested `for div` / `for link` loops, written as methods.
    They are proved equal to `ExpectedRecords`, a loop-free statement of the same result.
  - `CountStatuses` computes the totals.
  - `base_url` is a parameter. The checker is a parameter `check` from a URL to an optional code.
    The real checker is `RealCheck(probe)`, where `probe` gives the network's answer for each URL.
- `Scenarios.dfy`: worked examples, proved as lemmas. They cover the extension filter, resolution,
  and a page checked once with a stand-in checker and once with the real one.

Two consequences of the code as written are proved:

- `raise_for_status` turns every 4xx and 5xx answer into an exception.
  So the real checker returns `None` for a missing file and never returns 404.
  The `Erro 404` branch of `process_links` is therefore reached only with a stand-in checker.
  With the real checker, a missing file is labelled `Status inesperado: None` and `error` is always 0
  (`RealCheckerReportsNoErrors`, `RealCheckerRun`).
- A failed check is not dropped. The final `else` branch records it as `Status inesperado: None`,
  so every qualifying link yields exactly one record.
  No qualifying link is skipped, whatever its check returns.

## Model

| member | source | states |
|---|---|---|
| App.CheckUrlStatus | app.py:17-25 | The result is `None` when the request raises or the final code is in [400, 600); otherwise it is exactly the final code. |
| App.CheckerNeverReturns404 | app.py:19-25 | The real checker never returns 404. |
| App.RealCheckLabel | app.py:17-50 | With the real checker, the label depends only on the network outcome: 200 is `OK`; a raise or any 4xx/5xx (404 included) is `Status inesperado: None`; any other code appears verbatim. |
| App.Classify | app.py:42-50 | The `if 404 / elif 200 / else` chain: `NotFound` iff the code is 404, `Ok` iff it is 200, otherwise `Unexpected` carrying the code, `None` included. |
| App.StatusLabelCases | app.py:42-50 | Classification is total and exclusive: `"OK"` iff 200, `"Erro 404"` iff 404, otherwise `"Status inesperado: "` followed by the code, and `"Status inesperado: None"` for `None`. |
| App.RenderOkIff | app.py:45-47 | A label equals `"OK"` exactly for the `Ok` status. |
| App.RenderErrorIff | app.py:42-44 | A label starts with `"Erro"` exactly for the `NotFound` status. |
| App.RenderInjective | app.py:42-50 | Different statuses get different labels, so the stored string determines the classification. |
| App.FormatCodeInjective | app.py:49 | The f-string renders different codes differently, and no code renders as `None`. |
| App.QualifyingHrefs | app.py:36-38 | The kept hrefs are at most as many as the input hrefs, and every one of them has a qualifying extension. |
| App.QualifyingPositions | app.py:34-38 | Each kept href has one position in the document's hrefs, and that position is in range. |
| App.QualifyingPositionsHold | app.py:34-38 | The k-th kept href is the href at the k-th position. |
| App.QualifyingPositionsIncrease | app.py:34-38 | The positions strictly increase, so the filter keeps document order. |
| App.QualifyingPositionsComplete | app.py:36-38 | Every qualifying href is kept. |
| App.QualifyingAppend | app.py:34-38 | Filtering distributes over concatenation. |
| App.NothingQualifies | app.py:36-38 | When no href qualifies, nothing is kept. |
| App.MissingHrefNeverQualifies | app.py:37-38 | An anchor without `href` is read as `''` and never qualifies. |
| App.QualifyingIgnoresCase | app.py:38 | Upper- or lower-casing an href does not change whether it qualifies. |
| App.ResolveUrl | app.py:39 | An href starting with `"http"` is returned unchanged; any other href becomes exactly `base_url + href`, with no slash normalisation. |
| App.ResolvedUrlKeepsExtension | app.py:38-39 | The href is a suffix of the resolved URL, so the URL that is checked still has a qualifying extension. |
| App.ResolveIdempotent | app.py:39 | With an `http...` base, every resolved URL starts with `http` and resolving it again changes nothing. |
| App.EmptyBaseKeepsHrefs | app.py:9 | With the default `base_url = ''`, each record's URL is the href verbatim. |
| App.ProcessLinks | app.py:27-52 | The records built by the nested loops are exactly `ExpectedRecords`: one record per qualifying href, in document order, each with the resolved URL and the label of its check. |
| App.ScanDiv | app.py:35-50 | The inner loop appends the records of one div's qualifying anchors, in anchor order, to the list built so far. |
| App.LinkStep | app.py:36-50 | One anchor adds one record if it qualifies and nothing otherwise. |
| App.RecordsMatchLinks | app.py:34-50 | Record k comes from the k-th qualifying href, at increasing positions in the page. That href qualifies, its URL is that href resolved, and its status is the label of the check of that URL. There is one record per qualifying href, and no others. |
| App.DocumentHrefsAppend | app.py:34-35 | The hrefs of two groups of divs are those of the first group, then those of the second. |
| App.DivOrderPreserved | app.py:34-36 | The records of divs `a + b` are those of `a`, then those of `b`. |
| App.AnchorOrderPreserved | app.py:35-36 | Within a div, the records of anchors `x + y` are those of `x`, then those of `y`. |
| App.NoQualifyingLinksNoRecords | app.py:30-52 | A page with no qualifying href (no divs, no anchors, or only other extensions) gives an empty record list, not an error. |
| App.CountOk | app.py:57 | The number of records whose status is exactly `"OK"` is at most the number of records. |
| App.CountError | app.py:58 | The number of records whose status starts with `"Erro"` is at most the number of records. |
| App.OkAndErrorDisjoint | app.py:57-58 | `"OK"` does not start with `"Erro"`, so `ok + error <= total`. |
| App.CountStatuses | app.py:54-60 | `total` is the number of records and `ok + error <= total`. |
| App.EmptyTotals | app.py:55-59 | No records gives totals {0, 0, 0}. |
| App.CountsAppend | app.py:57-58 | The `ok` and `error` counts of a concatenation add up. |
| App.TotalsOfRecords | app.py:40-58 | For records built from hrefs: `total` is the number of hrefs, `ok` the number checked as 200, `error` the number checked as 404. |
| App.PageTotals | app.py:27-60 | The totals of a page: `total` is the number of qualifying links, `ok` those checked as 200, `error` those checked as 404. |
| App.NoQualifyingLinksZeroTotals | app.py:30-59 | A page with no qualifying href has totals {0, 0, 0}. |
| App.NoErrorRecords | app.py:58 | No record starting with `"Erro"` means `error` is 0. |
| App.RealCheckerReportsNoErrors | app.py:17-58 | With the real checker, no record is labelled `Erro ...` and `error` is always 0. |
| App.RaisesForStatus | app.py:21 | (definition) True exactly for the codes `raise_for_status` raises on: 400 up to 599. |
| App.RealCheck | app.py:17-25 | (definition) The checker `process_links` calls: the network's outcome for the URL, mapped by `CheckUrlStatus`. |
| App.FormatCode | app.py:49 | (definition) How the code appears in the label: the decimal form of the integer, or `None` when there is no code. |
| App.Render | app.py:42-50 | (definition) The label stored for each status: `"OK"`, `"Erro 404"`, or `"Status inesperado: "` followed by the formatted code. |
| App.StatusLabel | app.py:40-50 | (definition) The label of a link whose check returned a given code: classification, then rendering. |
| App.HrefOf | app.py:37 | (definition) The anchor's href, or the empty string when the attribute is missing. |
| App.IsQualifying | app.py:38 | (definition) True iff the ASCII-lower-cased href ends in `.pdf`, `.png`, `.jpeg` or `.jpg`. |
| App.MakeRecord | app.py:39-50 | (definition) The record of one qualifying href: its resolved URL and the label of the check of that URL. |
| App.DivHrefs | app.py:35-37 | (definition) The hrefs of one div's anchors, in anchor order, a missing href read as the empty string. |
| App.DocumentHrefs | app.py:34-37 | (definition) The hrefs of all divs: div order, then anchor order within each div. |
| App.RecordsFor | app.py:39-50 | (definition) One record per href, in the same order, each made by `MakeRecord`. |
| App.ExpectedRecords | app.py:27-52 | (definition) The loop-free result of `process_links`: the records of the qualifying hrefs of the page, in document order. |
| App.IsOkRecord | app.py:57 | (definition) True iff the record's status is exactly `"OK"`. |
| App.IsErrorRecord | app.py:58 | (definition) True iff the record's status starts with `"Erro"`. |
| App.CountChecked | app.py:40-50 | The number of hrefs whose resolved URL the checker answers with a given code; at most the number of hrefs. |
| PyStrings.StartsWith | app.py:39 | (definition) True iff the prefix is no longer than the string and equals its first characters. |
| PyStrings.EndsWith | app.py:38 | (definition) True iff the suffix is no longer than the string and equals its last characters. |
| PyStrings.EndsWithAny | app.py:38 | (definition) True iff the string ends with at least one of the given suffixes, as `endswith` with a tuple does. |
| PyStrings.Lower | app.py:38 | ASCII lower-casing keeps the length and lowers `A`-`Z`, leaving every other character as it is. |
| PyStrings.LowerAppend | app.py:38-39 | Lowering distributes over concatenation. |
| PyStrings.LowerIdempotent | app.py:38 | Lowering twice is lowering once. |
| PyStrings.LowerOfUpper | app.py:38 | An upper-cased string lowers to the same string as the original. |
| PyStrings.EndsWithAppend | app.py:38-39 | A suffix of `b` is a suffix of `a + b`. |
| PyStrings.NatToString | app.py:49 | The decimal form of a natural number is non-empty, made only of digits, and one digit long exactly below 10. |
| PyStrings.IntToString | app.py:49 | `str(i)` is the digits of `i`, with a leading `-` when `i` is negative. |
| PyStrings.NatToStringInjective | app.py:49 | Different natural numbers print differently. |
| PyStrings.IntToStringSign | app.py:49 | The printed form starts with `-` exactly when the number is negative. |
| PyStrings.IntToStringInjective | app.py:49 | Different integers print differently. |
| PyStrings.IntToStringIsNotNone | app.py:49 | No integer prints as `None`. |
| Scenarios.UpperCaseExtensionKept | app.py:38 | `a.PDF` is kept. |
| Scenarios.MixedCaseExtensionKept | app.py:38 | `img/photo.JpEg` is kept. |
| Scenarios.OtherExtensionDropped | app.py:38 | `a.docx` is not kept. |
| Scenarios.RelativeHrefAppended | app.py:39 | `/files/a.pdf` with base `https://example.com` gives `https://example.com/files/a.pdf`. |
| Scenarios.TrailingSlashKept | app.py:39 | A base ending in `/` gives a double slash: there is no normalisation. |
| Scenarios.AbsoluteHrefKept | app.py:39 | `http://other.com/x.png` is unchanged whatever the base. |
| Scenarios.SampleDivHrefs | app.py:34-38 | A div holding `a`, an anchor without `href`, `b`, and a non-qualifying `c` keeps exactly `[a, b]`. |
| Scenarios.SampleDivRecords | app.py:34-50 | That div yields the records of `a` and `b`, in that order, whatever the checker says. |
| Scenarios.TwoRecordTotals | app.py:54-60 | The totals of a two-record list. |
| Scenarios.MockedCheckerRun | app.py:27-60 | With a checker that answers 200 for `/a.pdf` and 404 for `/b.jpg`, the records are `OK` and `Erro 404`, and the totals are {2, 1, 1}. |
| Scenarios.RealCheckerRun | app.py:17-60 | With the real checker and a network that answers 200 and 404, the records are `OK` and `Status inesperado: None`, and the totals are {2, 1, 0}. |

## Left out

- `get_page` (app.py:11-15) is network I/O. The model starts from the divs it would yield.
- The HEAD request itself (app.py:20) is network I/O. Its result is the `Outcome` parameter, either `Raised` or `Final(code)`. Redirects and the 10-second timeout are subsumed in it.
- `base_url` is `''` in app.py:9 and never reassigned, so with the program as shipped a relative href reaches `check_url_status` without a scheme. `requests` rejects such a URL before any network I/O with `MissingSchema`, a `RequestException`, so the real program labels every relative link `Status inesperado: None`. The model does not single this case out: it is one of the URLs for which the unconstrained `probe` may give `Outcome.Raised`.
- CheckUrlStatus: only `requests.RequestException` is caught. Any other exception would escape and abort the whole request. The model has no such outcome.
- HTML parsing with BeautifulSoup and `find_all` (app.py:29, 32, 35) is a foreign library. The divs and their anchors are input, in document order. Parser quirks, such as nested divs repeating anchors, are not modelled.
- ProcessLinks: the checker is a function of the URL. So a URL that appears twice is assumed to get the same answer both times, whereas a live server may answer differently.
- ProcessLinks: the inner `for link` loop is the separate method `ScanDiv`, which appends to the same list. This changes the structure, not the behaviour.
- PyStrings.Lower: only ASCII `A`-`Z` are lowered. Python's `str.lower` also maps non-ASCII letters, which never produce the ASCII suffixes app.py:38 checks for.
- `save_to_excel` (app.py:62-65) is pandas and file I/O.
- The websocket handler, the download endpoint and `main` (app.py:67-103) are transport and concurrency. This includes the catch-all error reply.
- The `print` diagnostics have no effect on results.
