/**
 * The link-classification pipeline of app.py.
 *
 * The network is abstracted: the outcome of the HEAD request made by
 * `check_url_status` is an `Outcome`, and `process_links` receives the
 * checker as a function `check` from a resolved URL to an optional status
 * code (the real one is `RealCheck(probe)`). The HTML parser is abstracted
 * too: `process_links` receives the `paginas-internas` divs already
 * selected, each as the sequence of its anchors.
 */
module App {
  import opened Wrappers
  import opened PyStrings

  // =====================================================================
  // check_url_status
  // =====================================================================

  /** The result of the HEAD request, redirects followed and time-bounded: either it
      raises (timeout, connection error, ...) or it yields the final status code. */
  datatype Outcome = Raised | Final(code: int)

  /** `raise_for_status` raises for client errors (4xx) and server errors (5xx). */
  predicate RaisesForStatus(code: int) {
    400 <= code < 600
  }

  /** `check_url_status`: the final code, or `None` when the request or
      `raise_for_status` raised. */
  function CheckUrlStatus(o: Outcome): (r: Option<int>)
    ensures r.Some? ==> o.Final? && r.value == o.code && !(400 <= r.value < 600)
    ensures o.Final? && !(400 <= o.code < 600) ==> r == Some(o.code)
    ensures o.Raised? ==> r == None
  {
    match o
    case Raised => None
    case Final(code) => if RaisesForStatus(code) then None else Some(code)
  }

  /** Because of `raise_for_status`, the real checker can never report 404. */
  lemma CheckerNeverReturns404(o: Outcome)
    ensures CheckUrlStatus(o) != Some(404)
  {
  }

  /** The checker `process_links` calls when the network answers as `probe` says. */
  function RealCheck(probe: string -> Outcome): string -> Option<int> {
    url => CheckUrlStatus(probe(url))
  }

  // =====================================================================
  // Classification of one link
  // =====================================================================

  /** The three outcomes `process_links` distinguishes. */
  datatype Status = Ok | NotFound | Unexpected(code: Option<int>)

  /** The three-way test on the code: 404 first, then 200, then everything else. */
  function Classify(code: Option<int>): (s: Status)
    ensures s == Ok <==> code == Some(200)
    ensures s == NotFound <==> code == Some(404)
    ensures s.Unexpected? ==> s.code == code
  {
    if code == Some(404) then NotFound
    else if code == Some(200) then Ok
    else Unexpected(code)
  }

  /** How the code is written into a label: its decimal form, or `None` when absent. */
  function FormatCode(code: Option<int>): string {
    match code
    case None => "None"
    case Some(c) => IntToString(c)
  }

  const UnexpectedPrefix: string := "Status inesperado: "

  /** The `Status` string stored in a record. */
  function Render(s: Status): string {
    match s
    case Ok => "OK"
    case NotFound => "Erro 404"
    case Unexpected(code) => UnexpectedPrefix + FormatCode(code)
  }

  /** The label of a link whose check returned `code`. */
  function StatusLabel(code: Option<int>): string {
    Render(Classify(code))
  }

  /** Different codes, `None` included, are formatted differently. */
  lemma FormatCodeInjective(a: Option<int>, b: Option<int>)
    requires FormatCode(a) == FormatCode(b)
    ensures a == b
  {
    match a
    case None =>
      if b.Some? { IntToStringIsNotNone(b.value); }
    case Some(x) =>
      IntToStringIsNotNone(x);
      IntToStringInjective(x, b.value);
  }

  /** A label is exactly `"OK"` only for the `Ok` status. */
  lemma RenderOkIff(s: Status)
    ensures Render(s) == "OK" <==> s == Ok
  {
    if s.Unexpected? {
      assert Render(s)[0] == 'S';
    }
  }

  /** A label starts with `"Erro"` only for the `NotFound` status. */
  lemma RenderErrorIff(s: Status)
    ensures StartsWith(Render(s), "Erro") <==> s == NotFound
  {
    if s.Unexpected? {
      assert Render(s)[0] == 'S';
    } else if s == NotFound {
      assert Render(s)[..4] == "Erro";
    }
  }

  /** The label determines the status: nothing is lost by storing a string. */
  lemma RenderInjective(s: Status, t: Status)
    requires Render(s) == Render(t)
    ensures s == t
  {
    RenderOkIff(s);
    RenderOkIff(t);
    RenderErrorIff(s);
    RenderErrorIff(t);
    if s.Unexpected? && t.Unexpected? {
      var n := |UnexpectedPrefix|;
      assert Render(s)[n..] == FormatCode(s.code);
      assert Render(t)[n..] == FormatCode(t.code);
      FormatCodeInjective(s.code, t.code);
    }
  }

  /** Classification is total and exclusive: each code gets exactly one of the
      three labels, and `None` is labelled like any other unexpected value. */
  lemma StatusLabelCases(code: Option<int>)
    ensures StatusLabel(code) == "OK" <==> code == Some(200)
    ensures StatusLabel(code) == "Erro 404" <==> code == Some(404)
    ensures code != Some(200) && code != Some(404) ==>
              StatusLabel(code) == UnexpectedPrefix + FormatCode(code)
    ensures code == None ==> StatusLabel(code) == "Status inesperado: None"
  {
    RenderOkIff(Classify(code));
    var l := StatusLabel(code);
    if code != Some(404) && l == "Erro 404" {
      RenderInjective(Classify(code), NotFound);
    }
  }

  // =====================================================================
  // process_links
  // =====================================================================

  /** An anchor element; `href` is absent when the attribute is missing. */
  datatype Anchor = Anchor(href: Option<string>)

  /** The anchors of one `paginas-internas` div, in document order. */
  type Div = seq<Anchor>

  /** One row of the result: the checked URL and its status label. */
  datatype LinkRecord = LinkRecord(url: string, status: string)

  /** The href, or the empty string when the attribute is missing. */
  function HrefOf(a: Anchor): string {
    a.href.GetOr("")
  }

  const Extensions: seq<string> := [".pdf", ".png", ".jpeg", ".jpg"]

  /** True when the lower-cased href ends in one of the four document or image extensions. */
  predicate IsQualifying(href: string) {
    EndsWithAny(Lower(href), Extensions)
  }

  /** An href that already starts with `http` is kept; any other is appended to the base URL. */
  function ResolveUrl(baseUrl: string, href: string): (r: string)
    ensures StartsWith(href, "http") ==> r == href
    ensures !StartsWith(href, "http") ==> r == baseUrl + href
  {
    if StartsWith(href, "http") then href else baseUrl + href
  }

  /** The record a qualifying href produces. */
  function MakeRecord(baseUrl: string, check: string -> Option<int>, href: string): LinkRecord {
    var url := ResolveUrl(baseUrl, href);
    LinkRecord(url, StatusLabel(check(url)))
  }

  /** The hrefs of one div, in anchor order. */
  function DivHrefs(links: Div): seq<string> {
    seq(|links|, k requires 0 <= k < |links| => HrefOf(links[k]))
  }

  /** The hrefs of all divs: div order, then anchor order. */
  function DocumentHrefs(divs: seq<Div>): seq<string>
    decreases |divs|
  {
    if divs == [] then []
    else DocumentHrefs(divs[..|divs| - 1]) + DivHrefs(divs[|divs| - 1])
  }

  /** The qualifying hrefs, in their original order. */
  function QualifyingHrefs(hrefs: seq<string>): (q: seq<string>)
    ensures |q| <= |hrefs|
    ensures forall k :: 0 <= k < |q| ==> IsQualifying(q[k])
    decreases |hrefs|
  {
    if hrefs == [] then []
    else
      var last := hrefs[|hrefs| - 1];
      QualifyingHrefs(hrefs[..|hrefs| - 1]) + (if IsQualifying(last) then [last] else [])
  }

  /** Where each qualifying href sits in `hrefs`. */
  function QualifyingPositions(hrefs: seq<string>): (ps: seq<nat>)
    ensures |ps| == |QualifyingHrefs(hrefs)|
    ensures forall k :: 0 <= k < |ps| ==> ps[k] < |hrefs|
    decreases |hrefs|
  {
    if hrefs == [] then []
    else
      var n := |hrefs| - 1;
      QualifyingPositions(hrefs[..n]) + (if IsQualifying(hrefs[n]) then [n] else [])
  }

  /** Each position holds the corresponding kept href. */
  lemma {:induction false} QualifyingPositionsHold(hrefs: seq<string>)
    ensures forall k :: 0 <= k < |QualifyingPositions(hrefs)| ==>
              hrefs[QualifyingPositions(hrefs)[k]] == QualifyingHrefs(hrefs)[k]
    decreases |hrefs|
  {
    if hrefs != [] {
      var n := |hrefs| - 1;
      var init := hrefs[..n];
      QualifyingPositionsHold(init);
      var ps0, q0 := QualifyingPositions(init), QualifyingHrefs(init);
      var ps, q := QualifyingPositions(hrefs), QualifyingHrefs(hrefs);
      forall k | 0 <= k < |ps| ensures hrefs[ps[k]] == q[k] {
        if k < |ps0| {
          assert ps[k] == ps0[k] && q[k] == q0[k];
          assert hrefs[ps0[k]] == init[ps0[k]];
        }
      }
    }
  }

  /** The positions increase: the filter keeps order. */
  lemma {:induction false} QualifyingPositionsIncrease(hrefs: seq<string>)
    ensures forall k, l :: 0 <= k < l < |QualifyingPositions(hrefs)| ==>
              QualifyingPositions(hrefs)[k] < QualifyingPositions(hrefs)[l]
    decreases |hrefs|
  {
    if hrefs != [] {
      QualifyingPositionsIncrease(hrefs[..|hrefs| - 1]);
    }
  }

  /** Every qualifying position is kept: the filter drops nothing that qualifies. */
  lemma {:induction false} QualifyingPositionsComplete(hrefs: seq<string>)
    ensures forall p :: 0 <= p < |hrefs| && IsQualifying(hrefs[p]) ==> p in QualifyingPositions(hrefs)
    decreases |hrefs|
  {
    if hrefs != [] {
      var n := |hrefs| - 1;
      var init := hrefs[..n];
      QualifyingPositionsComplete(init);
      var ps0, ps := QualifyingPositions(init), QualifyingPositions(hrefs);
      var kept := IsQualifying(hrefs[n]);
      assert ps == ps0 + (if kept then [n] else []);
      forall p | 0 <= p < |hrefs| && IsQualifying(hrefs[p]) ensures p in ps {
        if p < n {
          assert init[p] == hrefs[p];
          assert p in ps0;
        } else {
          assert kept;
        }
      }
    }
  }

  /** One record per href, in order. */
  function RecordsFor(baseUrl: string, check: string -> Option<int>, hrefs: seq<string>): seq<LinkRecord> {
    seq(|hrefs|, k requires 0 <= k < |hrefs| => MakeRecord(baseUrl, check, hrefs[k]))
  }

  /** What `process_links` returns, stated without its loops. */
  function ExpectedRecords(divs: seq<Div>, baseUrl: string, check: string -> Option<int>): seq<LinkRecord> {
    RecordsFor(baseUrl, check, QualifyingHrefs(DocumentHrefs(divs)))
  }

  /** `process_links`: the outer `for div in divs` loop; the inner loop over the
      div's anchors is `ScanDiv`, which appends to the same list. */
  method ProcessLinks(divs: seq<Div>, baseUrl: string, check: string -> Option<int>)
    returns (records: seq<LinkRecord>)
    ensures records == ExpectedRecords(divs, baseUrl, check)
  {
    records := [];
    for i := 0 to |divs|
      invariant records == ExpectedRecords(divs[..i], baseUrl, check)
    {
      records := ScanDiv(records, divs[i], baseUrl, check);
      ExpectedRecordsStep(divs, i, baseUrl, check);
    }
    assert divs[..|divs|] == divs;
  }

  /** One pass of `for link in links`: the records of the div's qualifying
      links, in anchor order, are appended to `records`. */
  method ScanDiv(records: seq<LinkRecord>, links: Div, baseUrl: string, check: string -> Option<int>)
    returns (out: seq<LinkRecord>)
    ensures out == records + RecordsFor(baseUrl, check, QualifyingHrefs(DivHrefs(links)))
  {
    out := records;
    for j := 0 to |links|
      invariant out == records + RecordsFor(baseUrl, check, QualifyingHrefs(DivHrefs(links[..j])))
    {
      var href := HrefOf(links[j]);
      ghost var done := QualifyingHrefs(DivHrefs(links[..j]));
      if EndsWithAny(Lower(href), Extensions) {
        var fileUrl := if StartsWith(href, "http") then href else baseUrl + href;
        var statusCode := check(fileUrl);
        var record: LinkRecord;
        if statusCode == Some(404) {
          record := LinkRecord(fileUrl, "Erro 404");
        } else if statusCode == Some(200) {
          record := LinkRecord(fileUrl, "OK");
        } else {
          record := LinkRecord(fileUrl, "Status inesperado: " + FormatCode(statusCode));
          assert Classify(statusCode) == Unexpected(statusCode);
        }
        assert record == MakeRecord(baseUrl, check, href);
        out := out + [record];
        LinkStep(baseUrl, check, links, j, done, true);
      } else {
        LinkStep(baseUrl, check, links, j, done, false);
      }
    }
    assert links[..|links|] == links;
  }

  // ---------------------------------------------------------------------
  // Helper lemmas for the loops
  // ---------------------------------------------------------------------

  /** What one iteration of the inner loop adds to the records. */
  lemma LinkStep(baseUrl: string, check: string -> Option<int>, links: Div, j: nat,
                 done: seq<string>, kept: bool)
    requires j < |links| && done == QualifyingHrefs(DivHrefs(links[..j]))
    requires kept == IsQualifying(HrefOf(links[j]))
    ensures RecordsFor(baseUrl, check, QualifyingHrefs(DivHrefs(links[..j + 1]))) ==
              RecordsFor(baseUrl, check, done)
              + (if kept then [MakeRecord(baseUrl, check, HrefOf(links[j]))] else [])
  {
    var h := HrefOf(links[j]);
    DivHrefsStep(links, j);
    QualifyingStep(DivHrefs(links[..j]), h);
    RecordsForAppend(baseUrl, check, done, if kept then [h] else []);
  }

  lemma DivHrefsStep(links: Div, j: nat)
    requires j < |links|
    ensures DivHrefs(links[..j + 1]) == DivHrefs(links[..j]) + [HrefOf(links[j])]
  {
  }

  lemma QualifyingStep(hrefs: seq<string>, h: string)
    ensures QualifyingHrefs(hrefs + [h]) ==
              QualifyingHrefs(hrefs) + (if IsQualifying(h) then [h] else [])
  {
    assert (hrefs + [h])[..|hrefs|] == hrefs;
  }

  lemma RecordsForAppend(baseUrl: string, check: string -> Option<int>, a: seq<string>, b: seq<string>)
    ensures RecordsFor(baseUrl, check, a + b) == RecordsFor(baseUrl, check, a) + RecordsFor(baseUrl, check, b)
  {
  }

  /** Filtering distributes over concatenation. */
  lemma {:induction false} QualifyingAppend(a: seq<string>, b: seq<string>)
    ensures QualifyingHrefs(a + b) == QualifyingHrefs(a) + QualifyingHrefs(b)
    decreases |b|
  {
    if b == [] {
      assert a + b == a;
    } else {
      var init, last := b[..|b| - 1], b[|b| - 1];
      assert b == init + [last];
      assert a + b == (a + init) + [last];
      QualifyingStep(a + init, last);
      QualifyingStep(init, last);
      QualifyingAppend(a, init);
    }
  }

  lemma ExpectedRecordsStep(divs: seq<Div>, i: nat, baseUrl: string, check: string -> Option<int>)
    requires i < |divs|
    ensures ExpectedRecords(divs[..i + 1], baseUrl, check) ==
              ExpectedRecords(divs[..i], baseUrl, check)
              + RecordsFor(baseUrl, check, QualifyingHrefs(DivHrefs(divs[i])))
  {
    assert divs[..i + 1][..i] == divs[..i];
    assert DocumentHrefs(divs[..i + 1]) == DocumentHrefs(divs[..i]) + DivHrefs(divs[i]);
    QualifyingAppend(DocumentHrefs(divs[..i]), DivHrefs(divs[i]));
    RecordsForAppend(baseUrl, check, QualifyingHrefs(DocumentHrefs(divs[..i])),
                     QualifyingHrefs(DivHrefs(divs[i])));
  }

  // ---------------------------------------------------------------------
  // Properties of filtering and resolution
  // ---------------------------------------------------------------------

  /** An anchor without `href` is read as `''`, which never qualifies. */
  lemma MissingHrefNeverQualifies(a: Anchor)
    requires a.href == None
    ensures !IsQualifying(HrefOf(a))
  {
  }

  /** The extension test ignores case: upper- or lower-casing an href does not change it. */
  lemma QualifyingIgnoresCase(href: string)
    ensures IsQualifying(Upper(href)) == IsQualifying(href)
    ensures IsQualifying(Lower(href)) == IsQualifying(href)
  {
    LowerOfUpper(href);
    LowerIdempotent(href);
  }

  /** Resolution keeps the href as the tail of the URL, so the URL that is
      checked still carries the qualifying extension. */
  lemma ResolvedUrlKeepsExtension(baseUrl: string, href: string)
    requires IsQualifying(href)
    ensures EndsWith(ResolveUrl(baseUrl, href), href)
    ensures IsQualifying(ResolveUrl(baseUrl, href))
  {
    if !StartsWith(href, "http") {
      EndsWithOwnTail(baseUrl, href);
      LowerAppend(baseUrl, href);
      var k :| 0 <= k < |Extensions| && EndsWith(Lower(href), Extensions[k]);
      EndsWithAppend(Lower(baseUrl), Lower(href), Extensions[k]);
    } else {
      EndsWithOwnTail([], href);
    }
  }

  /** With an absolute (`http...`) base URL, every resolved URL is absolute,
      and resolving it again leaves it unchanged. */
  lemma ResolveIdempotent(baseUrl: string, href: string)
    requires StartsWith(baseUrl, "http")
    ensures StartsWith(ResolveUrl(baseUrl, href), "http")
    ensures ResolveUrl(baseUrl, ResolveUrl(baseUrl, href)) == ResolveUrl(baseUrl, href)
  {
    if !StartsWith(href, "http") {
      assert (baseUrl + href)[..4] == baseUrl[..4];
    }
  }

  /** With the default configuration (`base_url = ''`) every href is used verbatim. */
  lemma {:induction false} EmptyBaseKeepsHrefs(divs: seq<Div>, check: string -> Option<int>)
    ensures forall k :: 0 <= k < |ExpectedRecords(divs, "", check)| ==>
              ExpectedRecords(divs, "", check)[k].url == QualifyingHrefs(DocumentHrefs(divs))[k]
  {
    var q := QualifyingHrefs(DocumentHrefs(divs));
    forall k | 0 <= k < |q| ensures ResolveUrl("", q[k]) == q[k] {
      assert "" + q[k] == q[k];
    }
  }

  // ---------------------------------------------------------------------
  // Properties of the records of a page
  // ---------------------------------------------------------------------

  /** One record per qualifying href, in document order: record `k` comes from
      the href at position `ps[k]` of the page, positions increase, and every
      qualifying position is used. */
  lemma RecordsMatchLinks(divs: seq<Div>, baseUrl: string, check: string -> Option<int>)
    ensures var hrefs := DocumentHrefs(divs);
            var ps := QualifyingPositions(hrefs);
            var rs := ExpectedRecords(divs, baseUrl, check);
            && |rs| == |ps| <= |hrefs|
            && (forall k :: 0 <= k < |rs| ==>
                  && IsQualifying(hrefs[ps[k]])
                  && rs[k].url == ResolveUrl(baseUrl, hrefs[ps[k]])
                  && rs[k].status == StatusLabel(check(rs[k].url)))
            && (forall k, l :: 0 <= k < l < |ps| ==> ps[k] < ps[l])
            && (forall p :: 0 <= p < |hrefs| && IsQualifying(hrefs[p]) ==> p in ps)
  {
    QualifyingPositionsHold(DocumentHrefs(divs));
    QualifyingPositionsIncrease(DocumentHrefs(divs));
    QualifyingPositionsComplete(DocumentHrefs(divs));
  }

  /** The hrefs of a page made of two groups of divs are those of the first group
      followed by those of the second. */
  lemma {:induction false} DocumentHrefsAppend(a: seq<Div>, b: seq<Div>)
    ensures DocumentHrefs(a + b) == DocumentHrefs(a) + DocumentHrefs(b)
    decreases |b|
  {
    if b == [] {
      assert a + b == a;
    } else {
      var init := b[..|b| - 1];
      assert (a + b)[..|a + b| - 1] == a + init;
      assert (a + b)[|a + b| - 1] == b[|b| - 1];
      DocumentHrefsAppend(a, init);
    }
  }

  /** A page of one div has that div's hrefs. */
  lemma DocumentHrefsSingle(d: Div)
    ensures DocumentHrefs([d]) == DivHrefs(d)
  {
    assert [d][..0] == [];
  }

  /** Div order: the records of the divs `a + b` are those of `a`, then those of `b`. */
  lemma DivOrderPreserved(a: seq<Div>, b: seq<Div>, baseUrl: string, check: string -> Option<int>)
    ensures ExpectedRecords(a + b, baseUrl, check) ==
              ExpectedRecords(a, baseUrl, check) + ExpectedRecords(b, baseUrl, check)
  {
    DocumentHrefsAppend(a, b);
    QualifyingAppend(DocumentHrefs(a), DocumentHrefs(b));
    RecordsForAppend(baseUrl, check, QualifyingHrefs(DocumentHrefs(a)), QualifyingHrefs(DocumentHrefs(b)));
  }

  /** Anchor order: within one div, the records of anchors `x + y` are those of
      `x`, then those of `y`; an anchor that does not qualify adds nothing. */
  lemma AnchorOrderPreserved(x: Div, y: Div, baseUrl: string, check: string -> Option<int>)
    ensures ExpectedRecords([x + y], baseUrl, check) ==
              ExpectedRecords([x], baseUrl, check) + ExpectedRecords([y], baseUrl, check)
  {
    DocumentHrefsSingle(x + y);
    DocumentHrefsSingle(x);
    DocumentHrefsSingle(y);
    assert DivHrefs(x + y) == DivHrefs(x) + DivHrefs(y);
    QualifyingAppend(DivHrefs(x), DivHrefs(y));
    RecordsForAppend(baseUrl, check, QualifyingHrefs(DivHrefs(x)), QualifyingHrefs(DivHrefs(y)));
  }

  /** Filtering a sequence in which nothing qualifies leaves nothing. */
  lemma {:induction false} NothingQualifies(hrefs: seq<string>)
    requires forall k :: 0 <= k < |hrefs| ==> !IsQualifying(hrefs[k])
    ensures QualifyingHrefs(hrefs) == []
    decreases |hrefs|
  {
    if hrefs != [] {
      NothingQualifies(hrefs[..|hrefs| - 1]);
    }
  }

  /** A page with no qualifying href (no divs, no anchors, or only other
      extensions) yields no records, not an error. */
  lemma NoQualifyingLinksNoRecords(divs: seq<Div>, baseUrl: string, check: string -> Option<int>)
    requires forall k :: 0 <= k < |DocumentHrefs(divs)| ==> !IsQualifying(DocumentHrefs(divs)[k])
    ensures ExpectedRecords(divs, baseUrl, check) == []
  {
    NothingQualifies(DocumentHrefs(divs));
  }

  // =====================================================================
  // count_statuses
  // =====================================================================

  /** The totals reported for a page. */
  datatype Totals = Totals(total: nat, ok: nat, error: nat)

  predicate IsOkRecord(r: LinkRecord) {
    r.status == "OK"
  }

  predicate IsErrorRecord(r: LinkRecord) {
    StartsWith(r.status, "Erro")
  }

  /** The number of records whose status is exactly `OK`. */
  function CountOk(records: seq<LinkRecord>): (n: nat)
    ensures n <= |records|
    decreases |records|
  {
    if records == [] then 0
    else CountOk(records[..|records| - 1]) + (if IsOkRecord(records[|records| - 1]) then 1 else 0)
  }

  /** The number of records whose status starts with `Erro`. */
  function CountError(records: seq<LinkRecord>): (n: nat)
    ensures n <= |records|
    decreases |records|
  {
    if records == [] then 0
    else CountError(records[..|records| - 1]) + (if IsErrorRecord(records[|records| - 1]) then 1 else 0)
  }

  /** `"OK"` does not start with `"Erro"`, so no record is counted twice. */
  lemma {:induction false} OkAndErrorDisjoint(records: seq<LinkRecord>)
    ensures CountOk(records) + CountError(records) <= |records|
    decreases |records|
  {
    if records != [] {
      var last := records[|records| - 1];
      OkAndErrorDisjoint(records[..|records| - 1]);
      assert IsOkRecord(last) ==> !IsErrorRecord(last) by {
        if IsOkRecord(last) { assert last.status[0] == 'O'; }
      }
    }
  }

  /** The totals: how many records, how many `OK`, how many errors. */
  function CountStatuses(records: seq<LinkRecord>): (t: Totals)
    ensures t.total == |records|
    ensures t.ok + t.error <= t.total
  {
    OkAndErrorDisjoint(records);
    Totals(|records|, CountOk(records), CountError(records))
  }

  /** No records, all totals zero. */
  lemma EmptyTotals()
    ensures CountStatuses([]) == Totals(0, 0, 0)
  {
  }

  /** The counts over a concatenation add up. */
  lemma {:induction false} CountsAppend(a: seq<LinkRecord>, b: seq<LinkRecord>)
    ensures CountOk(a + b) == CountOk(a) + CountOk(b)
    ensures CountError(a + b) == CountError(a) + CountError(b)
    decreases |b|
  {
    if b == [] {
      assert a + b == a;
    } else {
      var init := b[..|b| - 1];
      assert (a + b)[..|a + b| - 1] == a + init;
      assert (a + b)[|a + b| - 1] == b[|b| - 1];
      CountsAppend(a, init);
    }
  }

  /** How many of `hrefs`, once resolved, are checked with result `code`. */
  function CountChecked(baseUrl: string, check: string -> Option<int>, hrefs: seq<string>, code: Option<int>): (n: nat)
    ensures n <= |hrefs|
    decreases |hrefs|
  {
    if hrefs == [] then 0
    else
      var last := hrefs[|hrefs| - 1];
      CountChecked(baseUrl, check, hrefs[..|hrefs| - 1], code)
        + (if check(ResolveUrl(baseUrl, last)) == code then 1 else 0)
  }

  /** The totals of a batch of records in terms of the checks: `ok` counts the
      links checked as 200, `error` those checked as 404. */
  lemma {:induction false} TotalsOfRecords(baseUrl: string, check: string -> Option<int>, hrefs: seq<string>)
    ensures CountStatuses(RecordsFor(baseUrl, check, hrefs)) ==
              Totals(|hrefs|, CountChecked(baseUrl, check, hrefs, Some(200)),
                     CountChecked(baseUrl, check, hrefs, Some(404)))
    decreases |hrefs|
  {
    if hrefs != [] {
      var init, last := hrefs[..|hrefs| - 1], hrefs[|hrefs| - 1];
      var rs := RecordsFor(baseUrl, check, hrefs);
      assert rs[..|rs| - 1] == RecordsFor(baseUrl, check, init);
      var r := rs[|rs| - 1];
      assert r == MakeRecord(baseUrl, check, last);
      var code := check(ResolveUrl(baseUrl, last));
      StatusLabelCases(code);
      RenderOkIff(Classify(code));
      RenderErrorIff(Classify(code));
      TotalsOfRecords(baseUrl, check, init);
    }
  }

  /** The totals of a page: `total` is the number of qualifying links, `ok` the
      number checked as 200 and `error` the number checked as 404. */
  lemma PageTotals(divs: seq<Div>, baseUrl: string, check: string -> Option<int>)
    ensures var q := QualifyingHrefs(DocumentHrefs(divs));
            CountStatuses(ExpectedRecords(divs, baseUrl, check)) ==
              Totals(|q|, CountChecked(baseUrl, check, q, Some(200)), CountChecked(baseUrl, check, q, Some(404)))
  {
    TotalsOfRecords(baseUrl, check, QualifyingHrefs(DocumentHrefs(divs)));
  }

  /** A page with no qualifying href has totals {0, 0, 0}. */
  lemma NoQualifyingLinksZeroTotals(divs: seq<Div>, baseUrl: string, check: string -> Option<int>)
    requires forall k :: 0 <= k < |DocumentHrefs(divs)| ==> !IsQualifying(DocumentHrefs(divs)[k])
    ensures CountStatuses(ExpectedRecords(divs, baseUrl, check)) == Totals(0, 0, 0)
  {
    NoQualifyingLinksNoRecords(divs, baseUrl, check);
  }

  // ---------------------------------------------------------------------
  // The pipeline with the real checker
  // ---------------------------------------------------------------------

  /** With the real checker, the label of a link follows from the network
      outcome alone: 200 is `OK`; a raise or any 4xx/5xx code, 404 included,
      is `Status inesperado: None`; any other code is reported verbatim. */
  lemma RealCheckLabel(probe: string -> Outcome, url: string)
    ensures var o := probe(url);
            StatusLabel(RealCheck(probe)(url)) ==
              if o == Final(200) then "OK"
              else if o.Raised? || RaisesForStatus(o.code) then "Status inesperado: None"
              else UnexpectedPrefix + IntToString(o.code)
  {
    StatusLabelCases(RealCheck(probe)(url));
  }

  lemma {:induction false} NoErrorRecords(records: seq<LinkRecord>)
    requires forall k :: 0 <= k < |records| ==> !IsErrorRecord(records[k])
    ensures CountError(records) == 0
    decreases |records|
  {
    if records != [] {
      NoErrorRecords(records[..|records| - 1]);
    }
  }

  /** With the real checker no record is ever `Erro 404`, so `error` is always 0:
      a missing file is reported as `Status inesperado: None`. */
  lemma RealCheckerReportsNoErrors(divs: seq<Div>, baseUrl: string, probe: string -> Outcome)
    ensures forall k :: 0 <= k < |ExpectedRecords(divs, baseUrl, RealCheck(probe))| ==>
              !IsErrorRecord(ExpectedRecords(divs, baseUrl, RealCheck(probe))[k])
    ensures CountStatuses(ExpectedRecords(divs, baseUrl, RealCheck(probe))).error == 0
  {
    var rs := ExpectedRecords(divs, baseUrl, RealCheck(probe));
    forall k | 0 <= k < |rs| ensures !IsErrorRecord(rs[k]) {
      var code := RealCheck(probe)(rs[k].url);
      CheckerNeverReturns404(probe(rs[k].url));
      RenderErrorIff(Classify(code));
    }
    NoErrorRecords(rs);
  }
}
