/**
 * Worked examples of the pipeline, proved as lemmas: the extension filter, URL resolution and a
 * whole page checked once with a stand-in checker and once with the real one.
 */
module Scenarios {
  import opened Wrappers
  import opened PyStrings
  import opened App

  /** `Lower` on a concrete string, checked character by character. */
  lemma LowerIs(s: string, t: string)
    requires |s| == |t| && forall i :: 0 <= i < |s| ==> LowerChar(s[i]) == t[i]
    ensures Lower(s) == t
  {
  }

  /** An upper-case extension is accepted. */
  lemma UpperCaseExtensionKept()
    ensures IsQualifying("a.PDF")
  {
    LowerIs("a.PDF", "a.pdf");
    assert EndsWith("a.pdf", Extensions[0]);
  }

  /** Mixed case is accepted too. */
  lemma MixedCaseExtensionKept()
    ensures IsQualifying("img/photo.JpEg")
  {
    LowerIs("img/photo.JpEg", "img/photo.jpeg");
    assert EndsWith("img/photo.jpeg", Extensions[2]);
  }

  /** Other extensions are not. */
  lemma OtherExtensionDropped()
    ensures !IsQualifying("a.docx")
  {
    LowerIs("a.docx", "a.docx");
    assert "a.docx"[1..] == ".docx";
  }

  /** A relative href is appended to the base verbatim. */
  lemma RelativeHrefAppended()
    ensures ResolveUrl("https://example.com", "/files/a.pdf") == "https://example.com/files/a.pdf"
  {
    assert !StartsWith("/files/a.pdf", "http") by { assert "/files/a.pdf"[0] == '/'; }
  }

  /** No slash normalisation: a base ending in `/` gives a double slash. */
  lemma TrailingSlashKept()
    ensures ResolveUrl("https://example.com/", "/files/a.pdf") == "https://example.com//files/a.pdf"
  {
    assert !StartsWith("/files/a.pdf", "http") by { assert "/files/a.pdf"[0] == '/'; }
  }

  /** An absolute href passes through whatever the base. */
  lemma AbsoluteHrefKept(anyBase: string)
    ensures ResolveUrl(anyBase, "http://other.com/x.png") == "http://other.com/x.png"
  {
    assert StartsWith("http://other.com/x.png", "http");
  }

  /** One `paginas-internas` div: two documents `a` and `b` with, between them,
      an anchor without `href`, and after them `c`. */
  function SampleDiv(a: string, b: string, c: string): Div {
    [Anchor(Some(a)), Anchor(None), Anchor(Some(b)), Anchor(Some(c))]
  }

  /** The href itself when it qualifies, nothing otherwise. */
  function Kept(h: string): seq<string> {
    if IsQualifying(h) then [h] else []
  }

  /** Filtering four hrefs keeps each of them on its own merits, in order. */
  lemma QualifyingOfFour(w: string, x: string, y: string, z: string)
    ensures QualifyingHrefs([w, x, y, z]) == Kept(w) + Kept(x) + Kept(y) + Kept(z)
  {
    QualifyingStep([], w);
    assert [] + [w] == [w];
    QualifyingStep([w], x);
    assert [w] + [x] == [w, x];
    QualifyingStep([w, x], y);
    assert [w, x] + [y] == [w, x, y];
    QualifyingStep([w, x, y], z);
    assert [w, x, y] + [z] == [w, x, y, z];
  }

  /** When `a` and `b` qualify and `c` does not, only `a` and `b` are kept, in that order. */
  lemma SampleDivHrefs(a: string, b: string, c: string)
    requires IsQualifying(a) && IsQualifying(b) && !IsQualifying(c)
    ensures QualifyingHrefs(DocumentHrefs([SampleDiv(a, b, c)])) == [a, b]
  {
    var d := SampleDiv(a, b, c);
    DocumentHrefsSingle(d);
    assert DivHrefs(d) == [a, "", b, c];
    MissingHrefNeverQualifies(Anchor(None));
    QualifyingOfFour(a, "", b, c);
    assert Kept(a) == [a] && Kept("") == [] && Kept(b) == [b] && Kept(c) == [];
  }

  /** ... and the div yields the records of `a` and `b`, whatever the checker says. */
  lemma SampleDivRecords(baseUrl: string, check: string -> Option<int>, a: string, b: string, c: string)
    requires IsQualifying(a) && IsQualifying(b) && !IsQualifying(c)
    ensures ExpectedRecords([SampleDiv(a, b, c)], baseUrl, check) ==
              [MakeRecord(baseUrl, check, a), MakeRecord(baseUrl, check, b)]
  {
    SampleDivHrefs(a, b, c);
  }

  const Base: string := "https://example.com"

  /** A stand-in for the checker that answers 200 for `a.pdf` and 404 otherwise. */
  function MockCheck(url: string): Option<int> {
    if url == Base + "/a.pdf" then Some(200) else Some(404)
  }

  /** The network as seen by the real checker: `a.pdf` exists, everything else is 404. */
  function MockNetwork(url: string): Outcome {
    if url == Base + "/a.pdf" then Final(200) else Final(404)
  }

  lemma PdfLinkKept()
    ensures IsQualifying("/a.pdf")
  {
    LowerIs("/a.pdf", "/a.pdf");
    assert EndsWith("/a.pdf", Extensions[0]);
  }

  lemma JpgLinkKept()
    ensures IsQualifying("/b.jpg")
  {
    LowerIs("/b.jpg", "/b.jpg");
    assert EndsWith("/b.jpg", Extensions[3]);
  }

  lemma DocxLinkDropped()
    ensures !IsQualifying("/c.docx")
  {
    LowerIs("/c.docx", "/c.docx");
    assert "/c.docx"[2..] == ".docx";
  }

  lemma PageLinksClassified()
    ensures IsQualifying("/a.pdf") && IsQualifying("/b.jpg") && !IsQualifying("/c.docx")
  {
    PdfLinkKept();
    JpgLinkKept();
    DocxLinkDropped();
  }

  lemma SampleUrls()
    ensures ResolveUrl(Base, "/a.pdf") == "https://example.com/a.pdf"
    ensures ResolveUrl(Base, "/b.jpg") == "https://example.com/b.jpg"
    ensures "https://example.com/b.jpg" != Base + "/a.pdf"
  {
    assert !StartsWith("/a.pdf", "http") by { assert "/a.pdf"[0] == '/'; }
    assert !StartsWith("/b.jpg", "http") by { assert "/b.jpg"[0] == '/'; }
    assert "https://example.com/b.jpg"[20] == 'b';
  }

  lemma TwoRecordTotals(u: string, v: string, s: string, t: string)
    ensures CountStatuses([LinkRecord(u, s), LinkRecord(v, t)]) ==
              Totals(2, (if s == "OK" then 1 else 0) + (if t == "OK" then 1 else 0),
                     (if StartsWith(s, "Erro") then 1 else 0) + (if StartsWith(t, "Erro") then 1 else 0))
  {
    var rs := [LinkRecord(u, s), LinkRecord(v, t)];
    assert rs[..1] == [LinkRecord(u, s)] && rs[..1][..0] == [];
    assert CountOk(rs[..1]) == (if s == "OK" then 1 else 0);
    assert CountError(rs[..1]) == (if StartsWith(s, "Erro") then 1 else 0);
  }

  /** With a checker that reports 200 and 404, the page yields one `OK` and one
      `Erro 404` record, and totals {2, 1, 1}. */
  lemma MockedCheckerRun()
    ensures ExpectedRecords([SampleDiv("/a.pdf", "/b.jpg", "/c.docx")], Base, MockCheck) ==
              [LinkRecord("https://example.com/a.pdf", "OK"),
               LinkRecord("https://example.com/b.jpg", "Erro 404")]
    ensures CountStatuses(ExpectedRecords([SampleDiv("/a.pdf", "/b.jpg", "/c.docx")], Base, MockCheck))
              == Totals(2, 1, 1)
  {
    PageLinksClassified();
    SampleDivRecords(Base, MockCheck, "/a.pdf", "/b.jpg", "/c.docx");
    SampleUrls();
    assert MockCheck("https://example.com/a.pdf") == Some(200);
    assert MockCheck("https://example.com/b.jpg") == Some(404);
    StatusLabelCases(Some(200));
    StatusLabelCases(Some(404));
    TwoRecordTotals("https://example.com/a.pdf", "https://example.com/b.jpg", "OK", "Erro 404");
    RenderErrorIff(Classify(Some(404)));
  }

  /** With the real checker the 404 never reaches the classification: the
      missing file is recorded as `Status inesperado: None`, and totals are {2, 1, 0}. */
  lemma RealCheckerRun()
    ensures ExpectedRecords([SampleDiv("/a.pdf", "/b.jpg", "/c.docx")], Base, RealCheck(MockNetwork)) ==
              [LinkRecord("https://example.com/a.pdf", "OK"),
               LinkRecord("https://example.com/b.jpg", "Status inesperado: None")]
    ensures CountStatuses(ExpectedRecords([SampleDiv("/a.pdf", "/b.jpg", "/c.docx")], Base, RealCheck(MockNetwork)))
              == Totals(2, 1, 0)
  {
    PageLinksClassified();
    SampleDivRecords(Base, RealCheck(MockNetwork), "/a.pdf", "/b.jpg", "/c.docx");
    SampleUrls();
    assert RealCheck(MockNetwork)("https://example.com/a.pdf") == Some(200);
    assert RealCheck(MockNetwork)("https://example.com/b.jpg") == None;
    StatusLabelCases(Some(200));
    StatusLabelCases(None);
    TwoRecordTotals("https://example.com/a.pdf", "https://example.com/b.jpg", "OK", "Status inesperado: None");
    RenderErrorIff(Classify(None));
  }
}
