/** The metadata and the record that `TextAnalyzer` builds and stores
    (function_app.py:75-86), and the projection the history query returns. */
module Records {
  import opened Metrics

  const PreviewLength := 100
  const Ellipsis := "..."

  /** `text[:100] + "..." if len(text) > 100 else text`. */
  function TextPreview(text: string): (p: string)
    ensures |text| <= PreviewLength ==> p == text
    ensures |text| > PreviewLength ==> p == text[..PreviewLength] + Ellipsis
    ensures |p| <= PreviewLength + |Ellipsis|
    ensures var k := if |text| < PreviewLength then |text| else PreviewLength;
              k <= |p| && p[..k] == text[..k]
  {
    if |text| > PreviewLength then text[..PreviewLength] + Ellipsis else text
  }

  /** The `metadata` object. `analyzedAt` is the clock reading the caller
      supplies, already in ISO-8601 form. */
  datatype Metadata = Metadata(analyzedAt: string, textPreview: string)

  function BuildMetadata(text: string, now: string): (m: Metadata)
    ensures m.analyzedAt == now
    ensures |m.textPreview| <= PreviewLength + |Ellipsis|
    ensures |text| <= PreviewLength ==> m.textPreview == text
  {
    Metadata(now, TextPreview(text))
  }

  /** The stored document. */
  datatype Record = Record(id: string, analysis: Analysis, metadata: Metadata, originalText: string)

  /** What the history query selects of a document: `c.id, c.analysis, c.metadata`. */
  datatype Summary = Summary(id: string, analysis: Analysis, metadata: Metadata)

  function Summarize(r: Record): Summary {
    Summary(r.id, r.analysis, r.metadata)
  }
}
