/**
 * What the author line and the inventor line share: the owner's name in its
 * two spellings, and a rendered line as a run of text pieces, each bold or
 * plain.
 */
module Rendering {

  /** The owner's name as it appears in English and in Chinese author lists. */
  const LatinName: string := "S. Liang"
  const HanName: string := "梁爽"

  /** One rendered `<span>`: its text, and whether it is set in bold. */
  datatype Span = Span(text: string, bold: bool)

  /** The texts of the spans, in order. */
  function Texts(spans: seq<Span>): seq<string> {
    seq(|spans|, i requires 0 <= i < |spans| => spans[i].text)
  }
}
