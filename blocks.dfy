/**
 * The styled paragraphs the assembler hands to the document encoder.
 * Each variant carries exactly the text of the runs the source builds for
 * it; `Runs` gives the run-by-run styling (bold, colour).
 */
module Blocks {

  datatype Block =
    | Header(text: string)                   // page header: one bold run in the accent colour
    | Spacer                                 // an empty paragraph
    | LabelValue(key: string, value: string) // a bold key run followed by a plain value run
    | Plain(text: string)                    // one plain run
    | Error(text: string)                    // one run in the error colour

  const HeaderColour: string := "2E74B5"
  const ErrorColour: string := "FF0000"

  datatype Colour = Auto | Hex(code: string)

  datatype Run = Run(text: string, bold: bool, colour: Colour)

  /** The colour every run of a block is drawn in. */
  function BlockColour(b: Block): Colour {
    if b.Header? then Hex(HeaderColour) else if b.Error? then Hex(ErrorColour) else Auto
  }

  /**
   * The text runs of a block, in order, as the encoder receives them: a
   * label/value block gives its key run then its value run, a spacer one
   * empty run, every other block one run holding its text.
   */
  function Runs(b: Block): (runs: seq<Run>)
    ensures |runs| == if b.LabelValue? then 2 else 1
    ensures forall k :: 0 <= k < |runs| ==> (runs[k].bold <==> b.Header? || (b.LabelValue? && k == 0))
    ensures forall k :: 0 <= k < |runs| ==> (runs[k].colour != Auto <==> b.Header? || b.Error?)
    ensures forall k :: 0 <= k < |runs| ==> runs[k].colour == BlockColour(b)
    ensures b.LabelValue? ==> runs[0].text == b.key && runs[1].text == b.value
    ensures b.Spacer? ==> runs[0].text == ""
    ensures b.Header? || b.Plain? || b.Error? ==> runs[0].text == b.text
  {
    match b
    case Header(text) => [Run(text, true, Hex(HeaderColour))]
    case Spacer => [Run("", false, Auto)]
    case LabelValue(key, value) => [Run(key, true, Auto), Run(value, false, Auto)]
    case Plain(text) => [Run(text, false, Auto)]
    case Error(text) => [Run(text, false, Hex(ErrorColour))]
  }
}
