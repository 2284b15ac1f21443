/** The outside services the handlers call and whose behaviour is not part
    of this model: the PDF and DOCX text extractors, the language model and
    `JSON.parse`. Each is a parameter of the operations that use it, so
    every property holds whatever these services answer. */
module Oracles {
  import opened Wrappers
  import opened Json
  import CvStore

  /** The outcome of one text-extraction call: the promise rejects, or it
      resolves to an object whose text member may be missing. */
  datatype Extracted = ExtractFailed | ExtractedText(text: Option<string>)

  /** A text extractor for one document format. */
  type Extractor = seq<CvStore.byte> -> Extracted

  /** The outcome of one chat-completion call: the request rejects (or the
      reply has no first choice), or the first choice carries a message
      whose content may be null. */
  datatype LlmReply = LlmFailed | LlmContent(content: Option<string>)

  /** `JSON.parse`: `None` when it throws. */
  type JsonParser = string -> Option<Json>

  /** `extract(buffer).text || ""`: the extracted text, empty when the
      extractor gave none. */
  function TextOr(e: Extracted): (r: Result<string, string>)
    ensures e.ExtractFailed? <==> r.Failure?
    ensures e.ExtractedText? && e.text.Some? ==> r == Success(e.text.value)
    ensures e.ExtractedText? && e.text.None? ==> r == Success("")
  {
    match e
    case ExtractFailed => Failure("extraction failed")
    case ExtractedText(t) => Success(t.GetOr(""))
  }
}
