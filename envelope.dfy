/**
 * The request and response envelopes of the generateContent call, as the
 * client declares them. Field names are the wire names of the JSON objects.
 */
module Envelope {

  /** A signed 32-bit integer, the width of the source's counters and index. */
  newtype Int32 = x: int | -0x8000_0000 <= x < 0x8000_0000

  /** One piece of text inside a content. */
  datatype Part = Part(text: string)

  /** A turn of the conversation: its parts and the role that produced them. */
  datatype Content = Content(parts: seq<Part>, role: string)

  /** A safety classification the service attaches to a candidate (unused). */
  datatype SafetyRating = SafetyRating(category: string, probability: string)

  /** Token counters of one exchange (unused). */
  datatype UsageMetadata = UsageMetadata(
    promptTokenCount: Int32,
    candidatesTokenCount: Int32,
    totalTokenCount: Int32)

  /** One generated answer. Only `content` is consumed by the client. */
  datatype Candidate = Candidate(
    content: Content,
    finishReason: string,
    index: Int32,
    safetyRatings: seq<SafetyRating>)

  /** The decoded response body. */
  datatype AIResponse = AIResponse(candidates: seq<Candidate>, usageMetadata: UsageMetadata)

  /** The request body. */
  datatype GenerateContentRequest = GenerateContentRequest(contents: seq<Content>)
}
